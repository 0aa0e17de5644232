/** Optional values, and sequences: filtering, repeated elements, regrouping. */
module Collections {

  datatype Option<+T> = None | Some(value: T)

  ghost function Elements<T>(xs: seq<T>): set<T> { set x | x in xs }

  function Keep<T>(f: T -> bool, xs: seq<T>): seq<T> {
    if xs == [] then []
    else
      var n := |xs| - 1;
      Keep(f, xs[..n]) + One(f, xs[n])
  }

  function One<T>(f: T -> bool, x: T): seq<T> { if f(x) then [x] else [] }

  ghost predicate All<T>(f: T -> bool, xs: seq<T>) { forall i :: 0 <= i < |xs| ==> f(xs[i]) }

  lemma Assoc<T>(a: seq<T>, b: seq<T>, c: seq<T>)
    ensures a + b + c == a + (b + c)
  {
  }

  lemma Around<T>(xs: seq<T>, i: nat)
    requires i < |xs|
    ensures xs[..i] + [xs[i]] + xs[i + 1..] == xs
    ensures xs[..i] + [] + xs[i + 1..] == xs[..i] + xs[i + 1..]
  {
  }

  lemma KeepSnoc<T>(f: T -> bool, xs: seq<T>, x: T)
    ensures Keep(f, xs + [x]) == Keep(f, xs) + One(f, x)
  {
    assert (xs + [x])[..|xs|] == xs;
  }

  lemma KeepCons<T>(f: T -> bool, xs: seq<T>)
    requires xs != []
    ensures Keep(f, xs) == One(f, xs[0]) + Keep(f, xs[1..])
  {
    KeepConcat(f, [xs[0]], xs[1..]);
    KeepSnoc(f, [], xs[0]);
    assert xs == [xs[0]] + xs[1..] && [] + [xs[0]] == [xs[0]];
  }

  lemma {:induction false} KeepAll<T>(f: T -> bool, xs: seq<T>)
    requires All(f, xs)
    ensures Keep(f, xs) == xs
  {
    if xs != [] { KeepAll(f, xs[..|xs| - 1]); }
  }

  lemma {:induction false} KeepConcat<T>(f: T -> bool, a: seq<T>, b: seq<T>)
    ensures Keep(f, a + b) == Keep(f, a) + Keep(f, b)
  {
    if b == [] {
      assert a + b == a;
    } else {
      var n := |b| - 1;
      var b' := b[..n];
      KeepConcat(f, a, b');
      assert b == b' + [b[n]];
      Assoc(a, b', [b[n]]);
      KeepSnoc(f, a + b', b[n]);
      KeepSnoc(f, b', b[n]);
      Assoc(Keep(f, a), Keep(f, b'), One(f, b[n]));
    }
  }

  /** Only the element at `i` can be lost. */
  lemma {:induction false} KeepAround<T>(f: T -> bool, xs: seq<T>, i: nat)
    requires i < |xs| && forall j :: 0 <= j < |xs| && j != i ==> f(xs[j])
    ensures Keep(f, xs) == xs[..i] + One(f, xs[i]) + xs[i + 1..]
  {
    var a, b := xs[..i], xs[i + 1..];
    assert xs == a + [xs[i]] + b;
    KeepConcat(f, a + [xs[i]], b);
    KeepSnoc(f, a, xs[i]);
    KeepAll(f, a);
    KeepAll(f, b);
  }

  lemma {:induction false} KeepMembers<T>(f: T -> bool, xs: seq<T>, x: T)
    ensures x in Keep(f, xs) <==> x in xs && f(x)
  {
    if xs != [] {
      var n := |xs| - 1;
      KeepMembers(f, xs[..n], x);
      assert xs == xs[..n] + [xs[n]];
    }
  }

  lemma {:induction false} KeepIsShorter<T>(f: T -> bool, xs: seq<T>)
    ensures |Keep(f, xs)| <= |xs|
  {
    if xs != [] { KeepIsShorter(f, xs[..|xs| - 1]); }
  }

  /** No element occurs twice. */
  ghost predicate NoRepeats<T>(xs: seq<T>) { forall i, j :: 0 <= i < j < |xs| ==> xs[i] != xs[j] }

  lemma ElementsNext<T>(xs: seq<T>, k: nat)
    requires k < |xs| && NoRepeats(xs)
    ensures Elements(xs[..k + 1]) == Elements(xs[..k]) + {xs[k]} && xs[k] !in Elements(xs[..k])
  {
    assert xs[..k + 1] == xs[..k] + [xs[k]];
  }

  lemma InsertNoRepeats<T>(xs: seq<T>, i: nat, x: T)
    requires i <= |xs| && NoRepeats(xs) && x !in xs
    ensures NoRepeats(xs[..i] + [x] + xs[i..])
  {
    var ys := xs[..i] + [x] + xs[i..];
    forall j, k | 0 <= j < k < |ys| ensures ys[j] != ys[k] {
      if j == i { assert ys[k] == xs[k - 1]; } else if k == i { assert ys[j] == xs[j]; }
    }
  }

  lemma RemovedAt<T>(xs: seq<T>, i: nat, j: nat)
    requires i < |xs| && j < |xs| - 1
    ensures (xs[..i] + xs[i + 1..])[j] == xs[if j < i then j else j + 1]
  {
  }

  lemma RemoveNoRepeats<T>(xs: seq<T>, i: nat)
    requires i < |xs| && NoRepeats(xs)
    ensures NoRepeats(xs[..i] + xs[i + 1..])
  {
  }

  lemma SnocEqualIff<T>(a: seq<T>, b: seq<T>, x: T, y: T)
    requires |a| == |b|
    ensures a + [x] == b + [y] <==> a == b && x == y
    ensures a + [] == a && b + [] == b
  {
    assert (a + [x])[..|a|] == a && (b + [y])[..|b|] == b;
    assert (a + [x])[|a|] == x && (b + [y])[|b|] == y;
  }

  function Map<T>(g: T -> T, xs: seq<T>): seq<T> {
    seq(|xs|, i requires 0 <= i < |xs| => g(xs[i]))
  }

  /** Changing elements and filtering commute if the change does not concern the filter. */
  lemma {:induction false} KeepMap<T>(f: T -> bool, g: T -> T, xs: seq<T>)
    requires forall i :: 0 <= i < |xs| ==> f(g(xs[i])) == f(xs[i])
    ensures Keep(f, Map(g, xs)) == Map(g, Keep(f, xs))
  {
    if xs != [] {
      var n := |xs| - 1;
      KeepMap(f, g, xs[..n]);
      assert Map(g, xs)[..n] == Map(g, xs[..n]);
      MapSnoc(g, Keep(f, xs[..n]), xs[n]);
    }
  }

  lemma MapSnoc<T>(g: T -> T, xs: seq<T>, x: T)
    ensures Map(g, xs + [x]) == Map(g, xs) + [g(x)] && xs + [] == xs && Map(g, xs) + [] == Map(g, xs)
  {
  }

  /** Sequences that are kept at the same positions are kept equal exactly if they agree there. */
  lemma {:induction false} KeepEqualIff<T>(f: T -> bool, a: seq<T>, b: seq<T>)
    requires |a| == |b| && forall k :: 0 <= k < |a| ==> f(a[k]) == f(b[k])
    ensures |Keep(f, a)| == |Keep(f, b)|
    ensures Keep(f, a) == Keep(f, b) <==> forall k :: 0 <= k < |a| && f(a[k]) ==> a[k] == b[k]
  {
    if a != [] {
      var n := |a| - 1;
      KeepEqualIff(f, a[..n], b[..n]);
      SnocEqualIff(Keep(f, a[..n]), Keep(f, b[..n]), a[n], b[n]);
      assert forall k :: 0 <= k < n ==> a[..n][k] == a[k] && b[..n][k] == b[k];
    }
  }
}
