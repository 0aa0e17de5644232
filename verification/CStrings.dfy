/** C strings as the code uses them: NUL-terminated arrays, `strtok`/`strtok_r` with a single
    delimiter, `strchr`, and the `%d` conversions of `snprintf`, `sscanf` and `atoi`.

    `Split` gives all delimiter-separated segments, the empty ones included; `Tokens` keeps the
    non-empty ones, and `StrtokR` is proved to return them one after another. */
module CStrings {
  import opened Collections

  const NUL := '\0'

  // -------------------------------------------------------------------------
  // Segments and tokens
  // -------------------------------------------------------------------------

  /** Number of leading characters different from `d` (the C `strcspn`, or `strlen` for NUL). */
  function SpanNot(s: string, d: char): (n: nat)
    ensures n <= |s|
    ensures forall k :: 0 <= k < n ==> s[k] != d
    ensures n < |s| ==> s[n] == d
  {
    if s == [] || s[0] == d then 0 else 1 + SpanNot(s[1..], d)
  }

  /** The C string held in a character buffer: everything before the first NUL. */
  function CStr(s: string): string {
    s[..SpanNot(s, NUL)]
  }

  /** Every segment between delimiters, empty ones included. */
  function Split(s: string, d: char): (segs: seq<string>)
    ensures |segs| > 0
  {
    if s == [] then [""]
    else
      var rest := Split(s[1..], d);
      if s[0] == d then [""] + rest else [[s[0]] + rest[0]] + rest[1..]
  }

  function Join(segs: seq<string>, d: char): string
    requires |segs| > 0
  {
    if |segs| == 1 then segs[0] else segs[0] + [d] + Join(segs[1..], d)
  }

  function NonEmpty(segs: seq<string>): seq<string> { Keep(IsFull, segs) }

  predicate IsFull(seg: string) { seg != "" }

  lemma NonEmptyCons(segs: seq<string>)
    requires segs != []
    ensures NonEmpty(segs) == (if segs[0] == "" then [] else [segs[0]]) + NonEmpty(segs[1..])
    ensures segs[0] == "" ==> NonEmpty(segs) == NonEmpty(segs[1..])
    ensures segs[0] != "" ==> NonEmpty(segs)[1..] == NonEmpty(segs[1..])
  {
    KeepCons(IsFull, segs);
  }

  /** The strings that successive calls of `strtok` return (see `StrtokR`). */
  function Tokens(s: string, d: char): seq<string> {
    NonEmpty(Split(s, d))
  }

  /** `Split` is the one decomposition without delimiters that joins back to the input. */
  lemma {:induction false} SplitJoins(s: string, d: char)
    ensures Join(Split(s, d), d) == s
    ensures forall seg :: seg in Split(s, d) ==> d !in seg
  {
    if s != [] {
      SplitJoins(s[1..], d);
      var rest := Split(s[1..], d);
      if s[0] == d {
        assert Split(s, d)[1..] == rest;
      } else {
        assert Split(s, d)[1..] == rest[1..];
        assert d !in [s[0]] + rest[0];
      }
      assert s == [s[0]] + s[1..];
    }
  }

  /** A delimiter ends a segment. */
  lemma {:induction false} SplitAt(a: string, d: char, b: string)
    ensures Split(a + [d] + b, d) == Split(a, d) + Split(b, d)
  {
    var s := a + [d] + b;
    if a == [] {
      assert s[0] == d && s[1..] == b;
    } else {
      SplitAt(a[1..], d, b);
      assert s[0] == a[0] && s[1..] == a[1..] + [d] + b;
      FirstGrows(a[0], Split(a[1..], d), Split(b, d));
      if a[0] == d { Assoc([""], Split(a[1..], d), Split(b, d)); }
    }
  }

  lemma FirstGrows(c: char, segs: seq<string>, more: seq<string>)
    requires segs != []
    ensures [[c] + (segs + more)[0]] + (segs + more)[1..] == [[c] + segs[0]] + segs[1..] + more
  {
    assert (segs + more)[1..] == segs[1..] + more;
  }

  /** Text without a delimiter is one segment. */
  lemma SplitWhole(s: string, d: char)
    requires d !in s
    ensures Split(s, d) == [s]
  {
    SplitTake(s, d, |s|);
    assert s[..|s|] == s;
  }

  lemma {:induction false} TokensSkip(s: string, d: char, k: nat)
    requires k <= |s| && forall j :: 0 <= j < k ==> s[j] == d
    ensures Tokens(s, d) == Tokens(s[k..], d)
  {
    if k > 0 {
      TokensSkip(s[1..], d, k - 1);
      assert s[1..][k - 1..] == s[k..];
      assert Split(s, d)[1..] == Split(s[1..], d);
      NonEmptyCons(Split(s, d));
    } else {
      assert s[0..] == s;
    }
  }

  lemma {:induction false} SplitTake(s: string, d: char, n: nat)
    requires n <= |s| && (forall j :: 0 <= j < n ==> s[j] != d) && (n < |s| ==> s[n] == d)
    ensures Split(s, d) == [s[..n]] + if n == |s| then [] else Split(s[n + 1..], d)
  {
    if n > 0 {
      SplitTake(s[1..], d, n - 1);
      assert s[..n] == [s[0]] + s[1..][..n - 1];
      assert n < |s| ==> s[1..][n..] == s[n + 1..];
    } else {
      assert s[..n] == "";
    }
  }

  lemma {:induction false} TokensNonEmpty(segs: seq<string>)
    ensures forall t :: t in NonEmpty(segs) <==> t in segs && t != ""
  {
    forall t ensures t in NonEmpty(segs) <==> t in segs && t != "" {
      KeepMembers(IsFull, segs, t);
    }
  }

  // -------------------------------------------------------------------------
  // strtok_r on a NUL-terminated array
  // -------------------------------------------------------------------------

  /** `start` begins a C string whose terminator is at `end`. */
  ghost predicate Terminated(a: array<char>, start: nat, end: nat)
    reads a
  {
    start <= end < a.Length && a[end] == NUL && NUL !in a[start..end]
  }

  /** Skips delimiters, then finds where the token ends. */
  method NextToken(a: array<char>, start: nat, ghost end: nat, d: char) returns (begin: nat, stop: nat)
    requires d != NUL && Terminated(a, start, end)
    ensures TokenAt(a[..], start, end, d, begin, stop)
  {
    begin := start;
    while a[begin] == d
      invariant start <= begin <= end
      invariant forall k :: start <= k < begin ==> a[k] == d
      decreases end - begin
    {
      begin := begin + 1;
    }
    stop := begin;
    while a[stop] != d && a[stop] != NUL
      invariant begin <= stop <= end
      invariant forall k :: begin <= k < stop ==> a[k] != d
      decreases end - stop
    {
      stop := stop + 1;
    }
    assert stop < end ==> a[stop] in a[start..end];
  }

  ghost predicate TokenAt(s: string, start: nat, end: nat, d: char, begin: nat, stop: nat) {
    && start <= begin <= stop <= end < |s| && s[end] == NUL
    && (forall k :: start <= k < begin ==> s[k] == d)
    && (forall k :: begin <= k < stop ==> s[k] != d)
    && (stop < end ==> s[stop] == d)
    && (begin < end ==> begin < stop)
  }

  /** Tokens of a string that starts with a token of length `n`. */
  lemma {:induction false} TokensFirst(u: string, d: char, n: nat)
    requires 0 < n <= |u| && (forall j :: 0 <= j < n ==> u[j] != d) && (n < |u| ==> u[n] == d)
    ensures Tokens(u, d) == [u[..n]] + Tokens(if n < |u| then u[n + 1..] else "", d)
  {
    SplitTake(u, d, n);
    var rest := if n < |u| then Split(u[n + 1..], d) else [];
    assert Split(u, d)[1..] == rest;
    NonEmptyCons(Split(u, d));
    assert NonEmpty([""]) == [] == NonEmpty([]);
  }

  lemma {:induction false} TokensAt(s: string, start: nat, end: nat, d: char, begin: nat, stop: nat)
    requires d != NUL && TokenAt(s, start, end, d, begin, stop)
    ensures begin == end ==> Tokens(s[start..end], d) == []
    ensures begin < end && stop < end ==> Tokens(s[start..end], d) == [s[begin..stop]] + Tokens(s[stop + 1..end], d)
    ensures begin < end && stop == end ==> Tokens(s[start..end], d) == [s[begin..stop]] + Tokens("", d)
  {
    TokensSkip(s[start..end], d, begin - start);
    SliceDrop(s, start, end, begin - start);
    if begin < end {
      TokensIn(s, end, d, begin, stop);
    } else {
      assert s[begin..end] == "" && NonEmpty([""]) == [];
    }
  }

  lemma {:induction false} TokensIn(s: string, end: nat, d: char, begin: nat, stop: nat)
    requires begin < stop <= end <= |s|
    requires (forall k :: begin <= k < stop ==> s[k] != d) && (stop < end ==> s[stop] == d)
    ensures Tokens(s[begin..end], d) == [s[begin..stop]] + Tokens(if stop < end then s[stop + 1..end] else "", d)
  {
    var u, n := s[begin..end], stop - begin;
    assert forall j :: 0 <= j < |u| ==> u[j] == s[begin + j];
    TokensFirst(u, d, n);
    assert u[..n] == s[begin..stop];
    if stop < end { assert u[n + 1..] == s[stop + 1..end]; }
  }

  lemma SliceTake(s: string, a: nat, b: nat, n: nat)
    requires a <= b <= |s| && n <= b - a
    ensures s[a..b][..n] == s[a..a + n]
  {
    assert s[a..b][..n] == s[a..a + n];
  }

  lemma SliceDrop(s: string, a: nat, b: nat, n: nat)
    requires a <= b <= |s| && n <= b - a
    ensures s[a..b][n..] == s[a + n..b]
  {
    assert s[a..b][n..] == s[a + n..b];
  }

  /** One `strtok_r` call: `save` is the scan position kept between calls. The token is
      `a[begin..stop]`; the delimiter behind it is overwritten by NUL. */
  method StrtokR(a: array<char>, start: nat, ghost end: nat, d: char)
    returns (found: bool, begin: nat, stop: nat, save: nat)
    requires d != NUL && Terminated(a, start, end)
    modifies a
    ensures start <= save <= end && Terminated(a, save, end)
    ensures found <==> Tokens(old(a[start..end]), d) != []
    ensures !found ==> a[..] == old(a[..])
    ensures found ==> start <= begin < stop <= save && a[stop] == NUL
    ensures found ==> a[..] == old(a[..])[stop := NUL] && old(a[stop]) in [d, NUL]
    ensures found ==> Tokens(old(a[start..end]), d) == [a[begin..stop]] + Tokens(a[save..end], d)
  {
    begin, stop := NextToken(a, start, end, d);
    ghost var s := a[..];
    assert s[start..end] == a[start..end];
    TokensAt(s, start, end, d, begin, stop);
    save := stop;
    found := a[begin] != NUL;
    assert begin < end ==> a[begin] in a[start..end];
    if found && a[stop] == d {
      save := stop + 1;
      a[stop] := NUL;
    }
    assert a[begin..stop] == s[begin..stop];
    assert a[save..end] == s[save..end] && s[end..end] == "";
    assert forall c :: c in a[save..end] ==> c in s[start..end];
  }

  // -------------------------------------------------------------------------
  // Decimal integers
  // -------------------------------------------------------------------------

  predicate IsDigit(c: char) { '0' <= c <= '9' }

  predicate IsSpace(c: char) { c == ' ' || '\t' <= c <= '\r' }

  /** Digits of `n`, most significant first. */
  function Digits(n: nat): (s: string)
    ensures |s| > 0
  {
    var d := ['0' + (n % 10) as char];
    if n < 10 then d else Digits(n / 10) + d
  }

  /** What `snprintf` prints for `%d`. */
  function Decimal(n: int): string {
    if n < 0 then "-" + Digits(-n) else Digits(n)
  }

  /** Value of the leading digits of `s`, continuing from the value read so far. */
  function ScanDigits(s: string, acc: nat): nat {
    if s != [] && IsDigit(s[0]) then ScanDigits(s[1..], 10 * acc + (s[0] - '0') as nat) else acc
  }

  /** A `%d` conversion: white space, an optional sign, then at least one digit. */
  function ScanInt(s: string): Option<int>
  {
    if s != [] && IsSpace(s[0]) then ScanInt(s[1..])
    else
      var signed := s != [] && (s[0] == '-' || s[0] == '+');
      var body := if signed then s[1..] else s;
      if body == [] || !IsDigit(body[0]) then None
      else if signed && s[0] == '-' then Some(0 - ScanDigits(body, 0))
      else Some(ScanDigits(body, 0))
  }

  /** `atoi`: zero where no number can be read. */
  function Atoi(s: string): int {
    match ScanInt(s) case None => 0 case Some(v) => v
  }

  lemma {:induction false} ScanDigitsOfDigits(n: nat, rest: string)
    ensures ScanDigits(Digits(n) + rest, 0) == ScanDigits(rest, n)
    ensures IsDigit(Digits(n)[0])
  {
    var d := ['0' + (n % 10) as char];
    if n < 10 {
      assert (d + rest)[1..] == rest;
    } else {
      ScanDigitsOfDigits(n / 10, d + rest);
      assert Digits(n) + rest == Digits(n / 10) + (d + rest);
      assert (d + rest)[1..] == rest;
    }
  }

  /** `%d` reads back what `%d` printed, whatever non-digit text follows. */
  lemma {:induction false} ScanIntOfDecimal(n: int, rest: string)
    requires rest == [] || !IsDigit(rest[0])
    ensures ScanInt(Decimal(n) + rest) == Some(n)
  {
    var m := if n < 0 then -n else n;
    ScanDigitsOfDigits(m, rest);
    assert (Digits(m) + rest)[0] == Digits(m)[0];
    if n < 0 {
      assert (Decimal(n) + rest)[1..] == Digits(m) + rest;
    }
  }

  // -------------------------------------------------------------------------
  // What the numbers mean
  // -------------------------------------------------------------------------

  /** Positional value of a string of decimal digits. */
  function Positional(s: string): nat
    requires forall k :: 0 <= k < |s| ==> '0' <= s[k] <= '9'
  {
    if s == [] then 0 else (s[0] - '0') as nat * Pow10(|s| - 1) + Positional(s[1..])
  }

  lemma {:induction false} ScanDigitsIs(s: string, acc: nat)
    requires forall k :: 0 <= k < |s| ==> '0' <= s[k] <= '9'
    ensures ScanDigits(s, acc) == acc * Pow10(|s|) + Positional(s)
  {
    if s != [] {
      var d, p := (s[0] - '0') as nat, Pow10(|s| - 1);
      ScanDigitsIs(s[1..], 10 * acc + d);
      assert (10 * acc + d) * p == acc * (10 * p) + d * p;
    }
  }

  /** Digits are read as their positional value. */
  lemma AtoiOfDigits(s: string)
    requires s != [] && forall k :: 0 <= k < |s| ==> '0' <= s[k] <= '9'
    ensures Atoi(s) == Positional(s)
  {
    ScanDigitsIs(s, 0);
  }

  /** White space as `isspace` knows it. */
  ghost predicate Blank(s: string) {
    forall k :: 0 <= k < |s| ==> s[k] == ' ' || 9 <= s[k] as int <= 13
  }

  lemma {:induction false} ScanSkipsBlank(blank: string, s: string)
    requires Blank(blank)
    ensures ScanInt(blank + s) == ScanInt(s)
  {
    if blank == [] {
      assert blank + s == s;
    } else {
      ScanSkipsBlank(blank[1..], s);
      assert (blank + s)[1..] == blank[1..] + s;
    }
  }

  /** `atoi` reads the integer that the text shows: after white space, with a sign or without one,
      whatever follows its digits. */
  lemma AtoiReads(blank: string, n: int, rest: string)
    requires Blank(blank) && (rest == [] || !('0' <= rest[0] <= '9'))
    ensures Atoi(blank + Decimal(n) + rest) == n
    ensures n >= 0 ==> Atoi(blank + "+" + Decimal(n) + rest) == n
  {
    ScanIntOfDecimal(n, rest);
    ScanSkipsBlank(blank, Decimal(n) + rest);
    assert blank + Decimal(n) + rest == blank + (Decimal(n) + rest);
    if n >= 0 {
      var signed := "+" + Decimal(n) + rest;
      ScanSkipsBlank(blank, signed);
      assert blank + "+" + Decimal(n) + rest == blank + signed && signed[1..] == Decimal(n) + rest;
      ScanDigitsOfDigits(n, rest);
      assert (Decimal(n) + rest)[0] == Digits(n)[0];
    }
  }

  /** Text that shows no integer gives zero. */
  lemma AtoiOfOther(blank: string, s: string)
    requires Blank(blank)
    requires s == [] || !(Blank(s[..1]) || s[0] in ['+', '-'] || '0' <= s[0] <= '9')
    ensures Atoi(blank + s) == 0
  {
    ScanSkipsBlank(blank, s);
    if s != [] { assert s[..1][0] == s[0]; }
  }

  lemma {:induction false} DigitsLength(n: nat, k: nat, bound: nat)
    requires bound == Pow10(k) && k > 0 && n < bound
    ensures |Digits(n)| <= k
  {
    if n >= 10 {
      assert k > 1 && Pow10(k) == 10 * Pow10(k - 1);
      DigitsLength(n / 10, k - 1, Pow10(k - 1));
    }
  }

  function Pow10(k: nat): nat { if k == 0 then 1 else 10 * Pow10(k - 1) }
}
