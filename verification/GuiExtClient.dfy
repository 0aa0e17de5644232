/** The consumer-side shadow cache, `mtk/gui_ext/lib/GuiExtClientConsumer.cpp`: buffers already
    requested from the service, stored under a packed key in key order. `calls` are the calls made
    to the service; a buffer is named by its handle. */
module GuiExtClient {
  import opened Collections
  import opened GuiExtItemSpec

  const HWC_DISPLAY_VIRTUAL := 2

  /** `POOL_COMBINED_ID(id, usage, type, idx)` in 32 bits. */
  function SlotKey(pool: nat, usage: nat, typ: nat, idx: nat): nat {
    BitOr(BitOr(BitOr(Shl(pool, 10) % 0x1_0000_0000, Shl(usage, 6)), Shl(typ, 3)), idx)
  }

  /** The packing is injective in these ranges. */
  predicate Packs(pool: nat, usage: nat, typ: nat, idx: nat) {
    pool < 0x40_0000 && usage < 16 && typ < 8 && idx < 8
  }

  lemma {:induction false} SlotKeyIsSum(pool: nat, usage: nat, typ: nat, idx: nat)
    requires Packs(pool, usage, typ, idx)
    ensures SlotKey(pool, usage, typ, idx) == 1024 * pool + 64 * usage + 8 * typ + idx
  {
    ShlIs(pool);
    ShlIs(usage);
    ShlIs(typ);
    assert Shl(pool, 10) % 0x1_0000_0000 == 1024 * pool;
    var a, b := 16 * pool + usage, 8 * (16 * pool + usage) + typ;
    Or10(pool, 64 * usage);
    assert BitOr(1024 * pool, 64 * usage) == 64 * a;
    Or6(a, 8 * typ);
    assert BitOr(64 * a, 8 * typ) == 8 * b;
    Or3(b, idx);
  }

  lemma SlotKeyInjective(p: nat, u: nat, t: nat, i: nat, p': nat, u': nat, t': nat, i': nat)
    requires Packs(p, u, t, i) && Packs(p', u', t', i') && SlotKey(p, u, t, i) == SlotKey(p', u', t', i')
    ensures p == p' && u == u' && t == t' && i == i'
  {
    SlotKeyIsSum(p, u, t, i);
    SlotKeyIsSum(p', u', t', i');
  }

  /** At index 8 it is not: the index runs into the bits of the type. */
  lemma SlotKeyCollides(pool: nat, usage: nat, h: nat)
    requires pool < 0x40_0000 && usage < 16 && h < 4
    ensures SlotKey(pool, usage, 2 * h, 8) == SlotKey(pool, usage, 2 * h + 1, 0)
  {
    SlotKeyIsSum(pool, usage, 2 * h, 0);
    SlotKeyIsSum(pool, usage, 2 * h + 1, 0);
    var high := BitOr(BitOr(Shl(pool, 10) % 0x1_0000_0000, Shl(usage, 6)), Shl(2 * h, 3));
    var a := 64 * pool + 4 * usage + h;
    ShlIs(1);
    ShlIs(a);
    OrIsSum(a, 4, 8);
    assert BitOr(high, 0) == high == Shl(a, 4);
  }

  // -------------------------------------------------------------------------
  // The cache
  // -------------------------------------------------------------------------

  /** A keyed-vector entry with its `BufferSlot`. */
  datatype Entry = Entry(key: nat, pool: nat, usage: nat, typ: nat, idx: nat, handle: nat, acquired: bool)

  datatype Call =
    | ReleaseCall(pool: nat, usage: nat, typ: nat, idx: nat)
    | DisconnectCall(pool: nat, usage: nat, typ: nat)

  datatype Reply = Success | BadValue | Failed

  predicate Matches(e: Entry, pool: nat, usage: nat, typ: nat) {
    e.pool == pool && e.usage == usage && e.typ == typ
  }

  /** Stored under the key packed from its own fields. */
  predicate OwnKey(e: Entry) {
    e.key == SlotKey(e.pool, e.usage, e.typ, e.idx)
  }

  ghost predicate Keyed(es: seq<Entry>) {
    && (forall i :: 0 <= i < |es| ==> OwnKey(es[i]))
    && (forall i, j :: 0 <= i < j < |es| ==> es[i].key < es[j].key)
  }

  ghost predicate Ranged(es: seq<Entry>) {
    forall i :: 0 <= i < |es| ==> Packs(es[i].pool, es[i].usage, es[i].typ, es[i].idx)
  }

  /** The entries of other pools, usages or types. */
  function Others(es: seq<Entry>, pool: nat, usage: nat, typ: nat): seq<Entry> {
    Keep((e: Entry) => !Matches(e, pool, usage, typ), es)
  }

  /** Releases owed when the matching entries are dropped from the last to the first. */
  function Releases(es: seq<Entry>, pool: nat, usage: nat, typ: nat): seq<Call> {
    if es == [] then [] else Releases(es[1..], pool, usage, typ) + OwedFor(es[0], pool, usage, typ)
  }

  function OwedFor(e: Entry, pool: nat, usage: nat, typ: nat): seq<Call> {
    if Matches(e, pool, usage, typ) && e.acquired then [ReleaseCall(pool, usage, typ, e.idx)] else []
  }

  ghost predicate DistinctHandles(es: seq<Entry>) {
    forall i, j :: 0 <= i < j < |es| ==> es[i].handle != es[j].handle
  }

  /** `getSlotFromBufferLocked`: position of the first entry with this handle, or the size. */
  function FindHandle(es: seq<Entry>, handle: nat): (i: nat)
    ensures i <= |es| && (i < |es| ==> es[i].handle == handle)
    ensures forall j :: 0 <= j < i ==> es[j].handle != handle
  {
    if es == [] || es[0].handle == handle then 0 else 1 + FindHandle(es[1..], handle)
  }

  function FindKey(es: seq<Entry>, key: nat): (i: nat)
    ensures i <= |es| && (i < |es| ==> es[i].key == key)
    ensures forall j :: 0 <= j < i ==> es[j].key != key
  {
    if es == [] || es[0].key == key then 0 else 1 + FindKey(es[1..], key)
  }

  /** Adds an entry in key order unless its key is taken. */
  function Put(es: seq<Entry>, e: Entry): seq<Entry> {
    if es == [] || e.key < es[0].key then [e] + es
    else if es[0].key == e.key then es
    else [es[0]] + Put(es[1..], e)
  }

  lemma {:induction false} PutMembers(es: seq<Entry>, e: Entry, x: Entry)
    ensures x in Put(es, e) ==> x in es || x == e
    ensures x in es ==> x in Put(es, e)
  {
    if es != [] {
      PutMembers(es[1..], e, x);
      assert es == [es[0]] + es[1..];
    }
  }

  lemma {:induction false} PutKeepsKeyed(es: seq<Entry>, e: Entry)
    requires Keyed(es) && OwnKey(e)
    ensures Keyed(Put(es, e))
    ensures Ranged(es) && Packs(e.pool, e.usage, e.typ, e.idx) ==> Ranged(Put(es, e))
  {
    if es != [] && es[0].key < e.key {
      PutKeepsKeyed(es[1..], e);
      var rest := Put(es[1..], e);
      forall k | 0 <= k < |rest| ensures es[0].key < rest[k].key {
        PutMembers(es[1..], e, rest[k]);
      }
    }
  }

  lemma KeyedTail(es: seq<Entry>)
    requires Keyed(es) && es != []
    ensures Keyed(es[1..])
  {
    assert forall i :: 0 <= i < |es| - 1 ==> es[1..][i] == es[i + 1];
  }

  lemma {:induction false} PutPresent(es: seq<Entry>, e: Entry, i: nat)
    requires Keyed(es) && i < |es| && es[i].key == e.key
    ensures Put(es, e) == es
  {
    if i > 0 {
      var rest := es[1..];
      assert es[0].key < es[i].key && rest[i - 1] == es[i];
      KeyedTail(es);
      PutPresent(rest, e, i - 1);
      assert Put(es, e) == [es[0]] + rest;
    }
  }

  lemma {:induction false} PutAbsent(es: seq<Entry>, e: Entry)
    requires forall j :: 0 <= j < |es| ==> es[j].key != e.key
    ensures e in Put(es, e)
  {
    if es == [] || e.key < es[0].key {
      assert Put(es, e)[0] == e;
    } else {
      PutAbsent(es[1..], e);
    }
  }

  /** Position of the first matching entry that is not in use, or the size. */
  function FindBackup(es: seq<Entry>, pool: nat, usage: nat, typ: nat): (i: nat)
    ensures i <= |es|
    ensures i < |es| ==> es[i].pool == pool && es[i].usage == usage && es[i].typ == typ && !es[i].acquired
    ensures forall j :: 0 <= j < i ==>
              !(es[j].pool == pool && es[j].usage == usage && es[j].typ == typ) || es[j].acquired
  {
    if es == [] || (Matches(es[0], pool, usage, typ) && !es[0].acquired) then 0
    else 1 + FindBackup(es[1..], pool, usage, typ)
  }

  /** Marks entry `i`, if there is one. */
  function Marked(es: seq<Entry>, i: nat, mark: bool): seq<Entry> {
    if i < |es| then es[i := es[i].(acquired := mark)] else es
  }

  /** The entries after an acquire with arguments in range. */
  function AfterAcquire(es: seq<Entry>, pool: nat, usage: nat, typ: nat,
                        granted: bool, buf: nat, requested: bool, handle: nat): seq<Entry> {
    var key := SlotKey(pool, usage, typ, buf);
    if !granted then Marked(es, FindBackup(es, pool, usage, typ), true)
    else if requested || FindKey(es, key) < |es| then Put(es, Entry(key, pool, usage, typ, buf, handle, true))
    else es
  }

  /** The entries after a release of a known buffer. */
  function AfterRelease(es: seq<Entry>, handle: nat, pool: nat, usage: nat, typ: nat): seq<Entry>
    requires FindHandle(es, handle) < |es|
  {
    Marked(es, FindKey(es, SlotKey(pool, usage, typ, es[FindHandle(es, handle)].idx)), false)
  }

  // -------------------------------------------------------------------------
  // The releases of a disconnect
  // -------------------------------------------------------------------------

  function ClearOne(e: Entry, key: nat): Entry { if e.key == key then e.(acquired := false) else e }

  /** No mark under this key. */
  function Clear(es: seq<Entry>, key: nat): seq<Entry> {
    Map((e: Entry) => ClearOne(e, key), es)
  }

  /** The index that the release of entry `i` looks up by its handle. */
  function LookedUp(es: seq<Entry>, i: nat): nat
    requires i < |es|
  {
    var j := FindHandle(es, es[i].handle);
    if j < |es| then es[j].idx else es[i].idx
  }

  /** The walk down finds entry `n` to match and, after the releases so far, still marked. */
  predicate ReleasesAt(es: seq<Entry>, pool: nat, usage: nat, typ: nat, n: nat)
    requires n < |es|
    decreases |es| - n, 0
  {
    Matches(es[n], pool, usage, typ) && Unmarked(es, pool, usage, typ, n + 1)[n].acquired
  }

  /** The key under which that release clears the mark. */
  function Cleared(es: seq<Entry>, pool: nat, usage: nat, typ: nat, n: nat): nat
    requires n < |es|
  {
    SlotKey(pool, usage, typ, LookedUp(es, n))
  }

  /** The marks after the walk has come down to position `n`, removals aside. */
  function Unmarked(es: seq<Entry>, pool: nat, usage: nat, typ: nat, n: nat): (es': seq<Entry>)
    requires n <= |es|
    ensures |es'| == |es|
    decreases |es| - n, 1
  {
    if n == |es| then es
    else if ReleasesAt(es, pool, usage, typ, n)
    then Clear(Unmarked(es, pool, usage, typ, n + 1), Cleared(es, pool, usage, typ, n))
    else Unmarked(es, pool, usage, typ, n + 1)
  }

  function ReleaseCalls(es: seq<Entry>, pool: nat, usage: nat, typ: nat, n: nat): seq<Call>
    requires n <= |es|
    decreases |es| - n
  {
    if n == |es| then []
    else ReleaseCalls(es, pool, usage, typ, n + 1) +
         if ReleasesAt(es, pool, usage, typ, n) then [ReleaseCall(pool, usage, typ, LookedUp(es, n))] else []
  }

  /** The list after the walk has come down to position `n`. */
  function Walked(es: seq<Entry>, pool: nat, usage: nat, typ: nat, n: nat): seq<Entry>
    requires n <= |es|
  {
    var es' := Unmarked(es, pool, usage, typ, n);
    es'[..n] + Others(es'[n..], pool, usage, typ)
  }

  class GuiExtClientConsumer {
    var slots: seq<Entry>
    var calls: seq<Call>

    ghost predicate Valid()
      reads this
    {
      Keyed(slots) && Ranged(slots)
    }

    constructor ()
      ensures Valid() && slots == [] && calls == []
    {
      slots, calls := [], [];
    }

    /** `acquire`. The service replies with `granted` and index `buf`; `handle` is the buffer that
        its `request` returns, if `requested`. */
    method Acquire(pool: nat, usage: nat, typ: nat, granted: bool, buf: nat, requested: bool, handle: nat)
      returns (reply: Reply, buffer: nat)
      requires Keyed(slots)
      modifies this`slots
      ensures Keyed(slots)
      ensures reply == BadValue <==> usage >= 2 || typ > 2
      ensures reply != Success ==> slots == old(slots)
      ensures reply != BadValue ==>
        slots == AfterAcquire(old(slots), pool, usage, typ, granted, buf, requested, handle)
      ensures reply != BadValue && granted ==>
        (reply == Success <==> requested || FindKey(old(slots), SlotKey(pool, usage, typ, buf)) < |old(slots)|)
      ensures reply == Success && granted ==>
        && slots == Put(old(slots), Entry(SlotKey(pool, usage, typ, buf), pool, usage, typ, buf, handle, true))
        && exists e :: e in slots && e.key == SlotKey(pool, usage, typ, buf) && e.handle == buffer
      ensures reply != BadValue && !granted ==>
        var i := FindBackup(old(slots), pool, usage, typ);
        && (reply == Success <==> i < |old(slots)|) && slots == Marked(old(slots), i, true)
        && (reply == Success ==> buffer == old(slots)[i].handle)
      ensures old(Valid()) && Packs(pool, usage, typ, buf) ==> Valid()
      ensures old(Valid()) && Packs(pool, usage, typ, buf) && reply == Success && granted ==>
        exists e :: e in slots && Matches(e, pool, usage, typ) && e.idx == buf && e.handle == buffer
    {
      if usage >= USAGE_MAX || typ > HWC_DISPLAY_VIRTUAL { return BadValue, 0; }
      if !granted {
        reply, buffer := TakeBackup(pool, usage, typ);
        return;
      }
      var e := Entry(SlotKey(pool, usage, typ, buf), pool, usage, typ, buf, handle, true);
      PutKeepsKeyed(slots, e);
      var i := FindKey(slots, e.key);
      if i == |slots| {
        if !requested { return Failed, 0; }
        PutAbsent(slots, e);
        slots, buffer := Put(slots, e), handle;
        assert e in slots;
      } else {
        var x := slots[i];
        assert x in slots && OwnKey(x);
        if Valid() && Packs(pool, usage, typ, buf) {
          SlotKeyInjective(pool, usage, typ, buf, x.pool, x.usage, x.typ, x.idx);
        }
        PutPresent(slots, e, i);
        buffer := x.handle;
      }
      reply := Success;
    }

    /** The fallback of `acquire`: a shadow buffer that is not in use. */
    method TakeBackup(pool: nat, usage: nat, typ: nat) returns (reply: Reply, buffer: nat)
      requires Keyed(slots)
      modifies this`slots
      ensures Keyed(slots) && (old(Valid()) ==> Valid()) && reply != BadValue
      ensures var i := FindBackup(old(slots), pool, usage, typ);
        && (reply == Success <==> i < |old(slots)|) && slots == Marked(old(slots), i, true)
        && (reply == Success ==> buffer == old(slots)[i].handle)
    {
      var i := 0;
      while i < |slots|
        invariant 0 <= i <= |slots| && slots == old(slots)
        invariant forall j :: 0 <= j < i ==> !Matches(slots[j], pool, usage, typ) || slots[j].acquired
      {
        if Matches(slots[i], pool, usage, typ) && !slots[i].acquired {
          slots := slots[i := slots[i].(acquired := true)];
          return Success, slots[i].handle;
        }
        i := i + 1;
      }
      return Failed, 0;
    }

    /** `releaseLocked`: the index comes from the first entry with the same handle. */
    method ReleaseLocked(handle: nat, pool: nat, usage: nat, typ: nat) returns (reply: Reply)
      requires Keyed(slots)
      modifies this
      ensures Keyed(slots) && (old(Ranged(slots)) ==> Ranged(slots))
      ensures var i := FindHandle(old(slots), handle);
        if i == |old(slots)| then reply == BadValue && slots == old(slots) && calls == old(calls)
        else
          && reply == Success && calls == old(calls) + [ReleaseCall(pool, usage, typ, old(slots)[i].idx)]
          && slots == AfterRelease(old(slots), handle, pool, usage, typ)
    {
      var i := FindHandle(slots, handle);
      if i == |slots| { return BadValue; }
      var idx := slots[i].idx;
      var k := FindKey(slots, SlotKey(pool, usage, typ, idx));
      MarkedStays(slots, k, false);
      if k < |slots| { slots := slots[k := slots[k].(acquired := false)]; }
      calls := calls + [ReleaseCall(pool, usage, typ, idx)];
      reply := Success;
    }

    /** `disconnect`: walks down the list, releasing and removing the matching entries. */
    method Disconnect(pool: nat, usage: nat, typ: nat) returns (reply: Reply)
      requires Keyed(slots)
      modifies this
      ensures Keyed(slots) && (old(Valid()) ==> Valid())
      ensures reply == BadValue <==> usage >= 2 || typ > 2 || old(slots) == []
      ensures reply == BadValue ==> slots == old(slots) && calls == old(calls)
      ensures reply != BadValue ==> slots == Others(Unmarked(old(slots), pool, usage, typ, 0), pool, usage, typ)
      ensures reply != BadValue ==>
        calls == old(calls) + ReleaseCalls(old(slots), pool, usage, typ, 0) + [DisconnectCall(pool, usage, typ)]
    {
      if usage >= USAGE_MAX || typ > HWC_DISPLAY_VIRTUAL || |slots| == 0 { return BadValue; }
      WalkDown(pool, usage, typ);
      calls := calls + [DisconnectCall(pool, usage, typ)];
      reply := Success;
    }

    method WalkDown(pool: nat, usage: nat, typ: nat)
      requires Keyed(slots)
      modifies this
      ensures Keyed(slots) && (old(Ranged(slots)) ==> Ranged(slots))
      ensures slots == Others(Unmarked(old(slots), pool, usage, typ, 0), pool, usage, typ)
      ensures calls == old(calls) + ReleaseCalls(old(slots), pool, usage, typ, 0)
    {
      ghost var all := slots;
      var i := |slots|;
      WalkedEnds(all, pool, usage, typ);
      while i > 0
        invariant 0 <= i <= |all| && Keyed(slots) && (Ranged(all) ==> Ranged(slots))
        invariant slots == Walked(all, pool, usage, typ, i) && i <= |slots|
        invariant calls == old(calls) + ReleaseCalls(all, pool, usage, typ, i)
      {
        i := i - 1;
        DropMatching(i, pool, usage, typ, all);
        Assoc(old(calls), ReleaseCalls(all, pool, usage, typ, i + 1),
              if ReleasesAt(all, pool, usage, typ, i) then [ReleaseCall(pool, usage, typ, LookedUp(all, i))] else []);
      }
    }

    /** One round: entry `i` goes if it matches, and is released if it is marked. */
    method DropMatching(i: nat, pool: nat, usage: nat, typ: nat, ghost all: seq<Entry>)
      requires Keyed(slots) && i < |all| && i < |slots| && slots == Walked(all, pool, usage, typ, i + 1)
      modifies this
      ensures Keyed(slots) && (old(Ranged(slots)) ==> Ranged(slots))
      ensures slots == Walked(all, pool, usage, typ, i) && i <= |slots|
      ensures calls == old(calls) +
        if ReleasesAt(all, pool, usage, typ, i) then [ReleaseCall(pool, usage, typ, LookedUp(all, i))] else []
    {
      WalkedAt(all, pool, usage, typ, i);
      var x := slots[i];
      if Matches(x, pool, usage, typ) {
        if x.acquired { ReleaseAt(i, pool, usage, typ, all); }
        WalkedNext(all, pool, usage, typ, i);
        RemoveAt(i, x.key);
      } else {
        WalkedOn(all, pool, usage, typ, i);
      }
    }

    /** The release of an entry about to be removed. */
    method ReleaseAt(i: nat, pool: nat, usage: nat, typ: nat, ghost all: seq<Entry>)
      requires Keyed(slots) && i < |all| && i < |slots| && slots == Walked(all, pool, usage, typ, i + 1)
      modifies this
      ensures Keyed(slots) && (old(Ranged(slots)) ==> Ranged(slots))
      ensures slots == Clear(old(slots), Cleared(all, pool, usage, typ, i))
      ensures calls == old(calls) + [ReleaseCall(pool, usage, typ, LookedUp(all, i))]
    {
      WalkedLookUp(all, pool, usage, typ, i);
      MarkedIsClear(slots, Cleared(all, pool, usage, typ, i));
      var reply := ReleaseLocked(slots[i].handle, pool, usage, typ);
    }

    /** `KeyedVector::removeItem`. */
    method RemoveAt(ghost i: nat, key: nat)
      requires Keyed(slots) && i < |slots| && slots[i].key == key
      modifies this`slots
      ensures Keyed(slots) && (old(Ranged(slots)) ==> Ranged(slots))
      ensures slots == old(slots)[..i] + old(slots)[i + 1..]
    {
      var k := FindKey(slots, key);
      RemovedStays(slots, k, i);
      slots := slots[..k] + slots[k + 1..];
    }
  }

  lemma MarkedStays(es: seq<Entry>, i: nat, mark: bool)
    requires Keyed(es)
    ensures Keyed(Marked(es, i, mark)) && (Ranged(es) ==> Ranged(Marked(es, i, mark)))
  {
    var es' := Marked(es, i, mark);
    forall j | 0 <= j < |es'| ensures OwnKey(es'[j]) { assert OwnKey(es[j]); }
  }

  lemma RemovedStays(es: seq<Entry>, k: nat, i: nat)
    requires Keyed(es) && i < |es| && k == FindKey(es, es[i].key)
    ensures k == i && Keyed(es[..i] + es[i + 1..]) && (Ranged(es) ==> Ranged(es[..i] + es[i + 1..]))
  {
    assert k == i;
    var es' := es[..i] + es[i + 1..];
    forall j | 0 <= j < |es'|
      ensures OwnKey(es'[j]) && es'[j] == es[if j < i then j else j + 1]
      ensures Ranged(es) ==> Packs(es'[j].pool, es'[j].usage, es'[j].typ, es'[j].idx)
    {
      RemovedAt(es, i, j);
    }
  }

  lemma MarkedIsClear(es: seq<Entry>, key: nat)
    requires Keyed(es)
    ensures Marked(es, FindKey(es, key), false) == Clear(es, key)
  {
  }

  /** `Others` keeps exactly the entries that do not match. */
  lemma {:induction false} OthersAre(es: seq<Entry>, pool: nat, usage: nat, typ: nat, e: Entry)
    ensures e in Others(es, pool, usage, typ) <==> e in es && !(e.pool == pool && e.usage == usage && e.typ == typ)
  {
    KeepMembers((x: Entry) => !Matches(x, pool, usage, typ), es, e);
  }

  lemma OthersCons(es: seq<Entry>, i: nat, pool: nat, usage: nat, typ: nat)
    requires i < |es|
    ensures var rest := Others(es[i + 1..], pool, usage, typ);
      Others(es[i..], pool, usage, typ) == if Matches(es[i], pool, usage, typ) then rest else [es[i]] + rest
  {
    KeepCons((e: Entry) => !Matches(e, pool, usage, typ), es[i..]);
    assert es[i..][1..] == es[i + 1..];
  }

  /** Clearing marks and leaving out matching entries commute. */
  lemma {:induction false} OthersOfClear(es: seq<Entry>, key: nat, pool: nat, usage: nat, typ: nat)
    ensures Others(Clear(es, key), pool, usage, typ) == Clear(Others(es, pool, usage, typ), key)
  {
    KeepMap((e: Entry) => !Matches(e, pool, usage, typ), (e: Entry) => ClearOne(e, key), es);
  }

  /** Only marks change. */
  lemma {:induction false} UnmarkedSame(es: seq<Entry>, pool: nat, usage: nat, typ: nat, n: nat, k: nat)
    requires n <= |es| && k < |es|
    ensures var x := Unmarked(es, pool, usage, typ, n)[k]; x == es[k].(acquired := x.acquired)
    decreases |es| - n
  {
    if n < |es| { UnmarkedSame(es, pool, usage, typ, n + 1, k); }
  }

  lemma WalkedEnds(es: seq<Entry>, pool: nat, usage: nat, typ: nat)
    ensures Walked(es, pool, usage, typ, |es|) == es
    ensures Walked(es, pool, usage, typ, 0) == Others(Unmarked(es, pool, usage, typ, 0), pool, usage, typ)
  {
    assert es[..|es|] == es && es[|es|..] == [];
    var es' := Unmarked(es, pool, usage, typ, 0);
    assert es'[0..] == es' && es'[..0] == [];
  }

  lemma WalkedAt(es: seq<Entry>, pool: nat, usage: nat, typ: nat, i: nat)
    requires i < |es|
    ensures var ws, x := Walked(es, pool, usage, typ, i + 1), Unmarked(es, pool, usage, typ, i + 1)[i];
      i < |ws| && ws[i] == x && x == es[i].(acquired := x.acquired)
  {
    UnmarkedSame(es, pool, usage, typ, i + 1, i);
  }

  /** Behind the walk handles and indices are those of the start, so a look-up finds the same. */
  lemma WalkedLookUp(es: seq<Entry>, pool: nat, usage: nat, typ: nat, i: nat)
    requires i < |es|
    ensures var ws := Walked(es, pool, usage, typ, i + 1);
      && i < |ws| && FindHandle(ws, ws[i].handle) < |ws|
      && ws[FindHandle(ws, ws[i].handle)].idx == LookedUp(es, i)
  {
    var ws := Walked(es, pool, usage, typ, i + 1);
    forall k | 0 <= k <= i ensures ws[k].handle == es[k].handle && ws[k].idx == es[k].idx {
      UnmarkedSame(es, pool, usage, typ, i + 1, k);
    }
    SameLookUp(ws, es, i);
  }

  lemma SameLookUp(ws: seq<Entry>, es: seq<Entry>, i: nat)
    requires i < |ws| && i < |es|
    requires forall k :: 0 <= k <= i ==> ws[k].handle == es[k].handle && ws[k].idx == es[k].idx
    ensures FindHandle(ws, ws[i].handle) < |ws| && ws[FindHandle(ws, ws[i].handle)].idx == LookedUp(es, i)
  {
    var j, k := FindHandle(ws, ws[i].handle), FindHandle(es, es[i].handle);
    assert j <= i && k <= i;
    assert j == k;
  }

  /** A matching entry goes, its release done if it was marked. */
  lemma WalkedNext(es: seq<Entry>, pool: nat, usage: nat, typ: nat, i: nat)
    requires i < |es| && Matches(es[i], pool, usage, typ)
    ensures var ws := Walked(es, pool, usage, typ, i + 1);
      var ws' := if ReleasesAt(es, pool, usage, typ, i) then Clear(ws, Cleared(es, pool, usage, typ, i)) else ws;
      i < |ws'| && Walked(es, pool, usage, typ, i) == ws'[..i] + ws'[i + 1..]
  {
    var later := Unmarked(es, pool, usage, typ, i + 1);
    var now := Unmarked(es, pool, usage, typ, i);
    var key := Cleared(es, pool, usage, typ, i);
    UnmarkedSame(es, pool, usage, typ, i, i);
    OthersCons(now, i, pool, usage, typ);
    if ReleasesAt(es, pool, usage, typ, i) { ClearedWalk(later, key, pool, usage, typ, i + 1); }
    Taken(now, i, Others(now[i + 1..], pool, usage, typ));
  }

  lemma Taken(es: seq<Entry>, i: nat, rest: seq<Entry>)
    requires i < |es|
    ensures var ws := es[..i + 1] + rest; es[..i] + rest == ws[..i] + ws[i + 1..]
  {
  }

  lemma ClearedWalk(es: seq<Entry>, key: nat, pool: nat, usage: nat, typ: nat, n: nat)
    requires n <= |es|
    ensures Clear(es[..n] + Others(es[n..], pool, usage, typ), key) ==
            Clear(es, key)[..n] + Others(Clear(es, key)[n..], pool, usage, typ)
  {
    OthersOfClear(es[n..], key, pool, usage, typ);
    assert Clear(es, key)[n..] == Clear(es[n..], key);
    var rest := Others(es[n..], pool, usage, typ);
    assert Clear(es[..n] + rest, key) == Clear(es, key)[..n] + Clear(rest, key);
  }

  /** Another entry stays. */
  lemma WalkedOn(es: seq<Entry>, pool: nat, usage: nat, typ: nat, i: nat)
    requires i < |es| && !Matches(es[i], pool, usage, typ)
    ensures Walked(es, pool, usage, typ, i) == Walked(es, pool, usage, typ, i + 1)
  {
    var now := Unmarked(es, pool, usage, typ, i);
    UnmarkedSame(es, pool, usage, typ, i, i);
    OthersCons(now, i, pool, usage, typ);
    assert now[..i + 1] == now[..i] + [now[i]];
    Assoc(now[..i], [now[i]], Others(now[i + 1..], pool, usage, typ));
  }

  // -------------------------------------------------------------------------
  // Whose marks a disconnect keeps
  // -------------------------------------------------------------------------

  /** The release of entry `m` clears the key of entry `k`. */
  predicate Strikes(es: seq<Entry>, pool: nat, usage: nat, typ: nat, m: nat, k: nat)
    requires m < |es| && k < |es|
  {
    ReleasesAt(es, pool, usage, typ, m) && es[k].key == Cleared(es, pool, usage, typ, m)
  }

  ghost predicate Struck(es: seq<Entry>, pool: nat, usage: nat, typ: nat, n: nat, k: nat)
    requires k < |es|
  {
    exists m :: n <= m < |es| && Strikes(es, pool, usage, typ, m, k)
  }

  lemma {:induction false} UnmarkedIff(es: seq<Entry>, pool: nat, usage: nat, typ: nat, n: nat, k: nat)
    requires n <= |es| && k < |es|
    ensures Unmarked(es, pool, usage, typ, n)[k] ==
            es[k].(acquired := es[k].acquired && !Struck(es, pool, usage, typ, n, k))
    decreases |es| - n
  {
    if n < |es| {
      UnmarkedIff(es, pool, usage, typ, n + 1, k);
      assert Struck(es, pool, usage, typ, n, k) <==>
             Strikes(es, pool, usage, typ, n, k) || Struck(es, pool, usage, typ, n + 1, k);
    }
  }

  /** A disconnect leaves the other entries exactly as they were if and only if none of its releases
      clears the key of a marked entry that does not match. */
  lemma OthersKeptIff(es: seq<Entry>, pool: nat, usage: nat, typ: nat)
    ensures Others(Unmarked(es, pool, usage, typ, 0), pool, usage, typ) == Others(es, pool, usage, typ) <==>
            forall m, k :: 0 <= m < |es| && 0 <= k < |es| && Strikes(es, pool, usage, typ, m, k) ==>
              Matches(es[k], pool, usage, typ) || !es[k].acquired
  {
    var es' := Unmarked(es, pool, usage, typ, 0);
    forall k | 0 <= k < |es|
      ensures es'[k] == es[k].(acquired := es[k].acquired && !Struck(es, pool, usage, typ, 0, k))
    {
      UnmarkedIff(es, pool, usage, typ, 0, k);
    }
    KeepEqualIff((e: Entry) => !Matches(e, pool, usage, typ), es', es);
    if k :| 0 <= k < |es| && !Matches(es[k], pool, usage, typ) && es'[k] != es[k] {
      var m :| 0 <= m < |es| && Strikes(es, pool, usage, typ, m, k);
    }
    if m, k :| 0 <= m < |es| && 0 <= k < |es| && Strikes(es, pool, usage, typ, m, k) &&
               !Matches(es[k], pool, usage, typ) && es[k].acquired {
      assert Struck(es, pool, usage, typ, 0, k) && es'[k] != es[k];
    }
  }

  /** With distinct buffers a release is the entry's own, and with indices in range it is at least
      that of a matching entry; either way the others keep their marks. */
  lemma OthersKept(es: seq<Entry>, pool: nat, usage: nat, typ: nat)
    requires Keyed(es) && (DistinctHandles(es) || (Ranged(es) && Packs(pool, usage, typ, 0)))
    ensures Others(Unmarked(es, pool, usage, typ, 0), pool, usage, typ) == Others(es, pool, usage, typ)
  {
    forall m, k | 0 <= m < |es| && 0 <= k < |es| && Strikes(es, pool, usage, typ, m, k)
      ensures Matches(es[k], pool, usage, typ)
    {
      StrikesMatching(es, pool, usage, typ, m, k);
    }
    OthersKeptIff(es, pool, usage, typ);
  }

  lemma StrikesMatching(es: seq<Entry>, pool: nat, usage: nat, typ: nat, m: nat, k: nat)
    requires Keyed(es) && (DistinctHandles(es) || (Ranged(es) && Packs(pool, usage, typ, 0)))
    requires m < |es| && k < |es| && Strikes(es, pool, usage, typ, m, k)
    ensures Matches(es[k], pool, usage, typ) && (DistinctHandles(es) ==> k == m)
  {
    assert OwnKey(es[k]) && OwnKey(es[m]);
    if DistinctHandles(es) {
      OwnLookUp(es, m);
    } else {
      var j := FindHandle(es, es[m].handle);
      SlotKeyInjective(pool, usage, typ, es[j].idx, es[k].pool, es[k].usage, es[k].typ, es[k].idx);
    }
  }

  lemma OwnLookUp(es: seq<Entry>, m: nat)
    requires DistinctHandles(es) && m < |es|
    ensures LookedUp(es, m) == es[m].idx
  {
    assert FindHandle(es, es[m].handle) == m;
  }

  /** With distinct buffers the service sees one release per marked match. */
  lemma {:induction false} OwnReleases(es: seq<Entry>, pool: nat, usage: nat, typ: nat, n: nat)
    requires Keyed(es) && DistinctHandles(es) && n <= |es|
    ensures ReleaseCalls(es, pool, usage, typ, n) == Releases(es[n..], pool, usage, typ)
    decreases |es| - n
  {
    if n < |es| {
      OwnReleases(es, pool, usage, typ, n + 1);
      assert es[n..][1..] == es[n + 1..] && es[n..][0] == es[n];
      OwnLookUp(es, n);
      UnmarkedIff(es, pool, usage, typ, n + 1, n);
      if m :| n < m < |es| && Strikes(es, pool, usage, typ, m, n) {
        StrikesMatching(es, pool, usage, typ, m, n);
      }
    }
  }

  /** An entry listed twice, first with an index whose key is that of another entry: the disconnect
      clears the other entry's mark. */
  lemma ListedTwice(first: Entry, twice: Entry, other: Entry, pool: nat, usage: nat, typ: nat)
    requires first.handle == twice.handle && Matches(twice, pool, usage, typ) && twice.acquired
    requires !Matches(other, pool, usage, typ) && other.acquired && other.key == SlotKey(pool, usage, typ, first.idx)
    ensures var es := [first, twice, other];
      Others(Unmarked(es, pool, usage, typ, 0), pool, usage, typ) != Others(es, pool, usage, typ)
  {
    var es := [first, twice, other];
    assert FindHandle(es, twice.handle) == 0 && LookedUp(es, 1) == first.idx;
    assert !ReleasesAt(es, pool, usage, typ, 2);
    assert Unmarked(es, pool, usage, typ, 2) == es;
    assert Strikes(es, pool, usage, typ, 1, 2);
    OthersKeptIff(es, pool, usage, typ);
  }

  lemma KeyedThree(a: Entry, b: Entry, c: Entry)
    requires OwnKey(a) && OwnKey(b) && OwnKey(c) && a.key < b.key < c.key
    ensures Keyed([a, b, c])
  {
  }

  /** Such a list in key order: index 8 of the primary display has the key of index 0 of the external
      one. */
  lemma OtherLosesMark() returns (es: seq<Entry>)
    ensures Keyed(es) && Others(Unmarked(es, 1, HWC, 0, 0), 1, HWC, 0) != Others(es, 1, HWC, 0)
  {
    SlotKeyCollides(0, HWC, 0);
    SlotKeyCollides(1, HWC, 0);
    SlotKeyIsSum(0, HWC, 1, 0);
    SlotKeyIsSum(1, HWC, 0, 0);
    SlotKeyIsSum(1, HWC, 1, 0);
    var first := Entry(SlotKey(0, HWC, 0, 8), 0, HWC, 0, 8, 5, false);
    var twice := Entry(SlotKey(1, HWC, 0, 0), 1, HWC, 0, 0, 5, true);
    var other := Entry(SlotKey(1, HWC, 1, 0), 1, HWC, 1, 0, 6, true);
    es := [first, twice, other];
    KeyedThree(first, twice, other);
    ListedTwice(first, twice, other, 1, HWC, 0);
  }
}
