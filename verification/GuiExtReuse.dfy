/** Pool ids are reused, and the client's entries outlive the pools they came from: which pool the
    buffer belongs to that a granted acquire returns. */
module GuiExtReuse {
  import opened GuiExtItemSpec
  import opened GuiExtPoolSpec
  import opened GuiExtPoolRuns
  import opened GuiExtClient
  import opened GuiExtHeld
  import opened GuiExtJoint

  /** The step allocates a pool under this id. */
  predicate Allocates(s: State, step: Step, pool: nat) {
    step.Other? && step.e.Alloc? && |s.svc.pools| < MAX_ALLOC_SIZE && NextId(s.svc) == pool
  }

  /** For each step of the run, whether it allocates a pool under this id. */
  function Allocations(steps: seq<Step>, pool: nat): seq<bool> {
    seq(|steps|, k requires 0 <= k < |steps| => Allocates(GuiExtJoint.Exec(steps[..k]), steps[k], pool))
  }

  /** A step from `j` on allocates a pool under this id. */
  ghost predicate Reallocated(steps: seq<Step>, pool: nat, j: nat) {
    exists k :: j <= k < |steps| && Allocations(steps, pool)[k]
  }

  /** A pool with this id is listed after the run. */
  ghost predicate Listed(steps: seq<Step>, pool: nat) {
    pool in Ids(GuiExtJoint.Exec(steps).svc.pools)
  }

  /** The same before each step, and at the end. */
  ghost function Listing(steps: seq<Step>, pool: nat): seq<bool> {
    seq(|steps| + 1, k requires 0 <= k <= |steps| => Listed(steps[..k], pool))
  }

  /** From step `j` to the end of the run the id is listed without a break: it is one and the same
      pool that is listed under it. */
  ghost predicate ListedSince(steps: seq<Step>, pool: nat, j: nat) {
    forall k :: j <= k <= |steps| ==> Listing(steps, pool)[k]
  }

  /** The step requests a buffer from the service and stores it under the key. */
  predicate Stores(s: State, step: Step, key: nat) {
    && step.Take? && step.usage < USAGE_MAX && step.typ <= HWC_DISPLAY_VIRTUAL && step.requested
    && Grants(s.svc, step.pool, step.usage, step.typ, step.pick)
    && key == SlotKey(step.pool, step.usage, step.typ, step.pick) && FindKey(s.es, key) == |s.es|
  }

  function Storings(steps: seq<Step>, key: nat): seq<bool> {
    seq(|steps|, k requires 0 <= k < |steps| => Stores(GuiExtJoint.Exec(steps[..k]), steps[k], key))
  }

  /** Position `j` is the last that is set. */
  ghost predicate LastAt(flags: seq<bool>, j: nat) {
    j < |flags| && flags[j] && forall k :: j < k < |flags| ==> !flags[k]
  }

  lemma LastLonger(before: seq<bool>, flags: seq<bool>, j: nat)
    requires LastAt(before, j) && before <= flags && forall k :: |before| <= k < |flags| ==> !flags[k]
    ensures LastAt(flags, j)
  {
    assert forall k :: 0 <= k < |before| ==> flags[k] == before[k];
  }

  lemma {:induction false} FindLast(flags: seq<bool>, n: nat, k: nat) returns (j: nat)
    requires k < n <= |flags| && flags[k] && forall i :: n <= i < |flags| ==> !flags[i]
    ensures LastAt(flags, j)
  {
    if flags[n - 1] {
      j := n - 1;
    } else {
      j := FindLast(flags, n - 1, k);
    }
  }

  /** The buffer under the key was stored in step `j` and not since. */
  ghost predicate StoredAt(steps: seq<Step>, key: nat, j: nat) {
    LastAt(Storings(steps, key), j)
  }

  // -------------------------------------------------------------------------
  // What every run keeps, with any numbers
  // -------------------------------------------------------------------------

  /** The others' pools and deaths are those of binders. */
  ghost predicate AllReal(steps: seq<Step>) {
    forall k :: 0 <= k < |steps| && steps[k].Other? ==> Real(steps[k].e)
  }

  /** A step changes nothing at the service, or is one event there. */
  lemma StepIsEvent(s: State, step: Step) returns (e: Event)
    requires step.Other? ==> Real(step.e)
    ensures Real(e) && (e.Alloc? ==> step == Other(e))
    ensures GuiExtJoint.Apply(s, step).svc == s.svc || GuiExtJoint.Apply(s, step).svc == GuiExtPoolSpec.Apply(s.svc, e)
  {
    match step
    case Take(pool, usage, typ, pick, _, _) => e := GuiExtPoolSpec.Acquire(pool, ME, usage, typ, pick);
    case Give(handle, pool, usage, typ) => e := GiveEvent(s, handle, pool, usage, typ);
    case Drop(key) =>
      var i := FindKey(s.es, key);
      if i < |s.es| {
        var x := s.es[i];
        e := GiveEvent(s, x.handle, x.pool, x.usage, x.typ);
      } else {
        e := Free(0);
      }
    case Leave(pool, usage) => e := GuiExtPoolSpec.Disconnect(pool, usage);
    case Other(f) => e := f;
  }

  lemma GiveEvent(s: State, handle: nat, pool: nat, usage: nat, typ: nat) returns (e: Event)
    ensures e.Release?
    ensures var svc := DoGive(s, handle, pool, usage, typ).svc; svc == s.svc || svc == GuiExtPoolSpec.Apply(s.svc, e)
  {
    var i := FindHandle(s.es, handle);
    e := GuiExtPoolSpec.Release(pool, usage, typ, if i < |s.es| then s.es[i].idx else 0);
  }

  lemma StepKeepsKeyed(s: State, step: Step)
    requires Keyed(s.es)
    ensures Keyed(GuiExtJoint.Apply(s, step).es)
  {
    match step
    case Take(pool, usage, typ, pick, requested, handle) =>
      PutKeepsKeyed(s.es, Entry(SlotKey(pool, usage, typ, pick), pool, usage, typ, pick, handle, true));
      MarkedStays(s.es, FindBackup(s.es, pool, usage, typ), true);
    case Give(handle, pool, usage, typ) => GiveKeepsKeyed(s, handle, pool, usage, typ);
    case Drop(key) =>
      if FindKey(s.es, key) < |s.es| { DropKeepsKeyed(s, FindKey(s.es, key)); }
    case Leave(_, _) =>
    case Other(_) =>
  }

  lemma GiveKeepsKeyed(s: State, handle: nat, pool: nat, usage: nat, typ: nat)
    requires Keyed(s.es)
    ensures Keyed(DoGive(s, handle, pool, usage, typ).es)
  {
    var i := FindHandle(s.es, handle);
    if i < |s.es| { MarkedStays(s.es, FindKey(s.es, SlotKey(pool, usage, typ, s.es[i].idx)), false); }
  }

  lemma DropKeepsKeyed(s: State, i: nat)
    requires Keyed(s.es) && i < |s.es|
    ensures Keyed(DoDrop(s, i).es)
  {
    var x := s.es[i];
    GiveKeepsKeyed(s, x.handle, x.pool, x.usage, x.typ);
    var es := if x.acquired then DoGive(s, x.handle, x.pool, x.usage, x.typ).es else s.es;
    RemovedStays(es, FindKey(es, es[i].key), i);
  }

  lemma {:induction false} RunsKeepKeyed(steps: seq<Step>)
    ensures Keyed(GuiExtJoint.Exec(steps).es)
  {
    if steps != [] {
      RunsKeepKeyed(steps[..|steps| - 1]);
      StepKeepsKeyed(GuiExtJoint.Exec(steps[..|steps| - 1]), steps[|steps| - 1]);
    }
  }

  lemma {:induction false} RunsKeepList(steps: seq<Step>)
    requires AllReal(steps)
    ensures ListInv(GuiExtJoint.Exec(steps).svc)
  {
    if steps != [] {
      var n := |steps| - 1;
      RunsKeepList(steps[..n]);
      var e := StepIsEvent(GuiExtJoint.Exec(steps[..n]), steps[n]);
      StepKeepsListInv(GuiExtJoint.Exec(steps[..n]).svc, e);
    }
  }

  // -------------------------------------------------------------------------
  // Which pool is listed under an id
  // -------------------------------------------------------------------------

  lemma IdsAre(ps: seq<Item>, id: nat)
    ensures id in Ids(ps) <==> exists i :: 0 <= i < |ps| && ps[i].id == id
  {
    if i :| 0 <= i < |ps| && ps[i].id == id { assert ps[i] in ps; }
  }

  /** No event but an alloc lists an id. */
  lemma ListsNothing(svc: Service, e: Event, id: nat)
    requires ListInv(svc) && Real(e) && !e.Alloc? && id in Ids(GuiExtPoolSpec.Apply(svc, e).pools)
    ensures id in Ids(svc.pools)
  {
    var ps' := GuiExtPoolSpec.Apply(svc, e).pools;
    IdsAre(ps', id);
    var n' :| 0 <= n' < |ps'| && ps'[n'].id == id;
    var n := Kept(svc, e, n');
    IdsAre(svc.pools, id);
  }

  lemma Kept(svc: Service, e: Event, n': nat) returns (n: nat)
    requires ListInv(svc) && Real(e) && !e.Alloc? && n' < |GuiExtPoolSpec.Apply(svc, e).pools|
    ensures n < |svc.pools| && svc.pools[n].id == GuiExtPoolSpec.Apply(svc, e).pools[n'].id
  {
    n := Stems(svc, e, n');
  }

  /** An alloc lists exactly one more id, the next one, which was not listed. */
  lemma AllocLists(svc: Service, token: nat, hwc: bool, id: nat)
    requires |svc.pools| < MAX_ALLOC_SIZE
    ensures id in Ids(DoAlloc(svc, token, hwc).pools) <==> id in Ids(svc.pools) || id == NextId(svc)
    ensures NextId(svc) !in Ids(svc.pools)
  {
    NextIdIsFree(svc);
    var p := NewItem(NextId(svc), token, hwc, DoAlloc(svc, token, hwc).displays);
    InsertMembers(svc.pools, p);
    var ps, ps' := svc.pools, DoAlloc(svc, token, hwc).pools;
    assert p in ps' && p.id == NextId(svc);
    assert forall q :: q in ps ==> q in ps';
  }

  /** A step lists an id that was not listed exactly if it allocates it, and never allocates one
      that was. */
  lemma ListsIff(s: State, step: Step, pool: nat)
    requires ListInv(s.svc) && (step.Other? ==> Real(step.e))
    ensures Allocates(s, step, pool) <==>
            pool !in Ids(s.svc.pools) && pool in Ids(GuiExtJoint.Apply(s, step).svc.pools)
  {
    var e := StepIsEvent(s, step);
    if step.Other? && step.e.Alloc? {
      if |s.svc.pools| < MAX_ALLOC_SIZE { AllocLists(s.svc, step.e.token, step.e.hwc, pool); }
    } else if pool in Ids(GuiExtPoolSpec.Apply(s.svc, e).pools) {
      ListsNothing(s.svc, e, pool);
    }
  }

  lemma ListsAtIff(steps: seq<Step>, pool: nat, k: nat)
    requires AllReal(steps) && k < |steps|
    ensures Allocations(steps, pool)[k] <==> !Listing(steps, pool)[k] && Listing(steps, pool)[k + 1]
  {
    RunsKeepList(steps[..k]);
    ListsIff(GuiExtJoint.Exec(steps[..k]), steps[k], pool);
    assert steps[..k + 1][..k] == steps[..k] && steps[..k + 1][k] == steps[k];
  }

  /** If `rises` tells where `up` rises, and `up` holds at `n`, then it has held from `j` on exactly
      if it has not risen from there on. */
  lemma {:induction false} StaysUpIff(up: seq<bool>, rises: seq<bool>, j: nat, n: nat)
    requires |up| == |rises| + 1 && j <= n <= |rises| && up[n]
    requires forall k :: 0 <= k < |rises| ==> (rises[k] <==> !up[k] && up[k + 1])
    ensures (forall k :: j <= k <= n ==> up[k]) <==> !exists k :: j <= k < n && rises[k]
  {
    if j < n && !rises[n - 1] {
      assert up[n - 1];
      StaysUpIff(up, rises, j, n - 1);
    }
  }

  /** The pool listed under an id now is the one that was listed in step `j` if and only if no pool
      has been allocated under the id since. */
  lemma SamePoolIff(steps: seq<Step>, pool: nat, j: nat)
    requires AllReal(steps) && j <= |steps| && Listed(steps, pool)
    ensures ListedSince(steps, pool, j) <==> !Reallocated(steps, pool, j)
  {
    var up, rises := Listing(steps, pool), Allocations(steps, pool);
    assert steps[..|steps|] == steps;
    forall k | 0 <= k < |steps| ensures rises[k] <==> !up[k] && up[k + 1] {
      ListsAtIff(steps, pool, k);
    }
    StaysUpIff(up, rises, j, |steps|);
  }

  // -------------------------------------------------------------------------
  // The entry keeps the buffer it was stored with
  // -------------------------------------------------------------------------

  /** Entries under the key have this handle. */
  ghost predicate Holding(es: seq<Entry>, key: nat, handle: nat) {
    forall x :: x in es && x.key == key ==> x.handle == handle
  }

  lemma AbsentKey(es: seq<Entry>, key: nat)
    ensures FindKey(es, key) == |es| <==> forall x :: x in es ==> x.key != key
  {
    var i := FindKey(es, key);
    if i < |es| { assert es[i] in es; }
  }

  lemma StepKeepsHolding(s: State, step: Step, key: nat, handle: nat)
    requires Keyed(s.es) && Holding(s.es, key, handle) && !Stores(s, step, key)
    ensures Holding(GuiExtJoint.Apply(s, step).es, key, handle)
  {
    var es' := GuiExtJoint.Apply(s, step).es;
    forall x | x in es' && x.key == key ensures x.handle == handle {
      var y := OldEntry(s, step, x);
    }
  }

  /** An entry that a step does not store was there before, its mark aside. */
  lemma OldEntry(s: State, step: Step, x: Entry) returns (y: Entry)
    requires Keyed(s.es) && x in GuiExtJoint.Apply(s, step).es && !Stores(s, step, x.key)
    ensures y in s.es && y.key == x.key && y.handle == x.handle
  {
    match step
    case Take(pool, usage, typ, pick, requested, handle) =>
      if usage < USAGE_MAX && typ <= HWC_DISPLAY_VIRTUAL {
        y := OldAfterTake(s, pool, usage, typ, pick, requested, handle, x);
      } else {
        y := x;
      }
    case Give(handle, pool, usage, typ) =>
      if usage < USAGE_MAX && typ <= HWC_DISPLAY_VIRTUAL {
        y := OldAfterGive(s, handle, pool, usage, typ, x);
      } else {
        y := x;
      }
    case Drop(key) =>
      var i := FindKey(s.es, key);
      if i < |s.es| {
        var d := s.es[i];
        if d.acquired {
          y := OldAfterGive(s, d.handle, d.pool, d.usage, d.typ, x);
        } else {
          y := x;
        }
      } else {
        y := x;
      }
    case Leave(_, _) => y := x;
    case Other(_) => y := x;
  }

  lemma OldAfterGive(s: State, handle: nat, pool: nat, usage: nat, typ: nat, x: Entry) returns (y: Entry)
    requires Keyed(s.es) && x in DoGive(s, handle, pool, usage, typ).es
    ensures y in s.es && y.key == x.key && y.handle == x.handle
  {
    var i := FindHandle(s.es, handle);
    if i < |s.es| {
      y := OldMarked(s.es, FindKey(s.es, SlotKey(pool, usage, typ, s.es[i].idx)), false, x);
    } else {
      y := x;
    }
  }

  lemma OldMarked(es: seq<Entry>, i: nat, mark: bool, x: Entry) returns (y: Entry)
    requires x in Marked(es, i, mark)
    ensures y in es && y.key == x.key && y.handle == x.handle
  {
    var j :| 0 <= j < |es| && Marked(es, i, mark)[j] == x;
    y := es[j];
  }

  lemma OldAfterTake(s: State, pool: nat, usage: nat, typ: nat, pick: nat, requested: bool, handle: nat, x: Entry)
    returns (y: Entry)
    requires Keyed(s.es) && x in DoTake(s, pool, usage, typ, pick, requested, handle).es
    requires usage < USAGE_MAX && typ <= HWC_DISPLAY_VIRTUAL
    requires !Stores(s, Take(pool, usage, typ, pick, requested, handle), x.key)
    ensures y in s.es && y.key == x.key && y.handle == x.handle
  {
    var key := SlotKey(pool, usage, typ, pick);
    if !Grants(s.svc, pool, usage, typ, pick) {
      y := OldMarked(s.es, FindBackup(s.es, pool, usage, typ), true, x);
    } else {
      var e := Entry(key, pool, usage, typ, pick, handle, true);
      var i := FindKey(s.es, key);
      if i < |s.es| { PutPresent(s.es, e, i); } else { PutMembers(s.es, e, x); }
      y := x;
    }
  }

  lemma StoringsOfPrefix(steps: seq<Step>, key: nat, n: nat)
    requires n <= |steps|
    ensures Storings(steps[..n], key) == Storings(steps, key)[..n]
  {
    forall k | 0 <= k < n ensures Storings(steps[..n], key)[k] == Storings(steps, key)[k] {
      assert steps[..n][..k] == steps[..k];
    }
  }

  /** From its storing on, an entry under the key has the buffer of that step. */
  lemma {:induction false} KeepsBuffer(steps: seq<Step>, key: nat, j: nat)
    requires StoredAt(steps, key, j)
    ensures Holding(GuiExtJoint.Exec(steps).es, key, steps[j].handle)
  {
    var n := |steps| - 1;
    if j == n {
      HoldingFirst(steps, key);
    } else {
      StoringsOfPrefix(steps, key, n);
      KeepsBuffer(steps[..n], key, j);
      HoldingNext(steps, key, steps[j].handle);
    }
  }

  lemma {:induction false} HoldingFirst(steps: seq<Step>, key: nat)
    requires steps != [] && Storings(steps, key)[|steps| - 1]
    ensures Holding(GuiExtJoint.Exec(steps).es, key, steps[|steps| - 1].handle)
  {
    var n := |steps| - 1;
    StoreHolds(GuiExtJoint.Exec(steps[..n]), steps[n], key);
  }

  lemma {:induction false} HoldingNext(steps: seq<Step>, key: nat, handle: nat)
    requires steps != [] && !Storings(steps, key)[|steps| - 1]
    requires Holding(GuiExtJoint.Exec(steps[..|steps| - 1]).es, key, handle)
    ensures Holding(GuiExtJoint.Exec(steps).es, key, handle)
  {
    var n := |steps| - 1;
    RunsKeepKeyed(steps[..n]);
    StepKeepsHolding(GuiExtJoint.Exec(steps[..n]), steps[n], key, handle);
  }

  lemma StoreHolds(s: State, step: Step, key: nat)
    requires Stores(s, step, key)
    ensures Holding(GuiExtJoint.Apply(s, step).es, key, step.handle)
  {
    AbsentKey(s.es, key);
    var e := Entry(key, step.pool, step.usage, step.typ, step.pick, step.handle, true);
    forall x | x in Put(s.es, e) && x.key == key ensures x.handle == step.handle {
      PutMembers(s.es, e, x);
    }
  }

  /** There is an entry under the key. */
  ghost predicate Cached(steps: seq<Step>, key: nat) {
    exists x :: x in GuiExtJoint.Exec(steps).es && x.key == key
  }

  /** Every entry was stored in some step. */
  lemma WasStored(steps: seq<Step>, key: nat) returns (j: nat)
    requires Cached(steps, key)
    ensures StoredAt(steps, key, j)
  {
    assert steps[..|steps|] == steps;
    var k := StoredOnce(steps, key, |steps|);
    j := FindLast(Storings(steps, key), |steps|, k);
  }

  lemma {:induction false} StoredOnce(steps: seq<Step>, key: nat, n: nat) returns (k: nat)
    requires n <= |steps| && Cached(steps[..n], key)
    ensures k < n && Storings(steps, key)[k]
  {
    WasBefore(steps, key, n);
    if Storings(steps, key)[n - 1] {
      k := n - 1;
    } else {
      k := StoredOnce(steps, key, n - 1);
    }
  }

  lemma {:induction false} WasBefore(steps: seq<Step>, key: nat, n: nat)
    requires n <= |steps| && Cached(steps[..n], key)
    ensures n > 0 && (Storings(steps, key)[n - 1] || Cached(steps[..n - 1], key))
  {
    var x :| x in GuiExtJoint.Exec(steps[..n]).es && x.key == key;
    assert n > 0;
    assert steps[..n][..n - 1] == steps[..n - 1];
    if !Storings(steps, key)[n - 1] {
      RunsKeepKeyed(steps[..n - 1]);
      var y := OldEntry(GuiExtJoint.Exec(steps[..n - 1]), steps[n - 1], x);
    }
  }

  lemma GrantsIsListed(svc: Service, pool: nat, usage: nat, typ: nat, pick: nat)
    requires Grants(svc, pool, usage, typ, pick)
    ensures pool in Ids(svc.pools)
  {
    assert svc.pools[Find(svc.pools, pool)] in svc.pools;
  }

  /** In every run, when an acquire is granted and its buffer is cached: the buffer returned is the
      one that step `j` stored, then requested from the pool listed. It belongs to the pool that
      grants the acquire, that is, step `j` asked under the same id and the id has been listed
      without a break since, if and only if no pool has been allocated under that id since. */
  lemma CachedBufferIsListedIff(steps: seq<Step>, pool: nat, usage: nat, typ: nat, pick: nat) returns (j: nat)
    requires AllReal(steps) && Grants(GuiExtJoint.Exec(steps).svc, pool, usage, typ, pick)
    requires FindKey(GuiExtJoint.Exec(steps).es, SlotKey(pool, usage, typ, pick)) < |GuiExtJoint.Exec(steps).es|
    ensures var key, es := SlotKey(pool, usage, typ, pick), GuiExtJoint.Exec(steps).es;
      StoredAt(steps, key, j) && es[FindKey(es, key)].handle == steps[j].handle
    ensures Listed(steps[..j], steps[j].pool)
    ensures steps[j].pool == pool && ListedSince(steps, pool, j) <==>
            steps[j].pool == pool && !Reallocated(steps, pool, j)
  {
    var key, es := SlotKey(pool, usage, typ, pick), GuiExtJoint.Exec(steps).es;
    var x := es[FindKey(es, key)];
    assert Cached(steps, key) by { assert x in es; }
    j := WasStored(steps, key);
    KeepsBuffer(steps, key, j);
    GrantsIsListed(GuiExtJoint.Exec(steps).svc, pool, usage, typ, pick);
    GrantsIsListed(GuiExtJoint.Exec(steps[..j]).svc, steps[j].pool, steps[j].usage, steps[j].typ, steps[j].pick);
    SamePoolIff(steps, pool, j);
  }

  // -------------------------------------------------------------------------
  // A run that returns a buffer of a removed pool
  // -------------------------------------------------------------------------

  /** No pool is listed and `n` is the id given last. */
  ghost predicate Vacant(svc: Service, t: nat, n: nat) {
    svc.pools == [] && svc.lastId == n && svc.displays == OneBuffer(t)
  }

  /** The producer frees the pool and the composer disconnects: the pool is removed. */
  lemma Vacates(svc: Service, t: nat)
    requires Alone(svc, t, 0)
    ensures Vacant(GuiExtPoolSpec.Apply(GuiExtPoolSpec.Apply(svc, Free(1)), Disconnect(1, HWC)), t, 1)
  {
    var p, svc1 := svc.pools[0], GuiExtPoolSpec.Apply(svc, Free(1));
    OnlyPool(svc, p, Free(1));
    var p1 := p.(producer := 0);
    if IsWanted(p1) {
      OnlyPool(svc1, p1, Disconnect(1, HWC));
      assert Unwanted(Changed(p1, Disconnect(1, HWC)));
    } else {
      assert svc1.pools == [] && WithPools(svc1, []) == svc1;
    }
  }

  /** An allocation followed by a free moves on to the next id. */
  lemma MovesOn(svc: Service, t: nat, n: nat)
    requires Vacant(svc, t, n) && 1 <= n < MAX_ALLOC_SIZE
    ensures Vacant(GuiExtPoolSpec.Apply(GuiExtPoolSpec.Apply(svc, Alloc(2, true)), Free(n + 1)), t, n + 1)
  {
    NextAfter(svc, n);
    FirstPool(svc, t, n + 1);
    OnlyPool(DoAlloc(svc, 2, true), NewItem(n + 1, 2, true, OneBuffer(t)), Free(n + 1));
  }

  lemma NextAfter(svc: Service, n: nat)
    requires svc.pools == [] && svc.lastId == n && 1 <= n <= MAX_ALLOC_SIZE
    ensures NextId(svc) == if n == MAX_ALLOC_SIZE then 1 else n + 1
  {
    assert Ids([]) == {} && NextId(svc) == Cycle(n, 1);
  }

  lemma FirstPool(svc: Service, t: nat, id: nat)
    requires svc.pools == [] && svc.displays == OneBuffer(t) && NextId(svc) == id
    ensures var svc' := DoAlloc(svc, 2, true);
      svc'.pools == [NewItem(id, 2, true, OneBuffer(t))] && svc'.lastId == id && svc'.displays == OneBuffer(t)
  {
    assert svc.displays[PRIMARY := MAX_HWC_DEQUEUED_NUM] == OneBuffer(t);
  }

  lemma {:induction false} MovesRound(steps: seq<Step>, t: nat, n: nat) returns (steps': seq<Step>)
    requires AllInBounds(steps) && Vacant(GuiExtJoint.Exec(steps).svc, t, n) && 1 <= n <= MAX_ALLOC_SIZE
    ensures AllInBounds(steps') && Vacant(GuiExtJoint.Exec(steps').svc, t, MAX_ALLOC_SIZE)
    ensures steps <= steps' && (forall k :: |steps| <= k < |steps'| ==> steps'[k].Other?)
    ensures GuiExtJoint.Exec(steps').es == GuiExtJoint.Exec(steps).es
    decreases MAX_ALLOC_SIZE - n
  {
    steps' := steps;
    if n < MAX_ALLOC_SIZE {
      var one := MovesOnce(steps, t, n);
      steps' := MovesRound(one, t, n + 1);
    }
  }

  lemma MovesOnce(steps: seq<Step>, t: nat, n: nat) returns (steps': seq<Step>)
    requires AllInBounds(steps) && Vacant(GuiExtJoint.Exec(steps).svc, t, n) && 1 <= n < MAX_ALLOC_SIZE
    ensures AllInBounds(steps') && Vacant(GuiExtJoint.Exec(steps').svc, t, n + 1)
    ensures steps' == steps + [Other(Alloc(2, true)), Other(Free(n + 1))]
    ensures GuiExtJoint.Exec(steps').es == GuiExtJoint.Exec(steps).es
  {
    MovesOn(GuiExtJoint.Exec(steps).svc, t, n);
    steps' := Twice(steps, Other(Alloc(2, true)), Other(Free(n + 1)));
  }

  /** Step `j` is the last acquire of the client. */
  predicate LastTake(steps: seq<Step>, j: nat, t: nat) {
    && j < |steps| && steps[j] == Take(1, HWC, t, 0, true, 7)
    && forall k :: j < k < |steps| ==> !steps[k].Take?
  }

  lemma LastTakeStores(pre: seq<Step>, steps: seq<Step>, t: nat)
    requires LastTake(steps, |pre|, t) && pre <= steps && t < HWC_NUM_DISPLAY_TYPES
    requires GuiExtJoint.Exec(pre).es == [] && Alone(GuiExtJoint.Exec(pre).svc, t, 0)
    ensures StoredAt(steps, SlotKey(1, HWC, t, 0), |pre|)
  {
    assert steps[..|pre|] == pre;
    StoresFirst(GuiExtJoint.Exec(pre), t);
    NoTakeNoStore(steps, SlotKey(1, HWC, t, 0), |pre| + 1);
  }

  lemma StoresFirst(s: State, t: nat)
    requires t < HWC_NUM_DISPLAY_TYPES && s.es == [] && Alone(s.svc, t, 0)
    ensures Stores(s, Take(1, HWC, t, 0, true, 7), SlotKey(1, HWC, t, 0))
  {
    AloneAcquires(s.svc, t, ME);
  }

  lemma Twice(steps: seq<Step>, a: Step, b: Step) returns (steps': seq<Step>)
    requires AllInBounds(steps) && InBounds(a) && InBounds(b)
    ensures AllInBounds(steps') && steps' == steps + [a, b]
    ensures GuiExtJoint.Exec(steps') == GuiExtJoint.Apply(GuiExtJoint.Apply(GuiExtJoint.Exec(steps), a), b)
  {
    var mid := Next(steps, a);
    steps' := Next(mid, b);
  }

  lemma LeavesVacant(s: State, t: nat)
    requires Alone(s.svc, t, 0)
    ensures var s' := GuiExtJoint.Apply(GuiExtJoint.Apply(s, Other(Free(1))), Leave(1, HWC));
      s'.es == s.es && Vacant(s'.svc, t, 1)
  {
    Vacates(s.svc, t);
  }

  lemma LeftRun(first: seq<Step>, t: nat) returns (steps: seq<Step>)
    requires AllInBounds(first) && Alone(GuiExtJoint.Exec(first).svc, t, 0)
    ensures AllInBounds(steps) && steps == first + [Other(Free(1)), Leave(1, HWC)]
    ensures GuiExtJoint.Exec(steps).es == GuiExtJoint.Exec(first).es && Vacant(GuiExtJoint.Exec(steps).svc, t, 1)
  {
    LeavesVacant(GuiExtJoint.Exec(first), t);
    steps := Twice(first, Other(Free(1)), Leave(1, HWC));
  }

  /** After a run that ends with one free buffer: the pool is removed, and the ids go round. */
  lemma VacatedRun(first: seq<Step>, t: nat) returns (steps: seq<Step>)
    requires AllInBounds(first) && Alone(GuiExtJoint.Exec(first).svc, t, 0)
    ensures AllInBounds(steps) && first <= steps && forall k :: |first| <= k < |steps| ==> !steps[k].Take?
    ensures GuiExtJoint.Exec(steps).es == GuiExtJoint.Exec(first).es
    ensures Vacant(GuiExtJoint.Exec(steps).svc, t, MAX_ALLOC_SIZE)
  {
    var left := LeftRun(first, t);
    steps := MovesRound(left, t, 1);
  }

  /** The id of the vacant service's next pool is 1 again. */
  lemma ComesRound(s: State, t: nat)
    requires 0 < t < HWC_NUM_DISPLAY_TYPES && Vacant(s.svc, t, MAX_ALLOC_SIZE)
    ensures var s' := GuiExtJoint.Apply(s, Other(Alloc(2, true))); s'.es == s.es && Grants(s'.svc, 1, HWC, t, 0)
  {
    GrantsAgain(s.svc, t);
  }

  lemma GrantsAgain(svc: Service, t: nat)
    requires 0 < t < HWC_NUM_DISPLAY_TYPES && Vacant(svc, t, MAX_ALLOC_SIZE)
    ensures Grants(DoAlloc(svc, 2, true), 1, HWC, t, 0)
  {
    NextAfter(svc, MAX_ALLOC_SIZE);
    assert OneBuffer(t)[PRIMARY := MAX_HWC_DEQUEUED_NUM] == OneBuffer(t);
    NewAlone(svc, t);
    AloneAcquires(DoAlloc(svc, 2, true), t, ME);
  }

  /** A new pool gets the id. */
  lemma ReusedRun(first: seq<Step>, t: nat) returns (steps: seq<Step>)
    requires AllInBounds(first) && Alone(GuiExtJoint.Exec(first).svc, t, 0) && 0 < t < HWC_NUM_DISPLAY_TYPES
    ensures AllInBounds(steps) && first <= steps && forall k :: |first| <= k < |steps| ==> !steps[k].Take?
    ensures GuiExtJoint.Exec(steps).es == GuiExtJoint.Exec(first).es
    ensures Grants(GuiExtJoint.Exec(steps).svc, 1, HWC, t, 0)
    ensures |first| < |steps| && !Listing(steps, 1)[|steps| - 1]
  {
    var vacated := VacatedRun(first, t);
    var s := GuiExtJoint.Exec(vacated);
    ComesRound(s, t);
    steps := Next(vacated, Other(Alloc(2, true)));
    assert steps[..|vacated|] == vacated;
  }

  /** The client stores its entry in the step after the set-up. */
  lemma TakenIsStored(t: nat)
    requires 0 < t < HWC_NUM_DISPLAY_TYPES
    ensures StoredAt(TakenSteps(t), SlotKey(1, HWC, t, 0), 2)
  {
    SetUp(t);
    LastTakeStores(SetUpSteps(t), TakenSteps(t), t);
  }

  lemma StoredLonger(first: seq<Step>, steps: seq<Step>, key: nat, j: nat)
    requires StoredAt(first, key, j) && first <= steps
    requires forall k :: |first| <= k < |steps| ==> !steps[k].Take?
    ensures StoredAt(steps, key, j) && j < |first| && steps[j] == first[j]
  {
    assert steps[..|first|] == first;
    StoringsOfPrefix(steps, key, |first|);
    NoTakeNoStore(steps, key, |first|);
    LastLonger(Storings(first, key), Storings(steps, key), j);
  }

  lemma NoTakeNoStore(steps: seq<Step>, key: nat, n: nat)
    requires forall k :: n <= k < |steps| ==> !steps[k].Take?
    ensures forall k :: n <= k < |steps| ==> !Storings(steps, key)[k]
  {
  }

  /** The client acquires a buffer and gives it back, the pool is removed, its id is given to a new
      pool, and the client acquires from that: it gets the buffer of the old one. After step `k`
      no pool was listed under the id. */
  lemma StaleBufferIsReturned(t: nat) returns (steps: seq<Step>, j: nat, k: nat)
    requires 0 < t < HWC_NUM_DISPLAY_TYPES
    ensures j < |steps| && steps[j] == Take(1, HWC, t, 0, true, 7)
    ensures AllInBounds(steps) && StoredAt(steps, SlotKey(1, HWC, t, 0), j)
    ensures FindKey(GuiExtJoint.Exec(steps).es, SlotKey(1, HWC, t, 0)) < |GuiExtJoint.Exec(steps).es|
    ensures Grants(GuiExtJoint.Exec(steps).svc, 1, HWC, t, 0)
    ensures j < k < |steps| && !Listing(steps, 1)[k]
  {
    j := 2;
    TakenIsStored(t);
    TakenAndGiven(t);
    assert TakenSteps(t)[2] == Take(1, HWC, t, 0, true, 7);
    steps := CachedRun(TakenSteps(t), SlotKey(1, HWC, t, 0), t);
    k := |steps| - 1;
    StoredStill(TakenSteps(t), steps, SlotKey(1, HWC, t, 0), j, Take(1, HWC, t, 0, true, 7));
  }

  lemma StoredStill(first: seq<Step>, steps: seq<Step>, key: nat, j: nat, step: Step)
    requires StoredAt(first, key, j) && first < steps && j < |first| && first[j] == step
    requires forall k :: |first| <= k < |steps| ==> !steps[k].Take?
    ensures StoredAt(steps, key, j) && j < |steps| - 1 && steps[j] == step
  {
    StoredLonger(first, steps, key, j);
  }

  lemma CachedRun(first: seq<Step>, key: nat, t: nat) returns (steps: seq<Step>)
    requires AllInBounds(first) && 0 < t < HWC_NUM_DISPLAY_TYPES && key == SlotKey(1, HWC, t, 0)
    requires GuiExtJoint.Exec(first).es == [Only(t, false)] && Alone(GuiExtJoint.Exec(first).svc, t, 0)
    ensures AllInBounds(steps) && first < steps && forall k :: |first| <= k < |steps| ==> !steps[k].Take?
    ensures FindKey(GuiExtJoint.Exec(steps).es, key) < |GuiExtJoint.Exec(steps).es|
    ensures Grants(GuiExtJoint.Exec(steps).svc, 1, HWC, t, 0) && !Listing(steps, 1)[|steps| - 1]
  {
    steps := ReusedRun(first, t);
    CachedUnder(GuiExtJoint.Exec(steps).es, t);
  }

  lemma CachedUnder(es: seq<Entry>, t: nat)
    requires es == [Only(t, false)]
    ensures FindKey(es, SlotKey(1, HWC, t, 0)) < |es|
  {
  }
}
