/** What every run of the GuiExt service keeps. */
module GuiExtPoolRuns {
  import opened GuiExtItemSpec
  import opened GuiExtPoolSpec
  import opened Collections

  ghost predicate Ascending(ps: seq<Item>) {
    && (forall i :: 0 <= i < |ps| ==> 1 <= ps[i].id <= MAX_ALLOC_SIZE)
    && (forall i, j :: 0 <= i < j < |ps| ==> ps[i].id < ps[j].id)
  }

  predicate IsWanted(p: Item) { !Unwanted(p) }

  ghost predicate AllWanted(ps: seq<Item>) { All(IsWanted, ps) }

  ghost predicate AllCoherent(ps: seq<Item>) { forall i :: 0 <= i < |ps| ==> Coherent(ps[i]) }

  ghost predicate AllOwnKeyed(ps: seq<Item>) { forall i :: 0 <= i < |ps| ==> OwnKeyed(ps[i]) }

  /** The reference count is the number of pools; the display is decoupled while there is one. */
  ghost predicate DeviceOk(s: Service) {
    s.refs == |s.pools| && s.decoupled == (s.pools != [])
  }

  /** What every run keeps. */
  ghost predicate ListInv(s: Service) {
    Ascending(s.pools) && AllWanted(s.pools) && AllOwnKeyed(s.pools) && DeviceOk(s)
  }

  /** What runs within the limits of the packed keys keep beside it. */
  ghost predicate Inv(s: Service) {
    ListInv(s) && AllCoherent(s.pools) && Fits(s.displays)
  }

  // -------------------------------------------------------------------------
  // Reference: change every pool, keep the wanted ones
  // -------------------------------------------------------------------------

  function Wanted(ps: seq<Item>): seq<Item> { Keep(IsWanted, ps) }

  function AllChanged(ps: seq<Item>, e: Event): seq<Item> {
    seq(|ps|, i requires 0 <= i < |ps| => Changed(ps[i], e))
  }

  /** Filtering keeps the order and leaves only wanted pools. */
  lemma {:induction false} WantedKeeps(ps: seq<Item>)
    requires Ascending(ps)
    ensures Ascending(Wanted(ps)) && AllWanted(Wanted(ps))
  {
    if ps != [] {
      var n := |ps| - 1;
      var rest := Wanted(ps[..n]);
      WantedKeeps(ps[..n]);
      forall k | 0 <= k < |rest| ensures rest[k].id < ps[n].id {
        KeepMembers(IsWanted, ps[..n], rest[k]);
      }
    }
  }

  lemma {:induction false} FindIs(ps: seq<Item>, i: nat)
    requires Ascending(ps) && i < |ps|
    ensures Find(ps, ps[i].id) == i
  {
    var j := Find(ps, ps[i].id);
    assert j <= i;
  }

  /** Removing by id the one pool that may be unwanted is filtering. */
  lemma {:induction false} RemoveIsFilter(ps: seq<Item>, i: nat)
    requires Ascending(ps) && i < |ps|
    requires forall j :: 0 <= j < |ps| && j != i ==> IsWanted(ps[j])
    ensures Find(ps, ps[i].id) == i && Remove(ps, ps[i].id) == Wanted(ps)
    ensures Wanted(ps) == ps[..i] + One(IsWanted, ps[i]) + ps[i + 1..]
  {
    FindIs(ps, i);
    KeepAround(IsWanted, ps, i);
    Around(ps, i);
  }

  /** The id an event is about; 0 for the others. */
  function Target(e: Event): nat {
    match e
    case Free(id) => id
    case Acquire(id, _, _, _, _) => id
    case Release(id, _, _, _) => id
    case Disconnect(id, _) => id
    case ConsumerDied(id, _) => id
    case _ => 0
  }

  predicate Targeted(e: Event) { !e.Alloc? && !e.ConfigDisplay? && !e.ProducerDied? }

  lemma {:induction false} UpdateIsPointwise(ps: seq<Item>, e: Event)
    requires Ascending(ps) && Targeted(e)
    ensures Update(ps, Target(e), e) == AllChanged(ps, e)
  {
    var i := Find(ps, Target(e));
    forall j | 0 <= j < |ps| && j != i ensures Changed(ps[j], e) == ps[j] {
      assert i < |ps| ==> ps[i].id != ps[j].id;
    }
  }

  lemma ChangedKeepsId(p: Item, e: Event)
    ensures Changed(p, e).id == p.id
  {
  }

  lemma ChangedKeepsCoherent(p: Item, e: Event)
    requires Coherent(p) && InRange(e)
    ensures Coherent(Changed(p, e))
  {
    match e
    case Acquire(id, token, usage, typ, pick) =>
      AcquireKeepsCoherent(p, token, usage, typ, pick);
    case Release(id, usage, typ, buf) =>
      if HasQueue(p, usage, typ) { ReleaseKeepsCoherent(p, usage, typ, buf); }
    case ConsumerDied(id, who) =>
      ConsumerDiedKeepsCoherent(p, who);
    case Free(_) => SameBuffers(p, Changed(p, e));
    case Disconnect(_, _) => SameBuffers(p, Changed(p, e));
    case ProducerDied(_) => SameBuffers(p, Changed(p, e));
    case _ =>
  }

  lemma SameBuffers(p: Item, p': Item)
    requires Coherent(p) && p' == p.(producer := p'.producer, connected := p'.connected)
    ensures Coherent(p')
  {
    forall k | k in p'.slots ensures Own(p', k) { assert Own(p, k); }
    forall t, i | t in p'.queues && 0 <= i < p'.queues[t].num ensures Accounted(p', t, i) {
      assert Accounted(p, t, i);
    }
  }

  function AllOrphaned(ps: seq<Item>, who: nat): seq<Item> {
    seq(|ps|, i requires 0 <= i < |ps| => Orphaned(ps[i], who))
  }

  /** One round of the producer's death callback. */
  lemma {:induction false} SweepOneIs(ps: seq<Item>, who: nat, i: nat)
    requires Ascending(ps) && AllWanted(ps) && i < |ps| && who != 0
    ensures SweepOne(ps, who, i) == ps[..i] + One(IsWanted, Orphaned(ps[i], who)) + ps[i + 1..]
    ensures Ascending(SweepOne(ps, who, i)) && AllWanted(SweepOne(ps, who, i))
  {
    if ps[i].producer == who {
      var ps1 := ps[i := Orphaned(ps[i], who)];
      RemoveIsFilter(ps1, i);
      WantedKeeps(ps1);
      assert ps1[..i] == ps[..i] && ps1[i + 1..] == ps[i + 1..];
    } else {
      assert ps == ps[..i] + [ps[i]] + ps[i + 1..];
    }
  }

  lemma Middle(ps: seq<Item>, i: nat, mid: seq<Item>)
    requires i < |ps|
    ensures var ps' := ps[..i] + mid + ps[i + 1..];
      ps'[..i] == ps[..i] && ps'[i..] == mid + ps[i + 1..]
  {
  }

  /** The downward loop with its removals filters the list. */
  lemma {:induction false} SweepIsFilter(ps: seq<Item>, who: nat, n: nat)
    requires Ascending(ps) && AllWanted(ps) && n <= |ps| && who != 0
    ensures SweepDown(ps, who, n) == Wanted(AllOrphaned(ps[..n], who)) + ps[n..]
    decreases n
  {
    if n > 0 {
      var i := n - 1;
      var p := Orphaned(ps[i], who);
      SweepOneIs(ps, who, i);
      SweepIsFilter(SweepOne(ps, who, i), who, i);
      Middle(ps, i, One(IsWanted, p));
      OrphanedSnoc(ps, who, n);
      Assoc(Wanted(AllOrphaned(ps[..i], who)), One(IsWanted, p), ps[n..]);
    } else {
      assert ps[0..] == ps && ps[..0] == [];
      assert [] + ps == ps;
    }
  }

  lemma {:induction false} OrphanedSnoc(ps: seq<Item>, who: nat, n: nat)
    requires 0 < n <= |ps|
    ensures Wanted(AllOrphaned(ps[..n], who)) ==
            Wanted(AllOrphaned(ps[..n - 1], who)) + One(IsWanted, Orphaned(ps[n - 1], who))
  {
    var p := Orphaned(ps[n - 1], who);
    assert AllOrphaned(ps[..n], who) == AllOrphaned(ps[..n - 1], who) + [p];
    KeepSnoc(IsWanted, AllOrphaned(ps[..n - 1], who), p);
  }

  /** Every call and every death but `alloc`: change each pool as the event says, keep those
      with a producer or a connected consumer, drop the others at once. */
  lemma {:induction false} StepIsPointwise(s: Service, e: Event)
    requires ListInv(s) && Real(e) && !e.Alloc?
    ensures Apply(s, e).pools == Wanted(AllChanged(s.pools, e))
  {
    if e.ProducerDied? {
      SweepIsPointwise(s.pools, e.who);
    } else if e.ConfigDisplay? {
      assert AllChanged(s.pools, e) == s.pools;
      KeepAll(IsWanted, s.pools);
    } else {
      TargetedIsPointwise(s, e);
    }
  }

  lemma {:induction false} SweepIsPointwise(ps: seq<Item>, who: nat)
    requires Ascending(ps) && AllWanted(ps) && who != 0
    ensures SweepDown(ps, who, |ps|) == Wanted(AllChanged(ps, ProducerDied(who)))
  {
    SweepIsFilter(ps, who, |ps|);
    assert ps[..|ps|] == ps && ps[|ps|..] == [];
    assert AllChanged(ps, ProducerDied(who)) == AllOrphaned(ps, who);
  }

  lemma {:induction false} TargetedIsPointwise(s: Service, e: Event)
    requires Ascending(s.pools) && AllWanted(s.pools) && Targeted(e)
    ensures Apply(s, e).pools == Wanted(AllChanged(s.pools, e))
  {
    UpdateIsPointwise(s.pools, e);
    UpdatedIsFiltered(s.pools, e);
    var i := Find(s.pools, Target(e));
    if i < |s.pools| && !e.Free? && !e.Disconnect? { ChangedStaysWanted(s.pools[i], e); }
  }

  lemma {:induction false} UpdatedIsFiltered(ps: seq<Item>, e: Event)
    requires Ascending(ps) && AllWanted(ps)
    ensures var ps', i := Update(ps, Target(e), e), Find(ps, Target(e));
      && Find(ps', Target(e)) == i && Remove(ps', Target(e)) == Wanted(ps')
      && (i == |ps| || IsWanted(Changed(ps[i], e)) ==> Wanted(ps') == ps')
  {
    var i := Find(ps, Target(e));
    var ps' := Update(ps, Target(e), e);
    if i == |ps| {
      KeepAll(IsWanted, ps);
    } else {
      ChangedKeepsId(ps[i], e);
      ReplacedIsFiltered(ps, i, Changed(ps[i], e));
    }
  }

  lemma {:induction false} ReplacedIsFiltered(ps: seq<Item>, i: nat, p: Item)
    requires Ascending(ps) && AllWanted(ps) && i < |ps| && p.id == ps[i].id
    ensures var ps' := ps[i := p];
      && Find(ps', p.id) == i && Remove(ps', p.id) == Wanted(ps') && (IsWanted(p) ==> Wanted(ps') == ps')
  {
    var ps' := ps[i := p];
    RemoveIsFilter(ps', i);
    if IsWanted(p) { KeepAll(IsWanted, ps'); }
  }

  /** Acquire and release never leave a pool unwanted, nor does a death with a consumer left. */
  lemma ChangedStaysWanted(p: Item, e: Event)
    requires IsWanted(p)
    ensures e.Acquire? || e.Release? ==> IsWanted(Changed(p, e))
    ensures Changed(p, e).connected != {} ==> IsWanted(Changed(p, e))
  {
  }

  // -------------------------------------------------------------------------
  // Preservation
  // -------------------------------------------------------------------------

  lemma {:induction false} StopsIs(s: Service, n: nat)
    requires n <= s.refs
    decreases n
    ensures Stops(s, n) == s.(refs := s.refs - n, decoupled := if n > 0 && n == s.refs then false else s.decoupled)
  {
    if n > 0 { StopsIs(Stop(s), n - 1); }
  }

  lemma {:induction false} StopsKeepRest(s: Service, n: nat)
    ensures Stops(s, n).lastId == s.lastId && Stops(s, n).displays == s.displays
    decreases n
  {
    if n > 0 { StopsKeepRest(Stop(s), n - 1); }
  }

  lemma WithPoolsKeepsDevice(s: Service, ps: seq<Item>)
    requires DeviceOk(s) && |ps| <= |s.pools|
    ensures DeviceOk(WithPools(s, ps)) && WithPools(s, ps).displays == s.displays
  {
    StopsIs(s, |s.pools| - |ps|);
  }

  lemma StepKeepsDevice(s: Service, e: Event)
    requires DeviceOk(s) && !e.Alloc? && |Apply(s, e).pools| <= |s.pools|
    ensures DeviceOk(Apply(s, e))
    ensures Fits(s.displays) && InRange(e) ==> Fits(Apply(s, e).displays)
  {
    if !e.ConfigDisplay? {
      assert Apply(s, e) == WithPools(s, Apply(s, e).pools);
      WithPoolsKeepsDevice(s, Apply(s, e).pools);
    }
  }

  lemma {:induction false} InsertMembers(ps: seq<Item>, p: Item)
    ensures |Insert(ps, p)| == |ps| + 1 && forall q :: q in Insert(ps, p) <==> q in ps || q == p
  {
    if ps != [] {
      InsertMembers(ps[1..], p);
      assert ps == [ps[0]] + ps[1..];
    }
  }

  lemma {:induction false} InsertAscending(ps: seq<Item>, p: Item)
    requires Ascending(ps) && 1 <= p.id <= MAX_ALLOC_SIZE
    requires forall k :: 0 <= k < |ps| ==> ps[k].id != p.id
    ensures Ascending(Insert(ps, p))
  {
    if ps != [] && ps[0].id < p.id {
      InsertAscending(ps[1..], p);
      InsertMembers(ps[1..], p);
      var rest := Insert(ps[1..], p);
      forall k | 0 <= k < |rest| ensures ps[0].id < rest[k].id {
        assert rest[k] in rest;
      }
    }
  }

  lemma {:induction false} AllocKeepsListInv(s: Service, token: nat, hwc: bool)
    requires ListInv(s) && token != 0
    ensures ListInv(DoAlloc(s, token, hwc))
  {
    if |s.pools| < MAX_ALLOC_SIZE {
      var s' := DoAlloc(s, token, hwc);
      var p := NewItem(NextId(s), token, hwc, s'.displays);
      NextIdIsFree(s);
      NewItemIsOwnKeyed(p.id, token, hwc, s'.displays);
      assert forall k :: 0 <= k < |s.pools| ==> s.pools[k] in s.pools;
      InsertAscending(s.pools, p);
      InsertMembers(s.pools, p);
      forall k | 0 <= k < |s'.pools| ensures !Unwanted(s'.pools[k]) && OwnKeyed(s'.pools[k]) {
        assert s'.pools[k] in s'.pools;
      }
    }
  }

  lemma {:induction false} AllocKeepsInv(s: Service, token: nat, hwc: bool)
    requires Inv(s) && token != 0
    ensures Inv(DoAlloc(s, token, hwc))
  {
    AllocKeepsListInv(s, token, hwc);
    if |s.pools| < MAX_ALLOC_SIZE {
      var s' := DoAlloc(s, token, hwc);
      var p := NewItem(NextId(s), token, hwc, s'.displays);
      NewItemIsCoherent(p.id, token, hwc, s'.displays);
      InsertMembers(s.pools, p);
      forall k | 0 <= k < |s'.pools| ensures Coherent(s'.pools[k]) {
        assert s'.pools[k] in s'.pools;
      }
    }
  }

  lemma ChangedKeepsOwnKeyed(p: Item, e: Event)
    requires OwnKeyed(p)
    ensures OwnKeyed(Changed(p, e))
  {
    var p' := Changed(p, e);
    forall k | k in p'.slots ensures OwnSlot(p', k) {
      if k in p.slots { assert OwnSlot(p, k); }
    }
  }

  /** What filtering the changed pools keeps. */
  lemma {:induction false} FilteredKeeps(ps: seq<Item>, e: Event)
    requires Ascending(ps) && AllOwnKeyed(ps)
    ensures var ps' := Wanted(AllChanged(ps, e));
      Ascending(ps') && AllWanted(ps') && AllOwnKeyed(ps')
  {
    var all := AllChanged(ps, e);
    forall i | 0 <= i < |ps| ensures all[i].id == ps[i].id { ChangedKeepsId(ps[i], e); }
    WantedKeeps(all);
    var ps' := Wanted(all);
    forall k | 0 <= k < |ps'| ensures OwnKeyed(ps'[k]) {
      KeepMembers(IsWanted, all, ps'[k]);
      var i :| 0 <= i < |all| && all[i] == ps'[k];
      ChangedKeepsOwnKeyed(ps[i], e);
    }
  }

  lemma {:induction false} FilteredKeepsCoherent(ps: seq<Item>, e: Event)
    requires AllCoherent(ps) && InRange(e)
    ensures AllCoherent(Wanted(AllChanged(ps, e)))
  {
    var all := AllChanged(ps, e);
    var ps' := Wanted(all);
    forall k | 0 <= k < |ps'| ensures Coherent(ps'[k]) {
      KeepMembers(IsWanted, all, ps'[k]);
      var i :| 0 <= i < |all| && all[i] == ps'[k];
      ChangedKeepsCoherent(ps[i], e);
    }
  }

  lemma StepKeepsListInv(s: Service, e: Event)
    requires ListInv(s) && Real(e)
    ensures ListInv(Apply(s, e))
  {
    if e.Alloc? {
      AllocKeepsListInv(s, e.token, e.hwc);
    } else {
      StepIsPointwise(s, e);
      KeepIsShorter(IsWanted, AllChanged(s.pools, e));
      StepKeepsDevice(s, e);
      FilteredKeeps(s.pools, e);
    }
  }

  lemma StepKeepsInv(s: Service, e: Event)
    requires Inv(s) && InRange(e)
    ensures Inv(Apply(s, e))
  {
    if e.Alloc? {
      AllocKeepsInv(s, e.token, e.hwc);
    } else {
      StepKeepsListInv(s, e);
      StepIsPointwise(s, e);
      KeepIsShorter(IsWanted, AllChanged(s.pools, e));
      StepKeepsDevice(s, e);
      FilteredKeepsCoherent(s.pools, e);
    }
  }

  // -------------------------------------------------------------------------
  // Theorems over all runs
  // -------------------------------------------------------------------------

  ghost predicate AllReal(es: seq<Event>) { forall i :: 0 <= i < |es| ==> Real(es[i]) }

  lemma {:induction false} RunsKeepListInv(es: seq<Event>)
    requires AllReal(es)
    ensures ListInv(Exec(es))
  {
    if es != [] {
      RunsKeepListInv(es[..|es| - 1]);
      StepKeepsListInv(Exec(es[..|es| - 1]), es[|es| - 1]);
    }
  }

  ghost predicate AllInRange(es: seq<Event>) { forall i :: 0 <= i < |es| ==> InRange(es[i]) }

  lemma {:induction false} RunsKeepInv(es: seq<Event>)
    requires AllInRange(es)
    ensures Inv(Exec(es))
  {
    if es != [] {
      RunsKeepInv(es[..|es| - 1]);
      StepKeepsInv(Exec(es[..|es| - 1]), es[|es| - 1]);
    }
  }

  /** Live ids are distinct, lie in 1..10, and there are never more than ten pools. */
  lemma LiveIdsAreDistinct(es: seq<Event>)
    requires AllReal(es)
    ensures var ps := Exec(es).pools;
      && |ps| <= MAX_ALLOC_SIZE
      && (forall i, j :: 0 <= i < j < |ps| ==> ps[i].id != ps[j].id)
      && (forall i :: 0 <= i < |ps| ==> 1 <= ps[i].id <= MAX_ALLOC_SIZE)
  {
    RunsKeepListInv(es);
    AscendingIsShort(Exec(es).pools, |Exec(es).pools|);
  }

  lemma {:induction false} AscendingIsShort(ps: seq<Item>, n: nat)
    requires Ascending(ps) && n <= |ps|
    ensures n > 0 ==> ps[n - 1].id >= n
  {
    if n > 1 { AscendingIsShort(ps, n - 1); }
  }

  /** Pool lifetime: in every run a pool that an event leaves with a producer or a connected
      consumer stays listed, changed as the event says; one left with neither is gone after that
      very event; and nothing else is listed unless `alloc` added it. */
  lemma PoolLifetime(es: seq<Event>, e: Event, p: Item)
    requires AllReal(es + [e]) && !e.Alloc?
    ensures p in Exec(es + [e]).pools <==> p in AllChanged(Exec(es).pools, e) && !Unwanted(p)
  {
    var all := es + [e];
    assert all[..|es|] == es && all[|es|] == e;
    assert forall i :: 0 <= i < |es| ==> es[i] == all[i];
    RunsKeepListInv(es);
    StepIsPointwise(Exec(es), e);
    KeepMembers(IsWanted, AllChanged(Exec(es).pools, e), p);
  }

  lemma PoolsAreCoherent(es: seq<Event>, n: nat)
    requires AllInRange(es) && n < |Exec(es).pools|
    ensures Coherent(Exec(es).pools[n])
  {
    RunsKeepInv(es);
  }

  /** In every run and every listed pool, a buffer is dequeued exactly when its slot has a token. */
  lemma DequeuedIffToken(es: seq<Event>, n: nat, t: nat, i: nat)
    requires AllInRange(es) && n < |Exec(es).pools|
    requires t in Exec(es).pools[n].queues && i < Exec(es).pools[n].queues[t].num
    ensures var p := Exec(es).pools[n];
      Key(HWC, t, i) in p.slots && (i in p.queues[t].held <==> p.slots[Key(HWC, t, i)].token != 0)
  {
    PoolsAreCoherent(es, n);
    assert Accounted(Exec(es).pools[n], t, i);
  }

  /** In every run the death of a consumer gives back exactly the buffers it held in the pool and
      leaves every other slot alone. */
  lemma DeathReturnsHeld(es: seq<Event>, who: nat, n: nat, t: nat, i: nat)
    requires AllInRange(es) && who != 0 && n < |Exec(es).pools|
    requires t in Exec(es).pools[n].queues && i < Exec(es).pools[n].queues[t].num
    ensures var p := Exec(es).pools[n];
      var k, p' := Key(HWC, t, i), GuiExtItemSpec.ConsumerDied(p, who);
      && Changed(p, ConsumerDied(p.id, who)) == p'
      && k in p.slots && k in p'.slots && t in p'.queues
      && (i in p.queues[t].held && i !in p'.queues[t].held <==> p.slots[k].token == who)
      && (p.slots[k].token != who ==> p'.slots[k] == p.slots[k])
  {
    PoolsAreCoherent(es, n);
    ConsumerDiedIsExact(Exec(es).pools[n], who, t, i);
  }

  /** The video reference count is the number of live pools, and the display is in decouple mode
      exactly while there is one (source PQ, one PQ unit, ioctls succeed). */
  lemma VideoFollowsPools(es: seq<Event>)
    requires AllReal(es)
    ensures Exec(es).refs == |Exec(es).pools| && (Exec(es).decoupled <==> Exec(es).pools != [])
  {
    RunsKeepListInv(es);
  }
}
