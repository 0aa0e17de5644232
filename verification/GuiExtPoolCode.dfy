/** `GuiExtPool` of `mtk/gui_ext/lib/GuiExtImpl.cpp` on the heap: the list holds references to
    pools that are changed in place. Every method is one event of `GuiExtPoolSpec`. */
module GuiExtPoolCode {
  import opened GuiExtItemSpec
  import opened GuiExtItem
  import opened GuiExtPoolSpec
  import opened GuiExtPoolRuns
  import opened Collections

  ghost function Values(pools: seq<GuiExtPoolItem>): seq<Item>
    reads pools
  {
    seq(|pools|, i requires 0 <= i < |pools| reads pools => pools[i].Value())
  }

  class GuiExtPool {
    var lastId: nat
    var pools: seq<GuiExtPoolItem>
    var displays: map<nat, nat>
    var refs: int
    var decoupled: bool

    ghost function Value(): Service
      reads this, pools
    {
      Service(lastId, Values(pools), displays, refs, decoupled)
    }

    /** Different entries are different objects, ordered by id, and the display device follows
        the list. Whatever else `Inv` says follows from the events the methods refine. */
    ghost predicate Valid()
      reads this, pools
    {
      && NoRepeats(pools)
      && Ascending(Values(pools)) && DeviceOk(Value())
    }

    constructor ()
      ensures Valid() && Value() == Init && Inv(Value()) && pools == []
    {
      lastId, pools, displays, refs, decoupled := 0, [], map[], 0, false;
    }

    /** Position of a pool in the keyed vector, or its size. */
    method IndexOf(id: nat) returns (i: nat)
      ensures i == Find(Values(pools), id)
    {
      i := 0;
      while i < |pools| && pools[i].id != id
        invariant 0 <= i <= |pools| && forall j :: 0 <= j < i ==> pools[j].id != id
      {
        i := i + 1;
      }
      FindAt(Values(pools), id, i);
    }

    /** `getPoolId`. */
    method GetPoolId() returns (id: nat)
      requires |pools| < MAX_ALLOC_SIZE
      modifies this`lastId
      ensures id == lastId == NextId(old(Value()))
    {
      var taken := set p | p in pools :: p.id;
      IdsOfValues();
      IdsAreFew(Values(pools));
      id := NextFreeId(lastId, taken);
      lastId := id;
    }

    lemma IdsOfValues()
      ensures (set p | p in pools :: p.id) == Ids(Values(pools))
    {
      var vs := Values(pools);
      forall p | p in pools ensures p.id in Ids(vs) {
        var i :| 0 <= i < |pools| && pools[i] == p;
        assert vs[i] in vs;
      }
    }

    /** `removePoolItemLocked`; the last reference dropped runs the pool's destructor. */
    method RemovePoolItem(id: nat)
      requires Valid()
      modifies this
      ensures Valid() && Values(pools) == Remove(old(Values(pools)), id)
      ensures lastId == old(lastId) && displays == old(displays)
      ensures forall p :: p in pools ==> p in old(pools)
    {
      var i := IndexOf(id);
      if i < |pools| && pools[i].connected == {} && pools[i].producer == 0 { RemoveAt(i); }
    }

    method RemoveAt(i: nat)
      requires Valid() && i < |pools|
      modifies this
      ensures Valid() && Values(pools) == old(Values(pools))[..i] + old(Values(pools))[i + 1..]
      ensures lastId == old(lastId) && displays == old(displays)
      ensures forall p :: p in pools ==> p in old(pools)
    {
      DropPool(i);
      refs := refs - 1;
      if refs == 0 { decoupled := false; }
    }

    method DropPool(i: nat)
      requires i < |pools| && Ascending(Values(pools))
      requires NoRepeats(pools)
      modifies this`pools
      ensures forall p :: p in pools ==> p in old(pools)
      ensures Values(pools) == old(Values(pools))[..i] + old(Values(pools))[i + 1..]
      ensures Ascending(Values(pools)) && |pools| == old(|pools|) - 1
      ensures NoRepeats(pools)
    {
      ghost var vs := Values(pools);
      RemoveNoRepeats(pools, i);
      pools := pools[..i] + pools[i + 1..];
      DropAt(vs, i);
      assert Values(pools) == vs[..i] + vs[i + 1..];
    }

    method ClearProducer(i: nat)
      requires Valid() && i < |pools|
      modifies pools[i]
      ensures Valid() && Values(pools) == old(Values(pools))[i := old(Values(pools))[i].(producer := 0)]
    {
      ghost var vs := Values(pools);
      pools[i].producer := 0;
      assert Values(pools) == vs[i := vs[i].(producer := 0)];
    }

    method DisconnectAt(i: nat, usage: nat) returns (status: Status)
      requires Valid() && i < |pools| && usage < USAGE_MAX
      modifies pools[i]
      ensures Valid() && status == (if !pools[i].hwc && usage == HWC then InvalidOperation else Ok)
      ensures Values(pools) == old(Values(pools))[i := GuiExtItemSpec.Disconnect(old(Values(pools))[i], usage).1]
    {
      ghost var vs := Values(pools);
      status := pools[i].Disconnect(usage);
      assert Values(pools) == vs[i := GuiExtItemSpec.Disconnect(vs[i], usage).1];
    }

    method KillConsumer(i: nat, who: nat) returns (none: bool)
      requires Valid() && i < |pools| && OwnKeyed(pools[i].Value()) && who != 0
      modifies pools[i]
      ensures Valid() && none == (Values(pools)[i].connected == {})
      ensures Values(pools) == old(Values(pools))[i := GuiExtItemSpec.ConsumerDied(old(Values(pools))[i], who)]
    {
      ghost var vs := Values(pools);
      none := pools[i].ConsumerDied(who);
      assert Values(pools) == vs[i := GuiExtItemSpec.ConsumerDied(vs[i], who)];
    }

    /** The end of an operation that has changed one pool and now removes it if unwanted. */
    method RemoveAfter(ghost s: Service, ghost e: Event, id: nat)
      requires Valid() && DeviceOk(s) && Value() == s.(pools := Update(s.pools, id, e))
      modifies this
      ensures Valid() && Value() == WithPools(s, Remove(Update(s.pools, id, e), id))
      ensures forall p :: p in pools ==> p in old(pools)
    {
      RemovePoolItem(id);
      SameService(s, Value(), Remove(Update(s.pools, id, e), id));
    }

    /** `GuiExtPool::free`. */
    method Free(id: nat) returns (status: Status)
      requires Valid()
      modifies this, pools
      ensures Valid() && Value() == Apply(old(Value()), GuiExtPoolSpec.Free(id))
      ensures forall i :: 0 <= i < |pools| ==> pools[i] in old(pools)
      ensures status == if Find(old(Values(pools)), id) < old(|pools|) then Ok else BadIndex
    {
      ghost var s, e := Value(), GuiExtPoolSpec.Free(id);
      var i := IndexOf(id);
      if i == |pools| {
        status := BadIndex;
      } else {
        ClearProducer(i);
        status := Ok;
      }
      assert Values(pools) == Update(s.pools, id, e);
      RemoveAfter(s, e, id);
    }

    /** `GuiExtPool::disconnect`. */
    method Disconnect(id: nat, usage: nat) returns (status: Status)
      requires Valid() && usage < USAGE_MAX
      modifies this, pools
      ensures Valid() && Value() == Apply(old(Value()), GuiExtPoolSpec.Disconnect(id, usage))
      ensures forall i :: 0 <= i < |pools| ==> pools[i] in old(pools)
      ensures var i := Find(old(Values(pools)), id);
        status == if i == old(|pools|) then BadIndex
                  else if !old(Values(pools))[i].hwc && usage == HWC then InvalidOperation
                  else Ok
    {
      ghost var s, e := Value(), GuiExtPoolSpec.Disconnect(id, usage);
      status := DisconnectPool(id, usage);
      RemoveAfter(s, e, id);
    }

    method DisconnectPool(id: nat, usage: nat) returns (status: Status)
      requires Valid() && usage < USAGE_MAX
      modifies pools
      ensures Valid()
      ensures Value() == old(Value()).(pools := Update(old(Values(pools)), id, GuiExtPoolSpec.Disconnect(id, usage)))
      ensures var i := Find(old(Values(pools)), id);
        status == if i == old(|pools|) then BadIndex
                  else if !old(Values(pools))[i].hwc && usage == HWC then InvalidOperation
                  else Ok
    {
      var i := IndexOf(id);
      if i == |pools| {
        status := BadIndex;
      } else {
        status := DisconnectAt(i, usage);
      }
    }

    /** A consumer's death callback in one pool. */
    method ConsumerDied(id: nat, who: nat)
      requires Valid() && AllOwnKeyed(Values(pools)) && who != 0
      modifies this, pools
      ensures Valid() && Value() == Apply(old(Value()), GuiExtPoolSpec.ConsumerDied(id, who))
      ensures forall i :: 0 <= i < |pools| ==> pools[i] in old(pools)
    {
      ghost var s, e := Value(), GuiExtPoolSpec.ConsumerDied(id, who);
      var i := IndexOf(id);
      var none := false;
      if i < |pools| {
        assert OwnKeyed(s.pools[i]);
        none := KillConsumer(i, who);
      }
      assert Values(pools) == Update(s.pools, id, e);
      FindAt(Values(pools), id, i);
      if none {
        RemoveAfter(s, e, id);
      } else {
        SameService(s, Value(), Update(s.pools, id, e));
      }
    }

    /** The producer's death callback: walks down the list while removing from it. */
    method ProducerDied(who: nat)
      requires Valid() && AllWanted(Values(pools)) && who != 0
      modifies this, pools
      ensures Valid() && Value() == Apply(old(Value()), GuiExtPoolSpec.ProducerDied(who))
      ensures forall i :: 0 <= i < |pools| ==> pools[i] in old(pools)
    {
      ghost var s := Value();
      Sweep(who);
      SweptService(s, Value(), who);
    }

    method Sweep(who: nat)
      requires Valid() && AllWanted(Values(pools)) && who != 0
      modifies this, pools
      ensures Valid() && lastId == old(lastId) && displays == old(displays)
      ensures Values(pools) == SweepDown(old(Values(pools)), who, |old(pools)|)
      ensures forall p :: p in pools ==> p in old(pools)
    {
      ghost var ps := Values(pools);
      var i := |pools|;
      while i > 0
        invariant 0 <= i <= |pools| && Valid() && AllWanted(Values(pools))
        invariant lastId == old(lastId) && displays == old(displays)
        invariant SweepDown(Values(pools), who, i) == SweepDown(ps, who, |ps|)
        invariant forall p :: p in pools ==> p in old(pools)
      {
        i := i - 1;
        assert pools[i] in old(pools);
        SweepAt(i, who);
      }
    }

    method SweepAt(i: nat, who: nat)
      requires Valid() && AllWanted(Values(pools)) && i < |pools| && who != 0
      modifies this, pools[i]
      ensures Valid() && AllWanted(Values(pools)) && i <= |pools|
      ensures Values(pools) == SweepOne(old(Values(pools)), who, i)
      ensures SweepDown(Values(pools), who, i) == SweepDown(old(Values(pools)), who, i + 1)
      ensures lastId == old(lastId) && displays == old(displays)
      ensures forall p :: p in pools ==> p in old(pools)
    {
      SweepOneIs(Values(pools), who, i);
      SweepDownNext(Values(pools), who, i + 1);
      if pools[i].producer == who {
        ClearProducer(i);
        RemovePoolItem(pools[i].id);
      }
    }

    /** `GuiExtPool::alloc`. */
    method Alloc(token: nat, hwc: bool) returns (status: Status, id: nat)
      requires Valid() && token != 0
      modifies this
      ensures Valid() && Value() == Apply(old(Value()), GuiExtPoolSpec.Alloc(token, hwc))
      ensures forall i :: 0 <= i < |pools| ==> pools[i] in old(pools) || fresh(pools[i])
      ensures status == Ok <==> old(|pools|) < MAX_ALLOC_SIZE
      ensures status == Ok ==> id == NextId(old(Value()))
    {
      ghost var s := Value();
      if |pools| >= MAX_ALLOC_SIZE { return NotEnoughData, 0; }
      if |pools| == 0 { displays := displays[PRIMARY := MAX_HWC_DEQUEUED_NUM]; }
      id := GetPoolId();
      var item := new GuiExtPoolItem(token, hwc, id, displays);
      InsertNew(s, item.Value());
      Enlist(item);
      status := Ok;
    }

    /** The device change made by the pool's constructor, and the pool's entry in the list. */
    method Enlist(item: GuiExtPoolItem)
      requires Valid() && item !in pools
      requires Ascending(Insert(Values(pools), item.Value())) && |Insert(Values(pools), item.Value())| == |pools| + 1
      modifies this
      ensures Valid() && Value() == Start(old(Value())).(pools := Insert(old(Values(pools)), item.Value()))
      ensures forall p :: p in pools ==> p in old(pools) || p == item
    {
      refs := refs + 1;
      if refs == 1 { decoupled := true; }
      InsertItem(item);
    }

    /** Adds a pool under its key. */
    method InsertItem(item: GuiExtPoolItem)
      requires NoRepeats(pools)
      requires item !in pools
      modifies this`pools
      ensures Values(pools) == Insert(old(Values(pools)), item.Value())
      ensures forall p :: p in pools ==> p in old(pools) || p == item
      ensures NoRepeats(pools)
    {
      var i := 0;
      while i < |pools| && pools[i].id <= item.id
        invariant 0 <= i <= |pools| && forall j :: 0 <= j < i ==> pools[j].id <= item.id
      {
        i := i + 1;
      }
      ghost var vs := Values(pools);
      InsertAt(vs, item.Value(), i);
      InsertNoRepeats(pools, i, item);
      pools := pools[..i] + [item] + pools[i..];
      assert Values(pools) == vs[..i] + [item.Value()] + vs[i..];
    }
  }

  /** The device state is determined by the list. */
  lemma SameService(s: Service, s': Service, ps: seq<Item>)
    requires DeviceOk(s) && DeviceOk(s') && s'.pools == ps && |ps| <= |s.pools|
    requires s'.lastId == s.lastId && s'.displays == s.displays
    ensures s' == WithPools(s, ps)
  {
    StopsIs(s, |s.pools| - |ps|);
  }

  lemma {:induction false} InsertNew(s: Service, p: Item)
    requires Ascending(s.pools) && |s.pools| < MAX_ALLOC_SIZE && p.id == NextId(s)
    ensures Ascending(Insert(s.pools, p)) && |Insert(s.pools, p)| == |s.pools| + 1
  {
    NextIdIsFree(s);
    assert forall k :: 0 <= k < |s.pools| ==> s.pools[k] in s.pools;
    InsertAscending(s.pools, p);
    InsertMembers(s.pools, p);
  }

  lemma SweepDownNext(ps: seq<Item>, who: nat, n: nat)
    requires 0 < n <= |ps|
    ensures SweepDown(ps, who, n) == SweepDown(SweepOne(ps, who, n - 1), who, n - 1)
  {
  }

  lemma {:induction false} SweptService(s: Service, s': Service, who: nat)
    requires DeviceOk(s) && Ascending(s.pools) && AllWanted(s.pools) && who != 0
    requires DeviceOk(s') && s'.lastId == s.lastId && s'.displays == s.displays
    requires s'.pools == SweepDown(s.pools, who, |s.pools|)
    ensures s' == Apply(s, GuiExtPoolSpec.ProducerDied(who))
  {
    var ps := s.pools;
    SweepIsFilter(ps, who, |ps|);
    assert ps[|ps|..] == [];
    KeepIsShorter(IsWanted, AllOrphaned(ps[..|ps|], who));
    SameService(s, s', s'.pools);
  }

  lemma {:induction false} InsertAt(ps: seq<Item>, p: Item, i: nat)
    requires i <= |ps| && (forall j :: 0 <= j < i ==> ps[j].id <= p.id) && (i < |ps| ==> p.id < ps[i].id)
    ensures Insert(ps, p) == ps[..i] + [p] + ps[i..]
  {
    if i > 0 {
      InsertAt(ps[1..], p, i - 1);
      assert ps[1..][..i - 1] == ps[1..i] && ps[1..][i - 1..] == ps[i..];
      assert ps[..i] == [ps[0]] + ps[1..i];
    } else {
      assert ps[..0] == [] && ps[0..] == ps;
    }
  }

  lemma DropAt(ps: seq<Item>, i: nat)
    requires Ascending(ps) && i < |ps|
    ensures Ascending(ps[..i] + ps[i + 1..]) && |ps[..i] + ps[i + 1..]| == |ps| - 1
  {
  }

  /** The search of `getPoolId`: ends because fewer than ten ids are taken. */
  method NextFreeId(last: nat, taken: set<nat>) returns (id: nat)
    requires |taken| < MAX_ALLOC_SIZE
    ensures id == FirstFree(last, taken, 1) && 1 <= id <= MAX_ALLOC_SIZE && id !in taken
  {
    ghost var k := 1;
    ghost var free := SomeIdIsFree(last, taken);
    var m := (last + 1) % MAX_ALLOC_SIZE;
    id := AsId(m);
    while id in taken
      invariant 1 <= k <= free && 0 <= m < MAX_ALLOC_SIZE && id == AsId(m) == Cycle(last, k)
      invariant FirstFree(last, taken, 1) == FirstFree(last, taken, k)
      decreases free - k
    {
      NextInCycle(last, k, m);
      m := (m + 1) % MAX_ALLOC_SIZE;
      id := AsId(m);
      k := k + 1;
    }
  }

  lemma NextInCycle(last: nat, k: nat, m: nat)
    requires m < MAX_ALLOC_SIZE && AsId(m) == Cycle(last, k)
    ensures AsId((m + 1) % MAX_ALLOC_SIZE) == Cycle(last, k + 1)
  {
    assert m == (last + k) % MAX_ALLOC_SIZE;
  }

  lemma {:induction false} FindAt(ps: seq<Item>, id: nat, i: nat)
    requires i <= |ps| && (i < |ps| ==> ps[i].id == id) && forall j :: 0 <= j < i ==> ps[j].id != id
    ensures Find(ps, id) == i
  {
  }
}
