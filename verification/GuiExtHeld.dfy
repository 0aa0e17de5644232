/** Buffers that are still dequeued when a pool goes, and the runs that lose track of one. */
module GuiExtHeld {
  import opened GuiExtItemSpec
  import opened GuiExtPoolSpec
  import opened GuiExtPoolRuns
  import opened Collections

  /** Some buffer of the pool is dequeued. */
  ghost predicate Holds(p: Item) {
    exists t :: t in p.queues && p.queues[t].held != {}
  }

  lemma Extend(es: seq<Event>, e: Event) returns (es': seq<Event>)
    ensures es' == es + [e] && Exec(es') == Apply(Exec(es), e)
  {
    es' := es + [e];
    assert es'[..|es|] == es;
  }

  // -------------------------------------------------------------------------
  // Removal
  // -------------------------------------------------------------------------

  /** After the death of a consumer the pool counts as disconnected only if nothing is held. */
  lemma DeathReleasesAll(p: Item, who: nat)
    requires Coherent(p) && who != 0
    ensures Holds(GuiExtItemSpec.ConsumerDied(p, who)) ==> HWC in GuiExtItemSpec.ConsumerDied(p, who).connected
  {
    ConsumerDiedKeepsCoherent(p, who);
    var p' := GuiExtItemSpec.ConsumerDied(p, who);
    if Holds(p') {
      var t :| t in p'.queues && p'.queues[t].held != {};
      var i :| i in p'.queues[t].held;
      assert Accounted(p', t, i) && Own(p', Key(HWC, t, i));
    }
  }

  /** In every run: the event that removes a pool leaves a buffer of it dequeued if and only if
      one was dequeued before and the event is not the death of a consumer. */
  lemma RemovalLeavesHeldIff(es: seq<Event>, e: Event, n: nat)
    requires AllInRange(es) && InRange(e) && n < |Exec(es).pools| && Unwanted(Changed(Exec(es).pools[n], e))
    ensures Holds(Changed(Exec(es).pools[n], e)) <==> Holds(Exec(es).pools[n]) && !e.ConsumerDied?
  {
    RunsKeepInv(es);
    RemovedHolds(Exec(es).pools[n], e);
  }

  lemma RemovedHolds(p: Item, e: Event)
    requires Coherent(p) && IsWanted(p) && InRange(e) && Unwanted(Changed(p, e))
    ensures Holds(Changed(p, e)) <==> Holds(p) && !e.ConsumerDied?
  {
    ChangedStaysWanted(p, e);
    if e.ConsumerDied? {
      DeathReleasesAll(p, e.who);
    } else {
      assert Changed(p, e).queues == p.queues;
    }
  }

  /** Nobody disconnects the composer from a pool while one of its buffers is dequeued. */
  ghost predicate Polite(s: Service, e: Event) {
    e.Disconnect? && e.usage == HWC ==> forall p :: p in s.pools && p.id == e.id ==> !Holds(p)
  }

  ghost predicate AllPolite(es: seq<Event>) {
    forall k :: 0 <= k < |es| ==> Polite(Exec(es[..k]), es[k])
  }

  ghost predicate HeldIsConnected(p: Item) {
    Holds(p) ==> HWC in p.connected
  }

  lemma ChangedKeepsConnected(p: Item, e: Event)
    requires Coherent(p) && InRange(e) && HeldIsConnected(p)
    requires e.Disconnect? && e.usage == HWC && p.id == e.id ==> !Holds(p)
    ensures HeldIsConnected(Changed(p, e))
  {
    var p' := Changed(p, e);
    if e.ConsumerDied? {
      DeathReleasesAll(p, e.who);
    } else if e.Release? {
      if t :| t in p'.queues && p'.queues[t].held != {} {
        assert p'.queues[t].held <= p.queues[t].held;
        assert p.queues[t].held != {};
      }
    } else if e.Acquire? {
      AcquireKeepsCoherent(p, e.token, e.usage, e.typ, e.pick);
    } else {
      assert p'.queues == p.queues;
    }
  }

  lemma StepKeepsConnected(s: Service, e: Event)
    requires Inv(s) && InRange(e) && Polite(s, e)
    requires forall p :: p in s.pools ==> HeldIsConnected(p)
    ensures forall p :: p in Apply(s, e).pools ==> HeldIsConnected(p)
  {
    forall p | p in Apply(s, e).pools ensures HeldIsConnected(p) {
      if e.Alloc? {
        NewHoldsNothing(s, e.token, e.hwc, p);
      } else {
        var q := Origin(s, e, p);
        ChangedKeepsConnected(q, e);
      }
    }
  }

  /** The pool that an event has changed into a listed one. */
  lemma Origin(s: Service, e: Event, p: Item) returns (q: Item)
    requires Inv(s) && InRange(e) && !e.Alloc? && p in Apply(s, e).pools
    ensures q in s.pools && Coherent(q) && p == Changed(q, e)
  {
    StepIsPointwise(s, e);
    KeepMembers(IsWanted, AllChanged(s.pools, e), p);
    var i := ChangedFrom(s.pools, e, p);
    q := s.pools[i];
  }

  lemma ChangedFrom(ps: seq<Item>, e: Event, p: Item) returns (i: nat)
    requires p in AllChanged(ps, e)
    ensures i < |ps| && p == Changed(ps[i], e)
  {
    var all := AllChanged(ps, e);
    i :| 0 <= i < |all| && all[i] == p;
  }

  lemma NewHoldsNothing(s: Service, token: nat, hwc: bool, p: Item)
    requires p in DoAlloc(s, token, hwc).pools && (p in s.pools ==> HeldIsConnected(p))
    ensures HeldIsConnected(p)
  {
    if p !in s.pools {
      InsertMembers(s.pools, NewItem(NextId(s), token, hwc, DoAlloc(s, token, hwc).displays));
    }
  }

  lemma {:induction false} RunsKeepConnected(es: seq<Event>)
    requires AllInRange(es) && AllPolite(es)
    ensures forall p :: p in Exec(es).pools ==> HeldIsConnected(p)
  {
    if es != [] {
      var es' := es[..|es| - 1];
      assert forall k :: 0 <= k < |es'| ==> es'[..k] == es[..k];
      RunsKeepInv(es');
      RunsKeepConnected(es');
      StepKeepsConnected(Exec(es'), es[|es| - 1]);
    }
  }

  /** If nobody disconnects the composer while a buffer is dequeued, no pool is ever removed with
      a dequeued buffer. */
  lemma NoHeldBufferIsLost(es: seq<Event>, e: Event, n: nat)
    requires AllInRange(es) && AllPolite(es) && InRange(e) && Polite(Exec(es), e)
    requires n < |Exec(es).pools| && Unwanted(Changed(Exec(es).pools[n], e))
    ensures !Holds(Changed(Exec(es).pools[n], e))
  {
    RunsKeepInv(es);
    RunsKeepConnected(es);
    var p := Exec(es).pools[n];
    assert p in Exec(es).pools;
    ChangedKeepsConnected(p, e);
  }

  // -------------------------------------------------------------------------
  // Runs that lose a buffer
  // -------------------------------------------------------------------------

  const TwoDisplays := map[1 := 3][0 := 3]

  /** A single pool with three buffers for each of the displays 0 and 1. */
  lemma OnePool(tok: nat) returns (es: seq<Event>)
    requires tok != 0
    ensures Exec(es).pools == [NewItem(1, tok, true, TwoDisplays)]
  {
    es := Extend([], ConfigDisplay(1, true, 1, 1, 3));
    assert Exec(es) == Init.(displays := map[1 := 3]);
    assert NextId(Exec(es)) == 1;
    es := Extend(es, Alloc(tok, true));
  }

  /** An event for the only pool. */
  lemma OnlyPool(s: Service, p: Item, e: Event)
    requires s.pools == [p] && 1 <= p.id <= MAX_ALLOC_SIZE && IsWanted(p) && Targeted(e)
    ensures Apply(s, e).pools == One(IsWanted, Changed(p, e))
    ensures Apply(s, e).lastId == s.lastId && Apply(s, e).displays == s.displays
  {
    TargetedIsPointwise(s, e);
    StopsKeepRest(s, 0);
    StopsKeepRest(s, 1);
    assert AllChanged([p], e) == [] + [Changed(p, e)];
    KeepSnoc(IsWanted, [], Changed(p, e));
  }

  ghost predicate Took(p: Item, tok: nat) {
    && p.id == 1 && p.hwc && p.connected == {HWC} && 0 in p.queues && 1 in p.queues && 0 in p.queues[1].held
    && Key(HWC, 1, 0) in p.slots && p.slots[Key(HWC, 1, 0)].token == tok
  }

  lemma TakeOne(tok: nat) returns (es: seq<Event>)
    requires tok != 0
    ensures |Exec(es).pools| == 1 && Took(Exec(es).pools[0], tok)
  {
    es := OnePool(tok);
    var p, s := NewItem(1, tok, true, TwoDisplays), Exec(es);
    NewItemIsCoherent(1, tok, true, TwoDisplays);
    assert Accounted(p, 1, 0);
    es := Extend(es, Acquire(1, tok, HWC, 1, 0));
    OnlyPool(s, p, Acquire(1, tok, HWC, 1, 0));
  }

  /** The composer takes buffer 0 of the external display, and someone releases buffer 8 of the
      primary one: buffer 0 stays dequeued, but its slot has lost the token. */
  lemma ReleaseLosesToken(tok: nat) returns (es: seq<Event>)
    requires tok != 0
    ensures var ps := Exec(es).pools;
      && |ps| == 1 && 1 in ps[0].queues && 0 in ps[0].queues[1].held
      && Key(HWC, 1, 0) in ps[0].slots && ps[0].slots[Key(HWC, 1, 0)].token == 0
  {
    es := TakeOne(tok);
    var s := Exec(es);
    var p := s.pools[0];
    es := Extend(es, Release(1, HWC, 0, 8));
    OnlyPool(s, p, Release(1, HWC, 0, 8));
    KeyCollides(HWC, 0);
  }

  /** The composer takes a buffer, the producer frees the pool, and the composer disconnects: the
      pool is removed although the buffer is still dequeued. */
  lemma DisconnectLosesBuffer(tok: nat) returns (es: seq<Event>, e: Event)
    requires tok != 0
    ensures |Exec(es).pools| == 1 && Exec(es + [e]).pools == []
    ensures Unwanted(Changed(Exec(es).pools[0], e)) && Holds(Changed(Exec(es).pools[0], e))
  {
    es := TakeOne(tok);
    var s := Exec(es);
    es := Extend(es, Free(1));
    OnlyPool(s, s.pools[0], Free(1));
    e := Disconnect(1, HWC);
    s := Exec(es);
    var es' := Extend(es, e);
    OnlyPool(s, s.pools[0], e);
    assert Changed(s.pools[0], e).queues[1].held != {};
  }
}
