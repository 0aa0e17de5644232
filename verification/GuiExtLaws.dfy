/** What each call and each death does to the list of pools of the GuiExt service, in every run. */
module GuiExtLaws {
  import opened GuiExtItemSpec
  import opened GuiExtPoolSpec
  import opened GuiExtPoolRuns
  import opened GuiExtHeld
  import opened GuiExtJoint
  import opened Collections

  lemma Extended(es: seq<Event>, e: Event)
    requires GuiExtPoolRuns.AllReal(es)
    ensures GuiExtPoolSpec.Exec(es + [e]) == GuiExtPoolSpec.Apply(GuiExtPoolSpec.Exec(es), e)
    ensures ListInv(GuiExtPoolSpec.Exec(es))
  {
    var es' := GuiExtHeld.Extend(es, e);
    RunsKeepListInv(es);
  }

  /** A pool is listed after an event exactly if it is a pool from before, changed and wanted. */
  lemma ListedAfter(s: Service, e: Event, q: Item)
    requires ListInv(s) && Real(e) && !e.Alloc?
    ensures q in GuiExtPoolSpec.Apply(s, e).pools <==>
            exists p :: p in s.pools && q == Changed(p, e) && !Unwanted(q)
  {
    StepIsPointwise(s, e);
    KeepMembers(IsWanted, AllChanged(s.pools, e), q);
    if q in AllChanged(s.pools, e) {
      var i := ChangedFrom(s.pools, e, q);
      assert s.pools[i] in s.pools;
    }
    if p :| p in s.pools && q == Changed(p, e) {
      var i :| 0 <= i < |s.pools| && s.pools[i] == p;
      assert AllChanged(s.pools, e)[i] == q;
    }
  }

  lemma ListedIsWanted(s: Service, p: Item)
    requires ListInv(s) && p in s.pools
    ensures p.producer != 0 || p.connected != {}
  {
    var i :| 0 <= i < |s.pools| && s.pools[i] == p;
    assert IsWanted(s.pools[i]);
  }

  /** The death of a producer: its pools stay, without producer, exactly while a usage is connected,
      and all others stay as they were. No listed pool is the dead producer's. */
  lemma ProducerDeathIs(es: seq<Event>, who: nat, q: Item)
    requires GuiExtPoolRuns.AllReal(es) && who != 0
    ensures q in GuiExtPoolSpec.Exec(es + [ProducerDied(who)]).pools <==>
      exists p :: p in GuiExtPoolSpec.Exec(es).pools &&
        if p.producer == who then p.connected != {} && q == p.(producer := 0) else q == p
    ensures q in GuiExtPoolSpec.Exec(es + [ProducerDied(who)]).pools ==> q.producer != who
  {
    Extended(es, ProducerDied(who));
    var s := GuiExtPoolSpec.Exec(es);
    ListedAfter(s, ProducerDied(who), q);
    forall p | p in s.pools ensures p.producer != 0 || p.connected != {} { ListedIsWanted(s, p); }
  }

  /** A free: the pool stays, without producer, exactly while a usage is connected. */
  lemma FreeIs(es: seq<Event>, id: nat, q: Item)
    requires GuiExtPoolRuns.AllReal(es)
    ensures q in GuiExtPoolSpec.Exec(es + [Free(id)]).pools <==>
      exists p :: p in GuiExtPoolSpec.Exec(es).pools &&
        if p.id == id then p.connected != {} && q == p.(producer := 0) else q == p
  {
    Extended(es, Free(id));
    var s := GuiExtPoolSpec.Exec(es);
    ListedAfter(s, Free(id), q);
    forall p | p in s.pools ensures p.producer != 0 || p.connected != {} { ListedIsWanted(s, p); }
  }

  /** A disconnect: the usage is no longer connected, and the pool stays exactly while it has a
      producer or another connected usage; the composer of a pool without it is refused. */
  lemma DisconnectIs(es: seq<Event>, id: nat, usage: nat, q: Item)
    requires GuiExtPoolRuns.AllReal(es)
    ensures q in GuiExtPoolSpec.Exec(es + [Disconnect(id, usage)]).pools <==>
      exists p :: p in GuiExtPoolSpec.Exec(es).pools &&
        if p.id == id && !(usage == HWC && !p.hwc)
        then (p.producer != 0 || exists u :: u in p.connected && u != usage) &&
             q == p.(connected := p.connected - {usage})
        else q == p
  {
    Extended(es, Disconnect(id, usage));
    var s := GuiExtPoolSpec.Exec(es);
    ListedAfter(s, Disconnect(id, usage), q);
    forall p | p in s.pools
      ensures p.producer != 0 || p.connected != {}
      ensures p.connected - {usage} == {} <==> !exists u :: u in p.connected && u != usage
    {
      ListedIsWanted(s, p);
      if u :| u in p.connected && u != usage { assert u in p.connected - {usage}; }
    }
  }

  /** An alloc below the limit lists one more pool, under an id that was not listed, with the caller
      as its producer; at the limit it changes nothing. */
  lemma AllocIs(es: seq<Event>, token: nat, hwc: bool) returns (p: Item)
    requires GuiExtPoolRuns.AllReal(es) && token != 0
    ensures var s, s' := GuiExtPoolSpec.Exec(es), GuiExtPoolSpec.Exec(es + [Alloc(token, hwc)]);
      if |s.pools| >= 10 then s' == s
      else
        && p.producer == token && p.hwc == hwc && p.connected == {}
        && 1 <= p.id <= 10 && (forall q :: q in s.pools ==> q.id != p.id)
        && (forall q :: q in s'.pools <==> q in s.pools || q == p)
  {
    Extended(es, Alloc(token, hwc));
    var s := GuiExtPoolSpec.Exec(es);
    p := NewItem(NextId(s), token, hwc, DoAlloc(s, token, hwc).displays);
    if |s.pools| < MAX_ALLOC_SIZE {
      NextIdIsFree(s);
      InsertMembers(s.pools, p);
    }
  }

  // -------------------------------------------------------------------------
  // What a new pool has to give
  // -------------------------------------------------------------------------

  /** A pool with this id is listed, and gives the buffer to whoever asks for it. */
  ghost predicate Gives(s: Service, id: nat, t: nat, i: nat) {
    exists p :: p in s.pools && p.id == id && GuiExtItemSpec.Acquire(p, 1, HWC, t, i).0 == Ok
  }

  lemma AllocGives(s: Service, token: nat, t: nat, i: nat)
    requires Inv(s) && token != 0 && |s.pools| < MAX_ALLOC_SIZE
    ensures var s' := DoAlloc(s, token, true);
      Gives(s', NextId(s), t, i) <==> t in s'.displays && i < s'.displays[t]
  {
    var s' := DoAlloc(s, token, true);
    AllocKeepsInv(s, token, true);
    var p := NewItem(NextId(s), token, true, s'.displays);
    NextIdIsFree(s);
    InsertMembers(s.pools, p);
    NewItemServes(NextId(s), token, true, s'.displays, 1, t, i);
    forall q | q in s'.pools && q.id == NextId(s) ensures q == p {
      assert q in s.pools ==> q.id in Ids(s.pools);
    }
    assert p in s'.pools;
  }

  /** A display that has been configured with `n` buffers has `n` of them in the next pool, and one
      that has been disabled has none; the first pool always has three of the primary display. */
  lemma ConfiguredIsGiven(es: seq<Event>, t: nat, enable: bool, w: nat, h: nat, n: nat, token: nat, i: nat)
    requires AllInRange(es) && t < 3 && n <= 8 && token != 0 && |GuiExtPoolSpec.Exec(es).pools| < 10
    ensures var s := GuiExtPoolSpec.Exec(es);
      var s' := GuiExtPoolSpec.Apply(GuiExtPoolSpec.Apply(s, ConfigDisplay(t, enable, w, h, n)), Alloc(token, true));
      && (t != 0 || s.pools != [] ==>
            (Gives(s', NextId(s), t, i) <==> enable && w > 0 && h > 0 && i < n))
      && (s.pools == [] ==> (Gives(s', NextId(s), 0, i) <==> i < 3))
  {
    RunsKeepInv(es);
    var s := GuiExtPoolSpec.Exec(es);
    var s1 := GuiExtPoolSpec.Apply(s, ConfigDisplay(t, enable, w, h, n));
    GuiExtPoolRuns.StepKeepsInv(s, ConfigDisplay(t, enable, w, h, n));
    assert NextId(s1) == NextId(s);
    AllocGives(s1, token, t, i);
    AllocGives(s1, token, 0, i);
  }

  /** Configuring one display leaves the others as they were. */
  lemma ConfigKeepsOthers(s: Service, t: nat, enable: bool, w: nat, h: nat, n: nat, u: nat)
    requires u != t
    ensures var s' := GuiExtPoolSpec.Apply(s, ConfigDisplay(t, enable, w, h, n));
      && s' == s.(displays := s'.displays) && (u in s'.displays <==> u in s.displays)
      && (u in s.displays ==> s'.displays[u] == s.displays[u])
  {
  }

  // -------------------------------------------------------------------------
  // Grants
  // -------------------------------------------------------------------------

  /** In every joint run the client's acquire is granted exactly if the pool is listed and the buffer
      is one of the pool's and not dequeued. */
  lemma GrantedIff(steps: seq<Step>, pool: nat, usage: nat, typ: nat, pick: nat)
    requires AllInBounds(steps)
    ensures Grants(GuiExtJoint.Exec(steps).svc, pool, usage, typ, pick) <==>
      exists p :: p in GuiExtJoint.Exec(steps).svc.pools && p.id == pool && HasFree(p, usage, typ, pick)
  {
    RunsKeepJoint(steps);
    ServiceGrantsIff(GuiExtJoint.Exec(steps).svc, pool, usage, typ, pick);
  }

  /** The pool has this buffer and has not given it away. */
  predicate HasFree(p: Item, usage: nat, typ: nat, pick: nat) {
    p.hwc && usage == HWC && typ in p.queues && pick < p.queues[typ].num && pick !in p.queues[typ].held
  }

  lemma ServiceGrantsIff(svc: Service, pool: nat, usage: nat, typ: nat, pick: nat)
    requires Inv(svc)
    ensures Grants(svc, pool, usage, typ, pick) <==>
      exists p :: p in svc.pools && p.id == pool && HasFree(p, usage, typ, pick)
  {
    var ps := svc.pools;
    var n := Find(ps, pool);
    if n < |ps| {
      AcquireGrantedIff(ps[n], ME, usage, typ, pick);
      assert ps[n] in ps;
      forall p | p in ps && p.id == pool ensures p == ps[n] { OnlyListed(ps, n, p); }
    }
  }

  lemma OnlyListed(ps: seq<Item>, n: nat, p: Item)
    requires Ascending(ps) && n < |ps| && p in ps && p.id == ps[n].id
    ensures p == ps[n]
  {
    var m :| 0 <= m < |ps| && ps[m] == p;
  }
}
