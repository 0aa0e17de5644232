/** One client and the service together: how the client's `isAcquired` marks relate to the buffers
    that the service has dequeued for it. A client call is one step; so is one round of the
    client's disconnect loop, whose calls other clients may come between. */
module GuiExtJoint {
  import opened GuiExtItemSpec
  import opened GuiExtPoolSpec
  import opened GuiExtPoolRuns
  import opened GuiExtClient
  import opened GuiExtHeld
  import opened Collections

  /** The client's binder token. */
  const ME := 1

  datatype State = State(svc: Service, es: seq<Entry>)

  datatype Step =
    | Take(pool: nat, usage: nat, typ: nat, pick: nat, requested: bool, handle: nat)
    | Give(handle: nat, pool: nat, usage: nat, typ: nat)
    | Drop(key: nat)                    // a round of the disconnect loop for the entry with this key
    | Leave(pool: nat, usage: nat)      // the service call at its end
    | Other(e: Event)                   // anyone else's call or death

  const Start := State(GuiExtPoolSpec.Init, [])

  /** The service grants the acquire. */
  predicate Grants(svc: Service, pool: nat, usage: nat, typ: nat, pick: nat) {
    var n := Find(svc.pools, pool);
    n < |svc.pools| && GuiExtItemSpec.Acquire(svc.pools[n], ME, usage, typ, pick).0 == Ok
  }

  function DoTake(s: State, pool: nat, usage: nat, typ: nat, pick: nat, requested: bool, handle: nat): State {
    State(GuiExtPoolSpec.Apply(s.svc, GuiExtPoolSpec.Acquire(pool, ME, usage, typ, pick)),
          AfterAcquire(s.es, pool, usage, typ, Grants(s.svc, pool, usage, typ, pick), pick, requested, handle))
  }

  function DoGive(s: State, handle: nat, pool: nat, usage: nat, typ: nat): State {
    var i := FindHandle(s.es, handle);
    if i == |s.es| then s
    else
      State(GuiExtPoolSpec.Apply(s.svc, GuiExtPoolSpec.Release(pool, usage, typ, s.es[i].idx)),
            AfterRelease(s.es, handle, pool, usage, typ))
  }

  /** The index is looked up by handle, as in every release. */
  function DoDrop(s: State, i: nat): State
    requires i < |s.es|
  {
    var x := s.es[i];
    var s1 := if x.acquired then DoGive(s, x.handle, x.pool, x.usage, x.typ) else s;
    State(s1.svc, s1.es[..i] + s1.es[i + 1..])
  }

  function Apply(s: State, step: Step): State {
    match step
    case Take(pool, usage, typ, pick, requested, handle) =>
      if usage >= USAGE_MAX || typ > HWC_DISPLAY_VIRTUAL then s
      else DoTake(s, pool, usage, typ, pick, requested, handle)
    case Give(handle, pool, usage, typ) =>
      if usage >= USAGE_MAX || typ > HWC_DISPLAY_VIRTUAL then s else DoGive(s, handle, pool, usage, typ)
    case Drop(key) =>
      var i := FindKey(s.es, key);
      if i < |s.es| then DoDrop(s, i) else s
    case Leave(pool, usage) =>
      if usage >= USAGE_MAX then s
      else s.(svc := GuiExtPoolSpec.Apply(s.svc, GuiExtPoolSpec.Disconnect(pool, usage)))
    case Other(e) => if IsOther(e) then s.(svc := GuiExtPoolSpec.Apply(s.svc, e)) else s
  }

  /** Not in this client's name, and within the limits of the service's own runs. */
  ghost predicate InBounds(step: Step) {
    step.Other? ==> InRange(step.e)
  }

  predicate IsOther(e: Event) {
    match e
    case Acquire(_, token, _, _, _) => token != ME
    case ConsumerDied(_, who) => who != ME
    case _ => true
  }

  function Exec(steps: seq<Step>): State {
    if steps == [] then Start else Apply(Exec(steps[..|steps| - 1]), steps[|steps| - 1])
  }

  // -------------------------------------------------------------------------
  // What the service holds for the client
  // -------------------------------------------------------------------------

  ghost predicate MineIn(p: Item, t: nat, i: nat) {
    Key(HWC, t, i) in p.slots && p.slots[Key(HWC, t, i)].token == ME
  }

  /** The service has buffer `i` of type `t` dequeued for the client. */
  ghost predicate Mine(svc: Service, pool: nat, t: nat, i: nat) {
    exists n :: 0 <= n < |svc.pools| && svc.pools[n].id == pool && MineIn(svc.pools[n], t, i)
  }

  /** A release of exactly this buffer. */
  predicate Hits(e: Event, pool: nat, t: nat, i: nat) {
    e.Release? && e.id == pool && e.usage == HWC && e.typ == t && e.buf == i
  }

  /** The event leaves the pool with neither producer nor consumer, so that it is removed. */
  ghost predicate Removes(svc: Service, e: Event, pool: nat) {
    exists n :: 0 <= n < |svc.pools| && svc.pools[n].id == pool && Unwanted(Changed(svc.pools[n], e))
  }

  lemma ChangedMine(p: Item, e: Event, t: nat, i: nat)
    requires Coherent(p) && InRange(e) && IsOther(e) && t < 8 && i < 8
    ensures MineIn(Changed(p, e), t, i) <==> MineIn(p, t, i) && !Hits(e, p.id, t, i)
  {
    var k := Key(HWC, t, i);
    if k in p.slots { assert Own(p, k) && Accounted(p, p.slots[k].typ, p.slots[k].idx); }
    match e
    case Release(id, usage, typ, buf) =>
      if id == p.id && HasQueue(p, usage, typ) && Key(HWC, typ, buf) == k { KeyInjective(HWC, t, i, HWC, typ, buf); }
      if Hits(e, p.id, t, i) && MineIn(p, t, i) { KeyInjective(HWC, t, i, HWC, p.slots[k].typ, p.slots[k].idx); }
    case Acquire(id, token, usage, typ, pick) =>
      if id == p.id && HasQueue(p, usage, typ) && pick < p.queues[typ].num && Key(HWC, typ, pick) == k {
        assert Accounted(p, typ, pick);
      }
    case _ =>
  }

  /** The pool listed at `n'` after an event is a pool that the event has changed and kept. */
  lemma Stems(svc: Service, e: Event, n': nat) returns (n: nat)
    requires ListInv(svc) && Real(e) && !e.Alloc? && n' < |GuiExtPoolSpec.Apply(svc, e).pools|
    ensures n < |svc.pools| && GuiExtPoolSpec.Apply(svc, e).pools[n'] == Changed(svc.pools[n], e)
    ensures IsWanted(Changed(svc.pools[n], e)) && Changed(svc.pools[n], e).id == svc.pools[n].id
  {
    var all := AllChanged(svc.pools, e);
    StepIsPointwise(svc, e);
    var p := GuiExtPoolSpec.Apply(svc, e).pools[n'];
    KeepMembers(IsWanted, all, p);
    n :| 0 <= n < |all| && all[n] == p;
    ChangedKeepsId(svc.pools[n], e);
  }

  lemma Stays(svc: Service, e: Event, n: nat) returns (n': nat)
    requires Inv(svc) && InRange(e) && !e.Alloc? && n < |svc.pools| && IsWanted(Changed(svc.pools[n], e))
    ensures n' < |GuiExtPoolSpec.Apply(svc, e).pools|
    ensures GuiExtPoolSpec.Apply(svc, e).pools[n'] == Changed(svc.pools[n], e)
    ensures Changed(svc.pools[n], e).id == svc.pools[n].id
  {
    var all := AllChanged(svc.pools, e);
    StepIsPointwise(svc, e);
    var ps' := GuiExtPoolSpec.Apply(svc, e).pools;
    assert all[n] in all;
    KeepMembers(IsWanted, all, all[n]);
    n' :| 0 <= n' < |ps'| && ps'[n'] == all[n];
    ChangedKeepsId(svc.pools[n], e);
  }

  lemma StepMine(svc: Service, e: Event, pool: nat, t: nat, i: nat)
    requires Inv(svc) && InRange(e) && !e.Alloc?
    ensures Mine(GuiExtPoolSpec.Apply(svc, e), pool, t, i) <==>
            exists n :: 0 <= n < |svc.pools| && svc.pools[n].id == pool && KeptMine(svc.pools[n], e, t, i)
  {
    var ps, ps' := svc.pools, GuiExtPoolSpec.Apply(svc, e).pools;
    if n' :| 0 <= n' < |ps'| && ps'[n'].id == pool && MineIn(ps'[n'], t, i) {
      var n := Stems(svc, e, n');
      assert KeptMine(ps[n], e, t, i);
    }
    if n :| 0 <= n < |ps| && ps[n].id == pool && KeptMine(ps[n], e, t, i) {
      var n' := Stays(svc, e, n);
      assert MineIn(ps'[n'], t, i);
    }
  }

  ghost predicate KeptMine(p: Item, e: Event, t: nat, i: nat) {
    IsWanted(Changed(p, e)) && MineIn(Changed(p, e), t, i)
  }

  /** Other clients take a buffer away from this one only by releasing it or by removing its pool. */
  lemma OtherMine(svc: Service, e: Event, pool: nat, t: nat, i: nat)
    requires Inv(svc) && InRange(e) && IsOther(e) && t < 8 && i < 8
    ensures Mine(GuiExtPoolSpec.Apply(svc, e), pool, t, i) <==>
            Mine(svc, pool, t, i) && !Hits(e, pool, t, i) && !Removes(svc, e, pool)
  {
    if e.Alloc? {
      AllocMine(svc, e, pool, t, i);
    } else {
      StepMine(svc, e, pool, t, i);
      if n :| 0 <= n < |svc.pools| && svc.pools[n].id == pool {
        ChangedMine(svc.pools[n], e, t, i);
        OnlyAt(svc, e, n, t, i);
      }
    }
  }

  /** Ids being distinct, the pool at `n` decides. */
  lemma OnlyAt(svc: Service, e: Event, n: nat, t: nat, i: nat)
    requires Ascending(svc.pools) && n < |svc.pools|
    ensures var p := svc.pools[n];
      && (Mine(svc, p.id, t, i) <==> MineIn(p, t, i))
      && (Removes(svc, e, p.id) <==> Unwanted(Changed(p, e)))
      && ((exists m :: 0 <= m < |svc.pools| && svc.pools[m].id == p.id && KeptMine(svc.pools[m], e, t, i)) <==>
          KeptMine(p, e, t, i))
  {
    assert forall m :: 0 <= m < |svc.pools| && svc.pools[m].id == svc.pools[n].id ==> m == n;
  }

  lemma AllocMine(svc: Service, e: Event, pool: nat, t: nat, i: nat)
    requires Inv(svc) && InRange(e) && e.Alloc? && t < 8 && i < 8
    ensures Mine(GuiExtPoolSpec.Apply(svc, e), pool, t, i) <==> Mine(svc, pool, t, i)
    ensures !Removes(svc, e, pool)
  {
    if |svc.pools| < MAX_ALLOC_SIZE {
      var svc' := GuiExtPoolSpec.Apply(svc, e);
      var p := NewItem(NextId(svc), e.token, e.hwc, svc'.displays);
      InsertMembers(svc.pools, p);
      NewIsNotMine(p.id, e.token, e.hwc, svc'.displays, t, i);
      if n :| 0 <= n < |svc.pools| && svc.pools[n].id == pool && MineIn(svc.pools[n], t, i) {
        assert svc.pools[n] in svc'.pools;
      }
      if n :| 0 <= n < |svc'.pools| && svc'.pools[n].id == pool && MineIn(svc'.pools[n], t, i) {
        assert svc'.pools[n] in svc'.pools;
      }
    }
  }

  lemma NewIsNotMine(id: nat, token: nat, hwc: bool, displays: map<nat, nat>, t: nat, i: nat)
    ensures !MineIn(NewItem(id, token, hwc, displays), t, i)
  {
    var ds := if hwc then displays else map[];
    var ts, p := InOrder(ds.Keys), NewItem(id, token, hwc, displays);
    AddTypesIs(ts, ds);
    assert p.slots == AddTypes(ts, ds);
    assert forall k :: k in p.slots ==> p.slots[k].token == 0;
  }

  lemma ChangedTake(p: Item, usage: nat, typ: nat, pick: nat, t: nat, i: nat)
    requires Coherent(p) && t < 8 && i < 8
    ensures var r := GuiExtItemSpec.Acquire(p, ME, usage, typ, pick);
      && (r.0 == Ok ==> usage == HWC && typ < HWC_NUM_DISPLAY_TYPES && pick < 8)
      && (MineIn(r.1, t, i) <==> MineIn(p, t, i) || (r.0 == Ok && t == typ && i == pick))
  {
    AcquireKeepsCoherent(p, ME, usage, typ, pick);
    if GuiExtItemSpec.Acquire(p, ME, usage, typ, pick).0 == Ok {
      AcquireThenRelease(p, ME, usage, typ, pick);
      if Key(HWC, t, i) == Key(HWC, typ, pick) { KeyInjective(HWC, t, i, HWC, typ, pick); }
    }
  }

  /** The client's own acquire adds exactly the buffer that was granted. */
  lemma TakeMine(svc: Service, pool: nat, usage: nat, typ: nat, pick: nat, q: nat, t: nat, i: nat)
    requires Inv(svc) && t < 8 && i < 8
    ensures var e := GuiExtPoolSpec.Acquire(pool, ME, usage, typ, pick);
      Mine(GuiExtPoolSpec.Apply(svc, e), q, t, i) <==>
      Mine(svc, q, t, i) || (Grants(svc, pool, usage, typ, pick) && q == pool && t == typ && i == pick)
    ensures Grants(svc, pool, usage, typ, pick) ==> usage == HWC && typ < HWC_NUM_DISPLAY_TYPES && pick < 8
  {
    var e := GuiExtPoolSpec.Acquire(pool, ME, usage, typ, pick);
    var ps, n := svc.pools, Find(svc.pools, pool);
    StepMine(svc, e, q, t, i);
    forall m | 0 <= m < |ps| ensures ps[m].id == pool <==> m == n
      ensures KeptMine(ps[m], e, t, i) <==>
              MineIn(ps[m], t, i) || (m == n && Grants(svc, pool, usage, typ, pick) && t == typ && i == pick)
    {
      FindIs(ps, m);
      ChangedStaysWanted(ps[m], e);
      ChangedTake(ps[m], usage, typ, pick, t, i);
    }
    if n < |ps| { ChangedTake(ps[n], usage, typ, pick, t, i); }
  }

  // -------------------------------------------------------------------------
  // Marks
  // -------------------------------------------------------------------------

  /** Entries come from grants of the service. */
  ghost predicate JointInv(s: State) {
    && Inv(s.svc) && Keyed(s.es)
    && forall x :: x in s.es ==> x.usage == HWC && x.typ < HWC_NUM_DISPLAY_TYPES && x.idx < 8
  }

  /** Every buffer that the client marks as acquired is dequeued for it at the service. */
  ghost predicate Marks(s: State) {
    forall x :: x in s.es && x.acquired ==> Mine(s.svc, x.pool, x.typ, x.idx)
  }

  /** No marked buffer is released by the event, and no pool with a marked buffer removed. */
  ghost predicate NoneLost(s: State, e: Event) {
    forall x :: x in s.es && x.acquired ==> !Hits(e, x.pool, x.typ, x.idx) && !Removes(s.svc, e, x.pool)
  }

  /** What has to hold before a step for the marks to stay right: a refused acquire falls back on
      an entry whose buffer the client holds, and other events lose no marked buffer. */
  ghost predicate Safe(s: State, step: Step) {
    match step
    case Take(pool, usage, typ, pick, _, _) =>
      usage < USAGE_MAX && typ <= HWC_DISPLAY_VIRTUAL && !Grants(s.svc, pool, usage, typ, pick) ==>
        var b := FindBackup(s.es, pool, usage, typ);
        b < |s.es| ==> Mine(s.svc, s.es[b].pool, s.es[b].typ, s.es[b].idx)
    case Give(_, _, _, _) => true
    case Drop(_) => true
    case Leave(pool, usage) => usage < USAGE_MAX ==> NoneLost(s, GuiExtPoolSpec.Disconnect(pool, usage))
    case Other(e) => IsOther(e) ==> NoneLost(s, e)
  }

  lemma MarkedMembers(es: seq<Entry>, i: nat, mark: bool, x: Entry)
    requires i < |es|
    ensures x in Marked(es, i, mark) <==>
            x == es[i].(acquired := mark) || exists j :: 0 <= j < |es| && j != i && es[j] == x
  {
    var es' := Marked(es, i, mark);
    assert es'[i] == es[i].(acquired := mark);
    if j :| 0 <= j < |es| && j != i && es[j] == x { assert es'[j] == x; }
  }

  lemma EventKeepsMarksIff(s: State, e: Event)
    requires JointInv(s) && Marks(s) && InRange(e) && IsOther(e)
    ensures Marks(s.(svc := GuiExtPoolSpec.Apply(s.svc, e))) <==> NoneLost(s, e)
  {
    forall x | x in s.es && x.acquired
      ensures Mine(GuiExtPoolSpec.Apply(s.svc, e), x.pool, x.typ, x.idx) <==>
              !Hits(e, x.pool, x.typ, x.idx) && !Removes(s.svc, e, x.pool)
    {
      OtherMine(s.svc, e, x.pool, x.typ, x.idx);
    }
  }

  lemma TakeKeepsMarksIff(s: State, pool: nat, usage: nat, typ: nat, pick: nat, requested: bool, handle: nat)
    requires JointInv(s) && Marks(s) && usage < USAGE_MAX && typ <= HWC_DISPLAY_VIRTUAL
    ensures Marks(DoTake(s, pool, usage, typ, pick, requested, handle)) <==>
            Safe(s, Take(pool, usage, typ, pick, requested, handle))
  {
    var s' := DoTake(s, pool, usage, typ, pick, requested, handle);
    forall x | x in s.es
      ensures Mine(s'.svc, x.pool, x.typ, x.idx) <==>
        || Mine(s.svc, x.pool, x.typ, x.idx)
        || (Grants(s.svc, pool, usage, typ, pick) && x.pool == pool && x.typ == typ && x.idx == pick)
    {
      TakeMine(s.svc, pool, usage, typ, pick, x.pool, x.typ, x.idx);
    }
    if Grants(s.svc, pool, usage, typ, pick) {
      GrantKeepsMarks(s, pool, usage, typ, pick, requested, handle);
    } else {
      var b := FindBackup(s.es, pool, usage, typ);
      if b < |s.es| { BackupKeepsMarksIff(s, s', b); }
    }
  }

  lemma BackupKeepsMarksIff(s: State, s': State, b: nat)
    requires Marks(s) && b < |s.es| && s'.es == Marked(s.es, b, true)
    requires forall x :: x in s.es ==> (Mine(s'.svc, x.pool, x.typ, x.idx) <==> Mine(s.svc, x.pool, x.typ, x.idx))
    ensures Marks(s') <==> Mine(s.svc, s.es[b].pool, s.es[b].typ, s.es[b].idx)
  {
    var y := s.es[b].(acquired := true);
    assert s.es[b] in s.es;
    MarkedMembers(s.es, b, true, y);
    forall x | x in s'.es ensures x == y || x in s.es {
      MarkedMembers(s.es, b, true, x);
    }
  }

  lemma GrantKeepsMarks(s: State, pool: nat, usage: nat, typ: nat, pick: nat, requested: bool, handle: nat)
    requires JointInv(s) && Marks(s) && Grants(s.svc, pool, usage, typ, pick)
    ensures Marks(DoTake(s, pool, usage, typ, pick, requested, handle))
  {
    var s' := DoTake(s, pool, usage, typ, pick, requested, handle);
    var y := Entry(SlotKey(pool, usage, typ, pick), pool, usage, typ, pick, handle, true);
    TakeMine(s.svc, pool, usage, typ, pick, pool, typ, 0);
    TakeMine(s.svc, pool, usage, typ, pick, pool, typ, pick);
    forall x | x in s'.es && x.acquired ensures Mine(s'.svc, x.pool, x.typ, x.idx) {
      if x in s.es {
        TakeMine(s.svc, pool, usage, typ, pick, x.pool, x.typ, x.idx);
      } else {
        PutMembers(s.es, y, x);
      }
    }
  }

  /** A release of the buffer of entry `k`, which is unmarked or dropped with it, costs no other
      marked entry its buffer. */
  lemma ReleaseKeepsMarks(s: State, es': seq<Entry>, e: Event)
    requires JointInv(s) && Marks(s) && e.Release? && InRange(e)
    requires forall x :: x in es' && x.acquired ==> x in s.es && !Hits(e, x.pool, x.typ, x.idx)
    ensures Marks(State(GuiExtPoolSpec.Apply(s.svc, e), es'))
  {
    forall x | x in es' && x.acquired ensures Mine(GuiExtPoolSpec.Apply(s.svc, e), x.pool, x.typ, x.idx) {
      OtherMine(s.svc, e, x.pool, x.typ, x.idx);
      forall n | 0 <= n < |s.svc.pools| ensures !Unwanted(Changed(s.svc.pools[n], e)) {
        ChangedStaysWanted(s.svc.pools[n], e);
      }
    }
  }

  lemma GiveKeepsMarks(s: State, handle: nat, pool: nat, usage: nat, typ: nat)
    requires JointInv(s) && Marks(s)
    ensures Marks(DoGive(s, handle, pool, usage, typ))
  {
    var i := FindHandle(s.es, handle);
    if i < |s.es| {
      assert s.es[i] in s.es;
      var idx := s.es[i].idx;
      var k := FindKey(s.es, SlotKey(pool, usage, typ, idx));
      var e, es' := GuiExtPoolSpec.Release(pool, usage, typ, idx), Marked(s.es, k, false);
      forall x | x in es' && x.acquired ensures x in s.es && !Hits(e, x.pool, x.typ, x.idx) {
        var j :| 0 <= j < |es'| && es'[j] == x;
        assert j != k && x == s.es[j] && OwnKey(s.es[j]);
      }
      ReleaseKeepsMarks(s, es', e);
    }
  }

  lemma DropKeepsMarks(s: State, i: nat)
    requires JointInv(s) && Marks(s) && i < |s.es|
    ensures Marks(DoDrop(s, i))
  {
    var x := s.es[i];
    if x.acquired { GiveKeepsMarks(s, x.handle, x.pool, x.usage, x.typ); }
    var s1 := if x.acquired then DoGive(s, x.handle, x.pool, x.usage, x.typ) else s;
    assert forall y :: y in s1.es[..i] + s1.es[i + 1..] ==> y in s1.es;
  }

  /** Step by step, the marks stay right exactly under `Safe`. */
  lemma MarksKeptIff(s: State, step: Step)
    requires JointInv(s) && InBounds(step) && Marks(s)
    ensures Marks(Apply(s, step)) <==> Safe(s, step)
  {
    match step
    case Take(pool, usage, typ, pick, requested, handle) =>
      if usage < USAGE_MAX && typ <= HWC_DISPLAY_VIRTUAL {
        TakeKeepsMarksIff(s, pool, usage, typ, pick, requested, handle);
      }
    case Give(handle, pool, usage, typ) => GiveKeepsMarks(s, handle, pool, usage, typ);
    case Drop(key) =>
      if FindKey(s.es, key) < |s.es| { DropKeepsMarks(s, FindKey(s.es, key)); }
    case Leave(pool, usage) =>
      if usage < USAGE_MAX { EventKeepsMarksIff(s, GuiExtPoolSpec.Disconnect(pool, usage)); }
    case Other(e) => if IsOther(e) { EventKeepsMarksIff(s, e); }
  }

  // -------------------------------------------------------------------------
  // Runs
  // -------------------------------------------------------------------------

  lemma MarkedKeepsEntries(es: seq<Entry>, i: nat, mark: bool)
    requires Keyed(es)
    ensures Keyed(Marked(es, i, mark))
    ensures forall x :: x in Marked(es, i, mark) ==> exists y :: y in es && x == y.(acquired := x.acquired)
  {
    var es' := Marked(es, i, mark);
    forall x | x in es' ensures exists y :: y in es && x == y.(acquired := x.acquired) {
      var j :| 0 <= j < |es'| && es'[j] == x;
      assert es[j] in es && x == es[j].(acquired := x.acquired);
    }
    forall j | 0 <= j < |es'| ensures OwnKey(es'[j]) {
      assert OwnKey(es[j]);
    }
  }

  lemma TakeKeepsJoint(s: State, pool: nat, usage: nat, typ: nat, pick: nat, requested: bool, handle: nat)
    requires JointInv(s)
    ensures JointInv(DoTake(s, pool, usage, typ, pick, requested, handle))
  {
    var s' := DoTake(s, pool, usage, typ, pick, requested, handle);
    GuiExtPoolRuns.StepKeepsInv(s.svc, GuiExtPoolSpec.Acquire(pool, ME, usage, typ, pick));
    if Grants(s.svc, pool, usage, typ, pick) {
      var y := Entry(SlotKey(pool, usage, typ, pick), pool, usage, typ, pick, handle, true);
      TakeMine(s.svc, pool, usage, typ, pick, pool, 0, 0);
      PutKeepsKeyed(s.es, y);
      forall x | x in s'.es ensures x == y || x in s.es { PutMembers(s.es, y, x); }
    } else {
      MarkedKeepsEntries(s.es, FindBackup(s.es, pool, usage, typ), true);
    }
  }

  lemma StepKeepsJoint(s: State, step: Step)
    requires JointInv(s) && InBounds(step)
    ensures JointInv(Apply(s, step))
  {
    match step
    case Take(pool, usage, typ, pick, requested, handle) =>
      TakeKeepsJoint(s, pool, usage, typ, pick, requested, handle);
    case Give(handle, pool, usage, typ) => GiveKeepsJoint(s, handle, pool, usage, typ);
    case Drop(key) =>
      if FindKey(s.es, key) < |s.es| { DropKeepsJoint(s, FindKey(s.es, key)); }
    case Leave(pool, usage) =>
      if usage < USAGE_MAX { GuiExtPoolRuns.StepKeepsInv(s.svc, GuiExtPoolSpec.Disconnect(pool, usage)); }
    case Other(e) => GuiExtPoolRuns.StepKeepsInv(s.svc, e);
  }

  lemma GiveKeepsJoint(s: State, handle: nat, pool: nat, usage: nat, typ: nat)
    requires JointInv(s)
    ensures JointInv(DoGive(s, handle, pool, usage, typ))
  {
    var i := FindHandle(s.es, handle);
    if i < |s.es| {
      assert s.es[i] in s.es;
      var idx := s.es[i].idx;
      GuiExtPoolRuns.StepKeepsInv(s.svc, GuiExtPoolSpec.Release(pool, usage, typ, idx));
      MarkedKeepsEntries(s.es, FindKey(s.es, SlotKey(pool, usage, typ, idx)), false);
    }
  }

  lemma DropKeepsJoint(s: State, i: nat)
    requires JointInv(s) && i < |s.es|
    ensures JointInv(DoDrop(s, i))
  {
    var x := s.es[i];
    if x.acquired { GiveKeepsJoint(s, x.handle, x.pool, x.usage, x.typ); }
    var s1 := if x.acquired then DoGive(s, x.handle, x.pool, x.usage, x.typ) else s;
    RemoveKeepsJoint(s1, i);
  }

  lemma RemoveKeepsJoint(s: State, i: nat)
    requires JointInv(s) && i < |s.es|
    ensures JointInv(s.(es := s.es[..i] + s.es[i + 1..]))
  {
    RemovedStays(s.es, FindKey(s.es, s.es[i].key), i);
    assert forall y :: y in s.es[..i] + s.es[i + 1..] ==> y in s.es;
  }

  ghost predicate AllInBounds(steps: seq<Step>) { forall k :: 0 <= k < |steps| ==> InBounds(steps[k]) }

  lemma {:induction false} RunsKeepJoint(steps: seq<Step>)
    requires AllInBounds(steps)
    ensures JointInv(Exec(steps))
  {
    if steps != [] {
      RunsKeepJoint(steps[..|steps| - 1]);
      StepKeepsJoint(Exec(steps[..|steps| - 1]), steps[|steps| - 1]);
    }
  }

  ghost predicate AllSafe(steps: seq<Step>) {
    forall k :: 0 <= k < |steps| ==> Safe(Exec(steps[..k]), steps[k])
  }

  /** In every joint run of safe steps a buffer marked as acquired is dequeued for the client. */
  lemma {:induction false} MarksAreHeld(steps: seq<Step>)
    requires AllInBounds(steps) && AllSafe(steps)
    ensures Marks(Exec(steps))
  {
    if steps != [] {
      var rest := steps[..|steps| - 1];
      assert forall k :: 0 <= k < |rest| ==> rest[..k] == steps[..k];
      RunsKeepJoint(rest);
      MarksAreHeld(rest);
      MarksKeptIff(Exec(rest), steps[|steps| - 1]);
    }
  }

  /** From the start to the end of a run the marks are right exactly if all its steps are safe. */
  lemma {:induction false} MarksAlwaysHeldIff(steps: seq<Step>)
    requires AllInBounds(steps)
    ensures (forall k :: 0 <= k <= |steps| ==> Marks(Exec(steps[..k]))) <==> AllSafe(steps)
  {
    if AllSafe(steps) {
      forall k | 0 <= k <= |steps| ensures Marks(Exec(steps[..k])) {
        assert forall j :: 0 <= j < k ==> steps[..k][..j] == steps[..j];
        MarksAreHeld(steps[..k]);
      }
    }
    if forall k :: 0 <= k <= |steps| ==> Marks(Exec(steps[..k])) {
      forall k | 0 <= k < |steps| ensures Safe(Exec(steps[..k]), steps[k]) {
        assert steps[..k + 1][..k] == steps[..k];
        RunsKeepJoint(steps[..k]);
        assert Marks(Exec(steps[..k])) && Marks(Exec(steps[..k + 1]));
        MarksKeptIff(Exec(steps[..k]), steps[k]);
      }
    }
  }

  /** In every joint run: dropping an entry leaves its buffer dequeued for the client exactly when
      it was so before and the entry was not marked, or its handle leads to another index. */
  lemma DropLeavesHeldIff(steps: seq<Step>, i: nat)
    requires AllInBounds(steps) && i < |Exec(steps).es|
    ensures var s, x := Exec(steps), Exec(steps).es[i];
      Mine(DoDrop(s, i).svc, x.pool, x.typ, x.idx) <==>
      Mine(s.svc, x.pool, x.typ, x.idx) && !(x.acquired && LookedUp(s.es, i) == x.idx)
  {
    RunsKeepJoint(steps);
    DropOne(Exec(steps), i);
  }

  lemma DropOne(s: State, i: nat)
    requires JointInv(s) && i < |s.es|
    ensures var x := s.es[i];
      Mine(DoDrop(s, i).svc, x.pool, x.typ, x.idx) <==>
      Mine(s.svc, x.pool, x.typ, x.idx) && !(x.acquired && LookedUp(s.es, i) == x.idx)
  {
    var x, j := s.es[i], FindHandle(s.es, s.es[i].handle);
    assert x in s.es && j < |s.es| && s.es[j] in s.es;
    if x.acquired {
      var e := GuiExtPoolSpec.Release(x.pool, x.usage, x.typ, s.es[j].idx);
      OtherMine(s.svc, e, x.pool, x.typ, x.idx);
      forall n | 0 <= n < |s.svc.pools| ensures !Unwanted(Changed(s.svc.pools[n], e)) {
        ChangedStaysWanted(s.svc.pools[n], e);
      }
    }
  }

  // -------------------------------------------------------------------------
  // Runs in which marks and buffers part
  // -------------------------------------------------------------------------

  function OneBuffer(t: nat): map<nat, nat> { map[t := 1][PRIMARY := MAX_HWC_DEQUEUED_NUM] }

  /** The service has one pool, whose display `t` has one buffer, and `holder` holds it. */
  ghost predicate Alone(svc: Service, t: nat, holder: nat) {
    && |svc.pools| == 1 && svc.lastId == 1 && svc.displays == OneBuffer(t)
    && var p := svc.pools[0];
       && p.id == 1 && p.hwc && p.producer != 0 && p.connected <= {HWC}
       && Coherent(p) && t in p.queues && p.queues[t].num == 1
       && Key(HWC, t, 0) in p.slots && p.slots[Key(HWC, t, 0)].token == holder
  }

  lemma Next(steps: seq<Step>, step: Step) returns (steps': seq<Step>)
    requires AllInBounds(steps) && InBounds(step)
    ensures steps' == steps + [step] && AllInBounds(steps') && Exec(steps') == Apply(Exec(steps), step)
  {
    steps' := steps + [step];
    assert steps'[..|steps|] == steps;
  }

  /** A display with one buffer, and a pool. */
  function SetUpSteps(t: nat): seq<Step> { [Other(ConfigDisplay(t, true, 1, 1, 1)), Other(Alloc(2, true))] }

  lemma SetUp(t: nat)
    requires 0 < t < HWC_NUM_DISPLAY_TYPES
    ensures AllInBounds(SetUpSteps(t)) && Exec(SetUpSteps(t)).es == [] && Alone(Exec(SetUpSteps(t)).svc, t, 0)
  {
    var one := Next([], Other(ConfigDisplay(t, true, 1, 1, 1)));
    assert Exec(one) == State(Init.(displays := map[t := 1]), []);
    var two := Next(one, Other(Alloc(2, true)));
    assert two == SetUpSteps(t);
    AloneAlloc(t);
  }

  lemma AloneAlloc(t: nat)
    requires 0 < t < HWC_NUM_DISPLAY_TYPES
    ensures Alone(DoAlloc(Init.(displays := map[t := 1]), 2, true), t, 0)
  {
    var svc := Init.(displays := map[t := 1]);
    assert NextId(svc) == 1;
    NewAlone(svc, t);
  }

  lemma NewAlone(svc: Service, t: nat)
    requires 0 < t < HWC_NUM_DISPLAY_TYPES && svc.pools == [] && NextId(svc) == 1
    requires svc.displays[PRIMARY := MAX_HWC_DEQUEUED_NUM] == OneBuffer(t)
    ensures Alone(DoAlloc(svc, 2, true), t, 0)
  {
    var p := NewItem(1, 2, true, OneBuffer(t));
    NewItemIsCoherent(1, 2, true, OneBuffer(t));
    assert DoAlloc(svc, 2, true).pools == [p] && Accounted(p, t, 0);
  }

  lemma AloneAcquires(svc: Service, t: nat, token: nat)
    requires Alone(svc, t, 0) && token != 0
    ensures Alone(GuiExtPoolSpec.Apply(svc, GuiExtPoolSpec.Acquire(1, token, HWC, t, 0)), t, token)
    ensures Grants(svc, 1, HWC, t, 0)
  {
    var p, e := svc.pools[0], GuiExtPoolSpec.Acquire(1, token, HWC, t, 0);
    assert Accounted(p, t, 0);
    AcquireKeepsCoherent(p, token, HWC, t, 0);
    OnlyPool(svc, p, e);
  }

  lemma AloneReleases(svc: Service, t: nat, holder: nat)
    requires Alone(svc, t, holder)
    ensures Alone(GuiExtPoolSpec.Apply(svc, GuiExtPoolSpec.Release(1, HWC, t, 0)), t, 0)
  {
    var p, e := svc.pools[0], GuiExtPoolSpec.Release(1, HWC, t, 0);
    ReleaseKeepsCoherent(p, HWC, t, 0);
    OnlyPool(svc, p, e);
  }

  lemma AloneRefuses(svc: Service, t: nat, holder: nat, pick: nat)
    requires Alone(svc, t, holder) && holder != 0
    ensures !Grants(svc, 1, HWC, t, pick)
    ensures Alone(GuiExtPoolSpec.Apply(svc, GuiExtPoolSpec.Acquire(1, ME, HWC, t, pick)), t, holder)
  {
    var p, e := svc.pools[0], GuiExtPoolSpec.Acquire(1, ME, HWC, t, pick);
    assert Accounted(p, t, 0);
    OnlyPool(svc, p, e);
  }

  lemma AloneMine(svc: Service, t: nat, holder: nat)
    requires Alone(svc, t, holder)
    ensures Mine(svc, 1, t, 0) <==> holder == ME
  {
    OneMine(svc, svc.pools[0], t, 0);
  }

  lemma OneMine(svc: Service, p: Item, t: nat, i: nat)
    requires svc.pools == [p]
    ensures Mine(svc, p.id, t, i) <==> MineIn(p, t, i)
  {
    if MineIn(p, t, i) { assert svc.pools[0].id == p.id && MineIn(svc.pools[0], t, i); }
  }

  /** The client's entry for that buffer. */
  function Only(t: nat, mark: bool): Entry { Entry(SlotKey(1, HWC, t, 0), 1, HWC, t, 0, 7, mark) }

  lemma Takes(s: State, t: nat)
    requires t < HWC_NUM_DISPLAY_TYPES && s.es == [] && Alone(s.svc, t, 0)
    ensures var s' := Apply(s, Take(1, HWC, t, 0, true, 7)); s'.es == [Only(t, true)] && Alone(s'.svc, t, ME)
  {
    AloneAcquires(s.svc, t, ME);
  }

  lemma Gives(s: State, t: nat)
    requires t < HWC_NUM_DISPLAY_TYPES && s.es == [Only(t, true)] && Alone(s.svc, t, ME)
    ensures var s' := Apply(s, Give(7, 1, HWC, t)); s'.es == [Only(t, false)] && Alone(s'.svc, t, 0)
  {
    AloneReleases(s.svc, t, ME);
    assert FindHandle(s.es, 7) == 0 && FindKey(s.es, SlotKey(1, HWC, t, 0)) == 0;
  }

  lemma OtherTakes(s: State, t: nat)
    requires Alone(s.svc, t, 0)
    ensures var s' := Apply(s, Other(Acquire(1, 3, HWC, t, 0))); s'.es == s.es && Alone(s'.svc, t, 3)
  {
    AloneAcquires(s.svc, t, 3);
  }

  /** A refused acquire falls back on the entry. */
  lemma FallsBack(s: State, t: nat)
    requires t < HWC_NUM_DISPLAY_TYPES && s.es == [Only(t, false)] && Alone(s.svc, t, 3)
    ensures var s' := Apply(s, Take(1, HWC, t, 0, true, 7)); s'.es == [Only(t, true)] && Alone(s'.svc, t, 3)
  {
    AloneRefuses(s.svc, t, 3, 0);
    BackupOfOne(Only(t, false));
  }

  lemma BackupOfOne(x: Entry)
    requires !x.acquired
    ensures Marked([x], FindBackup([x], x.pool, x.usage, x.typ), true) == [x.(acquired := true)]
  {
    assert FindBackup([x], x.pool, x.usage, x.typ) == 0;
  }

  lemma Unheld(s: State, t: nat)
    requires s.es == [Only(t, true)] && Alone(s.svc, t, 3)
    ensures !Marks(s)
  {
    AloneMine(s.svc, t, 3);
    assert s.es[0] in s.es;
  }

  /** A granted acquire of a known buffer does not mark the entry. */
  lemma TakesAgain(s: State, t: nat)
    requires t < HWC_NUM_DISPLAY_TYPES && s.es == [Only(t, false)] && Alone(s.svc, t, 0)
    ensures var s' := Apply(s, Take(1, HWC, t, 0, true, 7)); s'.es == s.es && Alone(s'.svc, t, ME)
  {
    AloneAcquires(s.svc, t, ME);
    assert FindKey(s.es, SlotKey(1, HWC, t, 0)) == 0;
  }

  lemma DropsUnmarked(s: State, t: nat)
    requires s.es == [Only(t, false)] && Alone(s.svc, t, ME)
    ensures var s' := Apply(s, Drop(SlotKey(1, HWC, t, 0))); s'.es == [] && Mine(s'.svc, 1, t, 0)
  {
    assert FindKey(s.es, SlotKey(1, HWC, t, 0)) == 0;
    AloneMine(s.svc, t, ME);
  }

  /** Then the client acquires the buffer and gives it back. */
  function TakenSteps(t: nat): seq<Step> {
    SetUpSteps(t) + [Take(1, HWC, t, 0, true, 7)] + [Give(7, 1, HWC, t)]
  }

  lemma TakenAndGiven(t: nat)
    requires 0 < t < HWC_NUM_DISPLAY_TYPES
    ensures AllInBounds(TakenSteps(t)) && Exec(TakenSteps(t)).es == [Only(t, false)]
    ensures Alone(Exec(TakenSteps(t)).svc, t, 0)
  {
    SetUp(t);
    Takes(Exec(SetUpSteps(t)), t);
    var taken := Next(SetUpSteps(t), Take(1, HWC, t, 0, true, 7));
    Gives(Exec(taken), t);
    var given := Next(taken, Give(7, 1, HWC, t));
  }

  /** Then someone else acquires it, and the client's next acquire is refused: the client falls
      back on its entry and marks a buffer that the other one holds. */
  lemma FallbackMarksUnheld(t: nat) returns (steps: seq<Step>)
    requires 0 < t < HWC_NUM_DISPLAY_TYPES
    ensures AllInBounds(steps) && Exec(steps).es == [Only(t, true)] && Alone(Exec(steps).svc, t, 3)
    ensures !Marks(Exec(steps))
  {
    steps := TakenSteps(t);
    TakenAndGiven(t);
    OtherTakes(Exec(steps), t);
    steps := Next(steps, Other(Acquire(1, 3, HWC, t, 0)));
    FallsBack(Exec(steps), t);
    steps := Next(steps, Take(1, HWC, t, 0, true, 7));
    Unheld(Exec(steps), t);
  }

  /** Or the client acquires it again, which does not mark the entry, and disconnects: the entry is
      gone and the buffer stays dequeued. */
  lemma DisconnectKeepsBuffer(t: nat) returns (steps: seq<Step>)
    requires 0 < t < HWC_NUM_DISPLAY_TYPES
    ensures AllInBounds(steps) && Exec(steps).es == [] && Mine(Exec(steps).svc, 1, t, 0)
  {
    steps := TakenSteps(t);
    TakenAndGiven(t);
    TakesAgain(Exec(steps), t);
    steps := Next(steps, Take(1, HWC, t, 0, true, 7));
    DropsUnmarked(Exec(steps), t);
    steps := Next(steps, Drop(SlotKey(1, HWC, t, 0)));
  }
}
