/** The pool list of the GuiExt service, `GuiExtPool` in `mtk/gui_ext/lib/GuiExtImpl.cpp`, with the
    display device whose session mode follows the pools. A service call or a binder death is one
    event; a run is any sequence of events. */
module GuiExtPoolSpec {
  import opened GuiExtItemSpec

  const MAX_ALLOC_SIZE := 10
  const MAX_HWC_DEQUEUED_NUM := 3
  const PRIMARY := 0

  /** `pools` is ordered by id, as a keyed vector is; `displays` maps a display type to its buffer
      count; `refs` is `mVideoRefCount`, `decoupled` the mode last set by ioctl. */
  datatype Service = Service(lastId: nat, pools: seq<Item>, displays: map<nat, nat>, refs: int, decoupled: bool)

  const Init := Service(0, [], map[], 0, false)

  datatype Event =
    | Alloc(token: nat, hwc: bool)
    | Free(id: nat)
    | Acquire(id: nat, token: nat, usage: nat, typ: nat, pick: nat)
    | Release(id: nat, usage: nat, typ: nat, buf: nat)
    | Disconnect(id: nat, usage: nat)
    | ProducerDied(who: nat)
    | ConsumerDied(id: nat, who: nat)
    | ConfigDisplay(typ: nat, enable: bool, w: nat, h: nat, bufNum: nat)

  // -------------------------------------------------------------------------
  // Pool ids
  // -------------------------------------------------------------------------

  /** The id `k` steps after `last` in the cycle 1, 2, .., 10, 1, .. */
  function Cycle(last: nat, k: nat): nat { AsId((last + k) % MAX_ALLOC_SIZE) }

  function AsId(m: nat): nat { if m == 0 then MAX_ALLOC_SIZE else m }

  /** The first id from step `k` on that is not taken; gives up after a whole turn. */
  function FirstFree(last: nat, taken: set<nat>, k: nat): nat
    decreases MAX_ALLOC_SIZE - k
  {
    if Cycle(last, k) !in taken || k >= MAX_ALLOC_SIZE then Cycle(last, k) else FirstFree(last, taken, k + 1)
  }

  function Ids(pools: seq<Item>): set<nat> { set p | p in pools :: p.id }

  function NextId(s: Service): nat { FirstFree(s.lastId, Ids(s.pools), 1) }

  lemma {:induction false} IdsAreFew(pools: seq<Item>)
    ensures |Ids(pools)| <= |pools|
  {
    if pools != [] {
      IdsAreFew(pools[1..]);
      assert Ids(pools) == {pools[0].id} + Ids(pools[1..]);
    }
  }

  /** Pigeonhole: fewer than ten taken ids leave a free one in every turn of the cycle. */
  lemma SomeIdIsFree(last: nat, taken: set<nat>) returns (k: nat)
    requires |taken| < MAX_ALLOC_SIZE
    ensures 1 <= k <= MAX_ALLOC_SIZE && Cycle(last, k) !in taken
  {
    var ids := {1, 2, 3, 4, 5, 6, 7, 8, 9, 10};
    assert |ids| == 10;
    if ids <= taken { CardinalityGrows(ids, taken); assert false; }
    var id :| id in ids && id !in taken;
    k := StepsTo(last, id);
  }

  /** Every id comes up within one turn. */
  lemma StepsTo(last: nat, id: nat) returns (k: nat)
    requires 1 <= id <= MAX_ALLOC_SIZE
    ensures 1 <= k <= MAX_ALLOC_SIZE && Cycle(last, k) == id
  {
    var r := last % MAX_ALLOC_SIZE;
    k := if id > r then id - r else id - r + MAX_ALLOC_SIZE;
    var turns := last / MAX_ALLOC_SIZE + (if id > r then 0 else 1);
    assert last + k == MAX_ALLOC_SIZE * turns + id;
  }

  lemma {:induction false} CardinalityGrows(a: set<nat>, b: set<nat>)
    requires a <= b
    ensures |a| <= |b|
  {
    if a != {} {
      var x :| x in a;
      CardinalityGrows(a - {x}, b - {x});
    }
  }

  /** `getPoolId` picks the first free id in cyclic order after the previous one. */
  lemma {:induction false} FirstFreeIsFirst(last: nat, taken: set<nat>, k: nat, free: nat)
    requires 1 <= k <= free <= MAX_ALLOC_SIZE && Cycle(last, free) !in taken
    ensures var id := FirstFree(last, taken, k);
      && 1 <= id <= MAX_ALLOC_SIZE && id !in taken
      && exists j :: k <= j <= free && id == Cycle(last, j) && forall i :: k <= i < j ==> Cycle(last, i) in taken
    decreases free - k
  {
    if Cycle(last, k) in taken {
      FirstFreeIsFirst(last, taken, k + 1, free);
    }
  }

  lemma NextIdIsFree(s: Service)
    requires |s.pools| < MAX_ALLOC_SIZE
    ensures var id := NextId(s);
      && 1 <= id <= MAX_ALLOC_SIZE && id !in Ids(s.pools)
      && exists j :: 1 <= j <= MAX_ALLOC_SIZE && id == Cycle(s.lastId, j) &&
                     forall i :: 1 <= i < j ==> Cycle(s.lastId, i) in Ids(s.pools)
  {
    IdsAreFew(s.pools);
    var k := SomeIdIsFree(s.lastId, Ids(s.pools));
    FirstFreeIsFirst(s.lastId, Ids(s.pools), 1, k);
  }

  // -------------------------------------------------------------------------
  // The list
  // -------------------------------------------------------------------------

  function Find(pools: seq<Item>, id: nat): (i: nat)
    ensures i <= |pools|
    ensures i < |pools| ==> pools[i].id == id
    ensures forall j :: 0 <= j < i ==> pools[j].id != id
  {
    if pools == [] || pools[0].id == id then 0 else 1 + Find(pools[1..], id)
  }

  /** `KeyedVector::add` of a new key. */
  function Insert(pools: seq<Item>, p: Item): seq<Item> {
    if pools == [] || p.id < pools[0].id then [p] + pools else [pools[0]] + Insert(pools[1..], p)
  }

  /** Neither a producer nor a connected consumer. */
  predicate Unwanted(p: Item) { p.producer == 0 && p.connected == {} }

  /** `setOverlaySessionMode` from the constructor and the destructor of a pool. */
  function Start(s: Service): Service {
    s.(refs := s.refs + 1, decoupled := if s.refs + 1 == 1 then true else s.decoupled)
  }

  function Stop(s: Service): Service {
    s.(refs := s.refs - 1, decoupled := if s.refs - 1 == 0 then false else s.decoupled)
  }

  function Stops(s: Service, n: nat): Service
    decreases n
  {
    if n == 0 then s else Stops(Stop(s), n - 1)
  }

  /** A new list; each pool that left it has been destroyed. */
  function WithPools(s: Service, pools: seq<Item>): Service {
    Stops(s, if |pools| < |s.pools| then |s.pools| - |pools| else 0).(pools := pools)
  }

  /** `removePoolItemLocked`. */
  function Remove(pools: seq<Item>, id: nat): seq<Item> {
    var i := Find(pools, id);
    if i < |pools| && Unwanted(pools[i]) then pools[..i] + pools[i + 1..] else pools
  }

  function Orphaned(p: Item, who: nat): Item {
    if p.producer == who then p.(producer := 0) else p
  }

  /** What an event does to one pool, removal aside. */
  function Changed(p: Item, e: Event): Item {
    match e
    case Free(id) => if p.id == id then p.(producer := 0) else p
    case Acquire(id, token, usage, typ, pick) =>
      if p.id == id then GuiExtItemSpec.Acquire(p, token, usage, typ, pick).1 else p
    case Release(id, usage, typ, buf) => if p.id == id then GuiExtItemSpec.Release(p, usage, typ, buf).1 else p
    case Disconnect(id, usage) => if p.id == id then GuiExtItemSpec.Disconnect(p, usage).1 else p
    case ProducerDied(who) => Orphaned(p, who)
    case ConsumerDied(id, who) => if p.id == id then GuiExtItemSpec.ConsumerDied(p, who) else p
    case Alloc(_, _) => p
    case ConfigDisplay(_, _, _, _, _) => p
  }

  /** Changes the pool with the given id, if it is listed. */
  function Update(pools: seq<Item>, id: nat, e: Event): seq<Item> {
    var i := Find(pools, id);
    if i < |pools| then pools[i := Changed(pools[i], e)] else pools
  }

  /** The downward loop of the producer's death callback over the pools below `n`. */
  function SweepDown(pools: seq<Item>, who: nat, n: nat): seq<Item>
    decreases n
  {
    if n == 0 || n > |pools| then pools
    else SweepDown(SweepOne(pools, who, n - 1), who, n - 1)
  }

  /** One round of that loop. */
  function SweepOne(pools: seq<Item>, who: nat, i: nat): seq<Item>
    requires i < |pools|
  {
    if pools[i].producer == who then Remove(pools[i := Orphaned(pools[i], who)], pools[i].id) else pools
  }

  function DoAlloc(s: Service, token: nat, hwc: bool): Service {
    if |s.pools| >= MAX_ALLOC_SIZE then s
    else
      var displays := if s.pools == [] then s.displays[PRIMARY := MAX_HWC_DEQUEUED_NUM] else s.displays;
      var id := NextId(s);
      Start(s.(lastId := id, displays := displays, pools := Insert(s.pools, NewItem(id, token, hwc, displays))))
  }

  function Apply(s: Service, e: Event): Service {
    match e
    case Alloc(token, hwc) => DoAlloc(s, token, hwc)
    case Free(id) => WithPools(s, Remove(Update(s.pools, id, e), id))
    case Acquire(id, _, _, _, _) => WithPools(s, Update(s.pools, id, e))
    case Release(id, _, _, _) => WithPools(s, Update(s.pools, id, e))
    case Disconnect(id, _) => WithPools(s, Remove(Update(s.pools, id, e), id))
    case ProducerDied(who) => WithPools(s, SweepDown(s.pools, who, |s.pools|))
    case ConsumerDied(id, _) =>
      var pools := Update(s.pools, id, e);
      var i := Find(pools, id);
      WithPools(s, if i < |pools| && pools[i].connected == {} then Remove(pools, id) else pools)
    case ConfigDisplay(typ, enable, w, h, bufNum) =>
      if !enable || w == 0 || h == 0 || bufNum == 0 then s.(displays := s.displays - {typ})
      else s.(displays := s.displays[typ := bufNum])
  }

  function Exec(es: seq<Event>): Service {
    if es == [] then Init else Apply(Exec(es[..|es| - 1]), es[|es| - 1])
  }

  /** A pool is allocated in the name of a binder, and it is a binder that dies. */
  ghost predicate Real(e: Event) {
    (e.Alloc? ==> e.token != 0) && (e.ProducerDied? ==> e.who != 0)
  }

  /** Within the limits of the packed keys: real binders, known display types, at most 8 buffers
      per type, released indices below 8, and a usage that has a flag to set. */
  ghost predicate InRange(e: Event) {
    match e
    case Alloc(token, _) => token != 0
    case Acquire(_, token, _, _, _) => token != 0
    case Release(_, _, _, buf) => buf < 8
    case ProducerDied(who) => who != 0
    case ConsumerDied(_, who) => who != 0
    case ConfigDisplay(typ, _, _, _, bufNum) => typ < HWC_NUM_DISPLAY_TYPES && bufNum <= 8
    case Free(_) => true
    case Disconnect(_, usage) => usage < USAGE_MAX
  }
}
