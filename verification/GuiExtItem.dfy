/** One buffer pool of the GuiExt service, `GuiExtPoolItem` in `mtk/gui_ext/lib/GuiExtImpl.cpp`:
    per display type a buffer queue, and one consumer slot per buffer, stored under a packed key.
    A buffer queue is the set of its dequeued indices. A token is a binder, 0 being NULL. */
module GuiExtItemSpec {

  const GPU := 0
  const HWC := 1
  const USAGE_MAX := 2
  const HWC_NUM_DISPLAY_TYPES := 3

  // -------------------------------------------------------------------------
  // Packed keys
  // -------------------------------------------------------------------------

  /** Bitwise or. */
  function BitOr(a: nat, b: nat): nat {
    if a == 0 then b
    else if b == 0 then a
    else 2 * BitOr(a / 2, b / 2) + (if a % 2 == 1 || b % 2 == 1 then 1 else 0)
  }

  /** Left shift. */
  function Shl(x: nat, k: nat): nat { if k == 0 then x else 2 * Shl(x, k - 1) }

  /** `POOL_COMBINED_ID(usage, type, idx)`. */
  function Key(usage: nat, typ: nat, idx: nat): nat {
    BitOr(BitOr(Shl(usage, 6), Shl(typ, 3)), idx)
  }

  /** Bits below a shift do not meet the shifted number. */
  lemma {:induction false} OrIsSum(high: nat, k: nat, low: nat)
    requires low < Shl(1, k)
    ensures BitOr(Shl(high, k), low) == Shl(high, k) + low
  {
    if k > 0 {
      OrIsSum(high, k - 1, low / 2);
      var h := Shl(high, k - 1);
      assert BitOr(2 * h, low) == 2 * BitOr(h, low / 2) + low % 2;
    }
  }

  lemma ShlIs(x: nat)
    ensures Shl(x, 3) == 8 * x && Shl(x, 4) == 16 * x && Shl(x, 6) == 64 * x && Shl(x, 10) == 1024 * x
  {
    assert Shl(x, 1) == 2 * x && Shl(x, 2) == 4 * x && Shl(x, 5) == 2 * Shl(x, 4);
    assert Shl(x, 8) == 4 * Shl(x, 6) && Shl(x, 10) == 4 * Shl(x, 8);
  }

  lemma Or3(high: nat, low: nat)
    requires low < 8
    ensures BitOr(8 * high, low) == 8 * high + low
  {
    ShlIs(1);
    ShlIs(high);
    OrIsSum(high, 3, low);
  }

  lemma Or6(high: nat, low: nat)
    requires low < 64
    ensures BitOr(64 * high, low) == 64 * high + low
  {
    ShlIs(1);
    ShlIs(high);
    OrIsSum(high, 6, low);
  }

  lemma Or10(high: nat, low: nat)
    requires low < 1024
    ensures BitOr(1024 * high, low) == 1024 * high + low
  {
    ShlIs(1);
    ShlIs(high);
    OrIsSum(high, 10, low);
  }

  lemma KeyIsSum(usage: nat, typ: nat, idx: nat)
    requires typ < 8 && idx < 8
    ensures Key(usage, typ, idx) == 64 * usage + 8 * typ + idx
  {
    ShlIs(usage);
    ShlIs(typ);
    Or6(usage, 8 * typ);
    Or3(8 * usage + typ, idx);
  }

  /** The packing is injective as long as type and index stay below 8. */
  lemma KeyInjective(u: nat, t: nat, i: nat, u': nat, t': nat, i': nat)
    requires t < 8 && i < 8 && t' < 8 && i' < 8 && Key(u, t, i) == Key(u', t', i')
    ensures u == u' && t == t' && i == i'
  {
    KeyIsSum(u, t, i);
    KeyIsSum(u', t', i');
  }

  /** At index 8 it is not: buffer 8 of an even display type has the key of buffer 0 of the next. */
  lemma KeyCollides(u: nat, h: nat)
    requires h < 4
    ensures Key(u, 2 * h, 8) == Key(u, 2 * h + 1, 0)
  {
    KeyIsSum(u, 2 * h, 0);
    KeyIsSum(u, 2 * h + 1, 0);
    ShlIs(1);
    ShlIs(4 * u + h);
    OrIsSum(4 * u + h, 4, 8);
    var high := BitOr(Shl(u, 6), Shl(2 * h, 3));
    assert BitOr(high, 0) == high == Shl(4 * u + h, 4);
  }

  // -------------------------------------------------------------------------
  // The pool
  // -------------------------------------------------------------------------

  datatype Slot = Slot(token: nat, usage: nat, typ: nat, idx: nat)

  /** A buffer queue with `num` buffers, `held` of them dequeued. */
  datatype Bq = Bq(num: nat, held: set<nat>)

  /** `connected` are the usages whose `mIsDisconnected` flag is false. */
  datatype Item = Item(
    id: nat, hwc: bool, producer: nat, connected: set<nat>, queues: map<nat, Bq>, slots: map<nat, Slot>)

  datatype Status = Ok | InvalidOperation | BadIndex | WouldBlock | NotEnoughData

  /** Every dequeued buffer is accounted for: an index is dequeued exactly when its slot holds a
      token, and every slot is stored under the key of its own fields. */
  ghost predicate Coherent(p: Item) {
    && (!p.hwc ==> p.queues == map[])
    && (forall t :: t in p.queues ==> t < HWC_NUM_DISPLAY_TYPES && p.queues[t].num <= 8)
    && (forall t, i :: t in p.queues && i in p.queues[t].held ==> i < p.queues[t].num)
    && (forall k :: k in p.slots ==> Own(p, k))
    && (forall t, i :: t in p.queues && 0 <= i < p.queues[t].num ==> Accounted(p, t, i))
  }

  ghost predicate Own(p: Item, k: nat)
    requires k in p.slots
  {
    var s := p.slots[k];
    s.usage == HWC && s.typ in p.queues && s.idx < p.queues[s.typ].num && k == Key(HWC, s.typ, s.idx)
  }

  ghost predicate Accounted(p: Item, t: nat, i: nat)
    requires t in p.queues
  {
    var k := Key(HWC, t, i);
    k in p.slots && (i in p.queues[t].held <==> p.slots[k].token != 0)
  }

  /** Weaker than `Coherent`, and true of every pool whatever its number of buffers: each slot is
      stored under the key of its own fields, and one with a token has a queue. */
  ghost predicate OwnKeyed(p: Item) {
    forall k :: k in p.slots ==> OwnSlot(p, k)
  }

  ghost predicate OwnSlot(p: Item, k: nat)
    requires k in p.slots
  {
    var s := p.slots[k];
    s.usage == HWC && k == Key(HWC, s.typ, s.idx) && (s.token != 0 ==> p.hwc && HasQueue(p, HWC, s.typ))
  }

  /** `getIGraphicBufferProducer` finds a queue. The GPU queue is never created. */
  predicate HasQueue(p: Item, usage: nat, typ: nat) {
    usage == HWC && typ < HWC_NUM_DISPLAY_TYPES && typ in p.queues
  }

  function Dequeued(q: Bq, i: nat): Bq { q.(held := q.held + {i}) }

  function Cancelled(q: Bq, i: nat): Bq { q.(held := q.held - {i}) }

  /** `GuiExtPoolItem::acquire`; `pick` is the index that the queue's `dequeueBuffer` returns. */
  function Acquire(p: Item, token: nat, usage: nat, typ: nat, pick: nat): (Status, Item) {
    if !p.hwc && usage == HWC then (InvalidOperation, p)
    else if !HasQueue(p, usage, typ) then (BadIndex, p)
    else
      var q := p.queues[typ];
      if pick >= q.num || pick in q.held then (WouldBlock, p)
      else
        var p1 := p.(queues := p.queues[typ := Dequeued(q, pick)]);
        var k := Key(usage, typ, pick);
        if k !in p.slots then (BadIndex, p1)
        else
          (Ok, p1.(connected := p.connected + {usage},
                   slots := if p.slots[k].token == 0 then p.slots[k := Slot(token, usage, typ, pick)] else p.slots))
  }

  /** `GuiExtPoolItem::release`. */
  function Release(p: Item, usage: nat, typ: nat, buf: nat): (Status, Item) {
    if !p.hwc && usage == HWC then (InvalidOperation, p)
    else if !HasQueue(p, usage, typ) then (BadIndex, p)
    else
      var k := Key(usage, typ, buf);
      (Ok, p.(queues := p.queues[typ := Cancelled(p.queues[typ], buf)],
              slots := if k in p.slots then p.slots[k := p.slots[k].(token := 0)] else p.slots))
  }

  /** `GuiExtPoolItem::disconnect`. */
  function Disconnect(p: Item, usage: nat): (Status, Item) {
    if !p.hwc && usage == HWC then (InvalidOperation, p) else (Ok, p.(connected := p.connected - {usage}))
  }

  /** The death of consumer `who` as one step: its buffers go back, and a usage counts as
      connected from now on exactly while one of its slots holds a token. */
  function ConsumerDied(p: Item, who: nat): Item {
    var p' := Returned(p, who, p.slots.Keys);
    p'.(connected := set k | k in p'.slots && p'.slots[k].token != 0 :: p'.slots[k].usage)
  }

  /** Those buffers of `who` given back whose slots are among `ks`. */
  function Returned(p: Item, who: nat, ks: set<nat>): Item {
    p.(slots := map k | k in p.slots ::
                  if k in ks && p.slots[k].token == who then p.slots[k].(token := 0) else p.slots[k],
       queues := map t | t in p.queues :: p.queues[t].(held := p.queues[t].held - HeldBy(p, who, t, ks)))
  }

  /** The indices of type `t` whose slot is among `ks` and holds the token `who`. */
  function HeldBy(p: Item, who: nat, t: nat, ks: set<nat>): set<nat> {
    set k | k in ks && k in p.slots && p.slots[k].token == who && p.slots[k].typ == t :: p.slots[k].idx
  }

  // -------------------------------------------------------------------------
  // What every operation keeps
  // -------------------------------------------------------------------------

  lemma AcquireKeepsCoherent(p: Item, token: nat, usage: nat, typ: nat, pick: nat)
    requires Coherent(p) && token != 0
    ensures Coherent(Acquire(p, token, usage, typ, pick).1)
    ensures Acquire(p, token, usage, typ, pick).0 != Ok ==> Acquire(p, token, usage, typ, pick).1 == p
  {
    var p' := Acquire(p, token, usage, typ, pick).1;
    if p' != p {
      assert Accounted(p, typ, pick);
      var k := Key(HWC, typ, pick);
      assert Own(p, k);
      forall t, i | t in p'.queues && 0 <= i < p'.queues[t].num ensures Accounted(p', t, i) {
        assert Accounted(p, t, i);
        if Key(HWC, t, i) == k { KeyInjective(HWC, t, i, HWC, typ, pick); }
      }
      forall j | j in p'.slots ensures Own(p', j) {
        assert j in p.slots && Own(p, j);
      }
    }
  }

  /** An acquire is granted exactly for a free buffer of a display that the composer has in the pool. */
  lemma AcquireGrantedIff(p: Item, token: nat, usage: nat, typ: nat, pick: nat)
    requires Coherent(p) && token != 0
    ensures Acquire(p, token, usage, typ, pick).0 == Ok <==>
            p.hwc && usage == HWC && typ in p.queues && pick < p.queues[typ].num && pick !in p.queues[typ].held
    ensures Acquire(p, token, usage, typ, pick).0 == WouldBlock <==>
            p.hwc && usage == HWC && typ in p.queues && !(pick < p.queues[typ].num && pick !in p.queues[typ].held)
    ensures Acquire(p, token, usage, typ, pick).0 == InvalidOperation <==> usage == HWC && !p.hwc
  {
    if typ in p.queues && pick < p.queues[typ].num { assert Accounted(p, typ, pick); }
  }

  /** A release succeeds exactly for a display in the pool; it returns exactly that buffer and clears
      exactly its slot. */
  lemma ReleaseIsExact(p: Item, usage: nat, typ: nat, buf: nat, t: nat, i: nat)
    requires Coherent(p) && buf < 8 && t in p.queues && i < p.queues[t].num
    ensures var p' := Release(p, usage, typ, buf).1;
      && (Release(p, usage, typ, buf).0 == Ok <==> p.hwc && usage == HWC && typ in p.queues)
      && t in p'.queues && p'.queues[t].num == p.queues[t].num && p'.connected == p.connected
      && (i in p'.queues[t].held <==> i in p.queues[t].held && !(usage == HWC && t == typ && i == buf))
      && Key(HWC, t, i) in p.slots && Key(HWC, t, i) in p'.slots
      && p'.slots[Key(HWC, t, i)].token ==
           if usage == HWC && t == typ && i == buf then 0 else p.slots[Key(HWC, t, i)].token
  {
    assert Accounted(p, t, i);
    if Key(HWC, t, i) == Key(HWC, typ, buf) && typ < 8 { KeyInjective(HWC, t, i, HWC, typ, buf); }
  }

  /** A granted acquire takes a free buffer and records its holder; releasing it restores the
      buffers and the slots. */
  lemma AcquireThenRelease(p: Item, token: nat, usage: nat, typ: nat, pick: nat)
    requires Coherent(p) && token != 0 && Acquire(p, token, usage, typ, pick).0 == Ok
    ensures var p1, k := Acquire(p, token, usage, typ, pick).1, Key(usage, typ, pick);
      && k in p1.slots && p1.slots[k] == Slot(token, usage, typ, pick) && usage in p1.connected
      && pick !in p.queues[typ].held && pick in p1.queues[typ].held
      && Release(p1, usage, typ, pick).1 == p.(connected := p1.connected)
  {
    var p1, k := Acquire(p, token, usage, typ, pick).1, Key(usage, typ, pick);
    assert Accounted(p, typ, pick) && Own(p, k);
    KeyInjective(HWC, typ, pick, HWC, p.slots[k].typ, p.slots[k].idx);
    var p2 := Release(p1, usage, typ, pick).1;
    assert p2.queues[typ].held == p.queues[typ].held;
    assert p2.queues == p.queues && p2.slots == p.slots;
  }

  /** A release keeps the account unless the index is 8 or more and its key is that of another
      buffer which is held: then that buffer's token is lost. */
  lemma ReleaseKeepsCoherentIff(p: Item, usage: nat, typ: nat, buf: nat)
    requires Coherent(p) && HasQueue(p, usage, typ)
    ensures Coherent(Release(p, usage, typ, buf).1) <==>
            buf < 8 || Key(usage, typ, buf) !in p.slots || p.slots[Key(usage, typ, buf)].token == 0
  {
    var k := Key(usage, typ, buf);
    var p' := Release(p, usage, typ, buf).1;
    if k in p.slots && p.slots[k].token != 0 && buf >= 8 {
      assert Own(p, k);
      var t, i := p.slots[k].typ, p.slots[k].idx;
      assert Accounted(p, t, i);
      assert !Accounted(p', t, i);
    } else {
      ReleaseKeepsCoherent(p, usage, typ, buf);
    }
  }

  lemma ReleaseKeepsCoherent(p: Item, usage: nat, typ: nat, buf: nat)
    requires Coherent(p) && HasQueue(p, usage, typ)
    requires buf < 8 || Key(usage, typ, buf) !in p.slots || p.slots[Key(usage, typ, buf)].token == 0
    ensures Coherent(Release(p, usage, typ, buf).1)
  {
    var k := Key(usage, typ, buf);
    var p' := Release(p, usage, typ, buf).1;
    forall j | j in p'.slots ensures Own(p', j) {
      assert Own(p, j);
    }
    forall t, i | t in p'.queues && 0 <= i < p'.queues[t].num ensures Accounted(p', t, i) {
      assert Accounted(p, t, i);
      if Key(HWC, t, i) == k && buf < 8 { KeyInjective(HWC, t, i, HWC, typ, buf); }
    }
  }

  /** The death of a consumer gives back exactly the indices it held and clears exactly its own
      slots; the account stays right. */
  lemma ConsumerDiedKeepsCoherent(p: Item, who: nat)
    requires Coherent(p) && who != 0
    ensures Coherent(ConsumerDied(p, who))
  {
    var p' := ConsumerDied(p, who);
    forall j | j in p'.slots ensures Own(p', j) {
      assert Own(p, j);
    }
    forall t, i | t in p'.queues && 0 <= i < p'.queues[t].num ensures Accounted(p', t, i) {
      assert Accounted(p, t, i);
      HeldByIs(p, who, t, i);
    }
  }

  lemma HeldByIs(p: Item, who: nat, t: nat, i: nat)
    requires Coherent(p) && t in p.queues && i < p.queues[t].num
    ensures Key(HWC, t, i) in p.slots
    ensures i in HeldBy(p, who, t, p.slots.Keys) <==> p.slots[Key(HWC, t, i)].token == who
  {
    var k := Key(HWC, t, i);
    assert Accounted(p, t, i) && Own(p, k);
    KeyInjective(HWC, t, i, HWC, p.slots[k].typ, p.slots[k].idx);
    if i in HeldBy(p, who, t, p.slots.Keys) {
      var j :| j in p.slots && p.slots[j].token == who && p.slots[j].typ == t && p.slots[j].idx == i;
      assert Own(p, j);
    }
  }

  lemma ConsumerDiedIsExact(p: Item, who: nat, t: nat, i: nat)
    requires Coherent(p) && who != 0 && t in p.queues && i < p.queues[t].num
    ensures var k, p' := Key(HWC, t, i), ConsumerDied(p, who);
      && k in p.slots && k in p'.slots && t in p'.queues
      && (i in p.queues[t].held && i !in p'.queues[t].held <==> p.slots[k].token == who)
      && (p.slots[k].token != who ==> p'.slots[k] == p.slots[k])
      && (i in p'.queues[t].held ==> i in p.queues[t].held)
  {
    assert Accounted(p, t, i);
    HeldByIs(p, who, t, i);
  }

  /** After the death of a consumer the pool counts as connected exactly while some buffer is
      still held by another one. */
  lemma DeathLeavesConnected(p: Item, who: nat)
    requires Coherent(p) && who != 0
    ensures var p' := ConsumerDied(p, who);
      p'.connected == {} <==> forall t :: t in p'.queues ==> p'.queues[t].held == {}
  {
    ConsumerDiedKeepsCoherent(p, who);
    var p' := ConsumerDied(p, who);
    if t :| t in p'.queues && p'.queues[t].held != {} {
      var i :| i in p'.queues[t].held;
      assert Accounted(p', t, i);
      assert p'.slots[Key(HWC, t, i)].usage in p'.connected;
    }
    if p'.connected != {} {
      var k :| k in p'.slots && p'.slots[k].token != 0;
      assert Own(p', k);
      assert Accounted(p', p'.slots[k].typ, p'.slots[k].idx);
    }
  }

  // -------------------------------------------------------------------------
  // A new pool
  // -------------------------------------------------------------------------

  /** Display configurations the packing can carry: known types, at most 8 buffers each. */
  ghost predicate Fits(displays: map<nat, nat>) {
    forall t :: t in displays ==> t < HWC_NUM_DISPLAY_TYPES && displays[t] <= 8
  }

  /** The slot of buffer `i` of type `t`, unless its key is taken already. */
  function AddSlot(slots: map<nat, Slot>, t: nat, i: nat): map<nat, Slot> {
    var k := Key(HWC, t, i);
    if k in slots then slots else slots[k := Slot(0, HWC, t, i)]
  }

  /** The slots of the first `n` buffers of type `t`, in order. */
  function AddType(slots: map<nat, Slot>, t: nat, n: nat): map<nat, Slot> {
    if n == 0 then slots else AddSlot(AddType(slots, t, n - 1), t, n - 1)
  }

  function AddTypes(ts: seq<nat>, ds: map<nat, nat>): map<nat, Slot>
    requires forall t :: t in ts ==> t in ds
  {
    if ts == [] then map[]
    else
      var n := |ts| - 1;
      assert ts[n] in ts;
      AddType(AddTypes(ts[..n], ds), ts[n], ds[ts[n]])
  }

  lemma {:induction false} LeastExists(s: set<nat>) returns (m: nat)
    requires s != {}
    ensures m in s && forall x :: x in s ==> m <= x
  {
    m :| m in s;
    var rest := s - {m};
    if rest != {} {
      var n := LeastExists(rest);
      assert forall x :: x in s ==> x == m || x in rest;
      if n < m { m := n; }
    } else {
      assert s == {m};
    }
  }

  function Least(s: set<nat>): (m: nat)
    requires s != {}
    ensures m in s && forall x :: x in s ==> m <= x
  {
    assert exists m :: m in s && forall x :: x in s ==> m <= x by { var m := LeastExists(s); }
    var m :| m in s && forall x :: x in s ==> m <= x;
    m
  }

  /** The keys of a keyed vector, in its order. */
  function InOrder(s: set<nat>): (ts: seq<nat>)
    ensures forall t :: t in ts <==> t in s
  {
    if s == {} then [] else [Least(s)] + InOrder(s - {Least(s)})
  }

  function NewItem(id: nat, token: nat, hwc: bool, displays: map<nat, nat>): Item {
    var ds := if hwc then displays else map[];
    Item(id, hwc, token, {}, map t | t in ds :: Bq(ds[t], {}), AddTypes(InOrder(ds.Keys), ds))
  }

  /** A slot without token, stored under the key of its own fields. */
  predicate IsFresh(k: nat, s: Slot) {
    s.token == 0 && s.usage == HWC && k == Key(HWC, s.typ, s.idx)
  }

  /** Every buffer of the type has a slot, the new ones are fresh, and the old ones as before. */
  ghost predicate Prepared(slots: map<nat, Slot>, slots': map<nat, Slot>, t: nat, n: nat) {
    && (forall k :: k in slots ==> k in slots' && slots'[k] == slots[k])
    && (forall k :: k in slots' && k !in slots ==>
          IsFresh(k, slots'[k]) && slots'[k].typ == t && slots'[k].idx < n)
    && (forall i :: 0 <= i < n ==> Key(HWC, t, i) in slots')
  }

  /** Preparing a type gives every buffer a slot under its key, adds none but such slots, and
      changes none that was there. */
  lemma {:induction false} AddTypeIs(slots: map<nat, Slot>, t: nat, n: nat)
    ensures Prepared(slots, AddType(slots, t, n), t, n)
  {
    if n > 0 {
      var slots1, key := AddType(slots, t, n - 1), Key(HWC, t, n - 1);
      AddTypeIs(slots, t, n - 1);
      assert AddType(slots, t, n) == if key in slots1 then slots1 else slots1[key := Slot(0, HWC, t, n - 1)];
      PreparedNext(slots, slots1, t, n - 1, key);
    }
  }

  lemma PreparedNext(slots: map<nat, Slot>, slots1: map<nat, Slot>, t: nat, i: nat, key: nat)
    requires Prepared(slots, slots1, t, i) && key == Key(HWC, t, i)
    ensures Prepared(slots, if key in slots1 then slots1 else slots1[key := Slot(0, HWC, t, i)], t, i + 1)
  {
    var slots2 := if key in slots1 then slots1 else slots1[key := Slot(0, HWC, t, i)];
    forall j | 0 <= j <= i ensures Key(HWC, t, j) in slots2 {
      if j < i { assert Key(HWC, t, j) in slots1; }
    }
  }

  ghost predicate FreshIn(k: nat, s: Slot, ts: seq<nat>, ds: map<nat, nat>) {
    IsFresh(k, s) && s.typ in ts && s.typ in ds && s.idx < ds[s.typ]
  }

  lemma {:induction false} AddTypesIs(ts: seq<nat>, ds: map<nat, nat>)
    requires forall t :: t in ts ==> t in ds
    ensures forall k :: k in AddTypes(ts, ds) ==> FreshIn(k, AddTypes(ts, ds)[k], ts, ds)
    ensures forall t, i :: t in ts && 0 <= i < ds[t] ==> Key(HWC, t, i) in AddTypes(ts, ds)
  {
    if ts != [] {
      var n := |ts| - 1;
      AddTypesIs(ts[..n], ds);
      assert ts == ts[..n] + [ts[n]] && ts[n] in ts;
      var before, slots := AddTypes(ts[..n], ds), AddTypes(ts, ds);
      AddTypeIs(before, ts[n], ds[ts[n]]);
      assert slots == AddType(before, ts[n], ds[ts[n]]);
      forall k | k in slots ensures FreshIn(k, slots[k], ts, ds) {
        if k in before { assert FreshIn(k, before[k], ts[..n], ds) && slots[k] == before[k]; }
      }
    }
  }

  lemma NewItemIsOwnKeyed(id: nat, token: nat, hwc: bool, displays: map<nat, nat>)
    ensures OwnKeyed(NewItem(id, token, hwc, displays))
  {
    var p := NewItem(id, token, hwc, displays);
    var ds := if hwc then displays else map[];
    var ts := InOrder(ds.Keys);
    AddTypesIs(ts, ds);
    assert p.slots == AddTypes(ts, ds);
    forall k | k in p.slots ensures OwnSlot(p, k) {
      assert FreshIn(k, p.slots[k], ts, ds);
    }
  }

  /** A new pool is its producer's, nobody is connected to it, and it has every buffer of every
      configured display to give, and no other. */
  lemma NewItemServes(id: nat, token: nat, hwc: bool, displays: map<nat, nat>, who: nat, t: nat, i: nat)
    requires Fits(displays) && who != 0
    ensures var p := NewItem(id, token, hwc, displays);
      && p.id == id && p.producer == token && p.hwc == hwc && p.connected == {}
      && (Acquire(p, who, HWC, t, i).0 == Ok <==> hwc && t in displays && i < displays[t])
  {
    NewItemIsCoherent(id, token, hwc, displays);
    AcquireGrantedIff(NewItem(id, token, hwc, displays), who, HWC, t, i);
  }

  lemma NewItemIsCoherent(id: nat, token: nat, hwc: bool, displays: map<nat, nat>)
    requires Fits(displays)
    ensures Coherent(NewItem(id, token, hwc, displays))
  {
    var p := NewItem(id, token, hwc, displays);
    var ds := if hwc then displays else map[];
    var ts := InOrder(ds.Keys);
    AddTypesIs(ts, ds);
    assert p.slots == AddTypes(ts, ds);
    forall k | k in p.slots ensures Own(p, k) {
      assert FreshIn(k, p.slots[k], ts, ds);
    }
    forall t, i | t in p.queues && 0 <= i < p.queues[t].num ensures Accounted(p, t, i) {
      assert Key(HWC, t, i) in p.slots && FreshIn(Key(HWC, t, i), p.slots[Key(HWC, t, i)], ts, ds);
    }
  }
}

module GuiExtItem {
  import opened GuiExtItemSpec

  /** `dequeueBuffer`: takes a free index, if there is one. */
  method DequeueSome(q: Bq) returns (q': Bq)
    requires forall j :: j in q.held ==> j < q.num
    ensures q'.num == q.num && q.held <= q'.held && forall j :: j in q'.held ==> j < q.num
    ensures q'.held == q.held <==> forall j :: 0 <= j < q.num ==> j in q.held
  {
    var i := 0;
    while i < q.num && i in q.held
      invariant i <= q.num && forall j :: 0 <= j < i ==> j in q.held
    {
      i := i + 1;
    }
    q' := if i < q.num then Dequeued(q, i) else q;
  }

  /** The second loop of `prepareBuffer`. */
  method CancelAll(q: Bq) returns (q': Bq)
    requires forall j :: j in q.held ==> j < q.num
    ensures q' == q.(held := {})
  {
    q' := q;
    var i := 0;
    while i < q.num
      invariant 0 <= i <= q.num && q' == q.(held := q'.held)
      invariant forall j :: j in q'.held ==> i <= j < q.num
    {
      q' := Cancelled(q', i);
      i := i + 1;
    }
    assert q'.held == {};
  }

  class GuiExtPoolItem {
    const id: nat
    const hwc: bool
    var producer: nat
    var connected: set<nat>
    var queues: map<nat, Bq>
    var slots: map<nat, Slot>

    ghost function Value(): Item
      reads this
    {
      Item(id, hwc, producer, connected, queues, slots)
    }

    /** The constructor followed by `prepareBuffer`. */
    constructor (token: nat, hwc: bool, id: nat, displays: map<nat, nat>)
      ensures Value() == NewItem(id, token, hwc, displays)
    {
      var ds := if hwc then displays else map[];
      this.id, this.hwc, producer, connected := id, hwc, token, {};
      queues := map t | t in ds :: Bq(ds[t], {});
      slots := map[];
      new;
      PrepareAll(ds);
    }

    /** `prepareBuffer` over every queue. */
    method PrepareAll(ghost ds: map<nat, nat>)
      requires queues == (map t | t in ds :: Bq(ds[t], {})) && slots == map[]
      modifies this`slots
      ensures slots == AddTypes(InOrder(ds.Keys), ds)
    {
      var types := InOrder(queues.Keys);
      assert queues.Keys == ds.Keys;
      var i := 0;
      while i < |types|
        invariant 0 <= i <= |types| && slots == AddTypes(types[..i], ds)
      {
        assert types[..i + 1][..i] == types[..i] && types[i] in types && types[..i + 1][i] == types[i];
        PrepareBuffer(types[i]);
        i := i + 1;
      }
      assert types[..i] == types;
    }

    /** `prepareBuffer` for one queue: dequeues every buffer, adds the missing consumer slots and
        cancels every buffer again, which leaves the queue as it was. */
    method PrepareBuffer(t: nat)
      requires t in queues && queues[t].held == {}
      modifies this`slots
      ensures slots == AddType(old(slots), t, queues[t].num)
    {
      var q := queues[t];
      var i := 0;
      while i < q.num
        invariant 0 <= i <= q.num == queues[t].num
        invariant forall j :: j in q.held ==> j < q.num
        invariant slots == AddType(old(slots), t, i)
      {
        q := DequeueSome(q);
        var k := Key(HWC, t, i);
        if k !in slots { slots := slots[k := Slot(0, HWC, t, i)]; }
        i := i + 1;
      }
      q := CancelAll(q);
      assert q == queues[t];
    }

    method Release(usage: nat, typ: nat, buf: nat) returns (status: Status)
      modifies this
      ensures (status, Value()) == GuiExtItemSpec.Release(old(Value()), usage, typ, buf)
    {
      if !hwc && usage == HWC { return InvalidOperation; }
      if !(usage == HWC && typ < HWC_NUM_DISPLAY_TYPES && typ in queues) { return BadIndex; }
      queues := queues[typ := Cancelled(queues[typ], buf)];
      var k := Key(usage, typ, buf);
      if k in slots {
        slots := slots[k := slots[k].(token := 0)];
      }
      status := Ok;
    }

    method Disconnect(usage: nat) returns (status: Status)
      requires usage < USAGE_MAX
      modifies this
      ensures (status, Value()) == GuiExtItemSpec.Disconnect(old(Value()), usage)
    {
      if !hwc && usage == HWC { return InvalidOperation; }
      connected := connected - {usage};
      status := Ok;
    }

    /** First loop of the death callback: releases the slots of `who` one by one. */
    method ReleaseAll(who: nat)
      requires who != 0 && OwnKeyed(Value())
      modifies this
      ensures Value() == Returned(old(Value()), who, old(slots).Keys)
    {
      ghost var p := Value();
      var todo := slots.Keys;
      ReturnNone(p, who);
      while todo != {}
        invariant todo <= p.slots.Keys && Value() == Returned(p, who, p.slots.Keys - todo)
      {
        var k :| k in todo;
        var slot := slots[k];
        ReturnOne(p, who, p.slots.Keys - todo, k);
        if slot.token == who {
          var status := Release(slot.usage, slot.typ, slot.idx);
        }
        assert p.slots.Keys - (todo - {k}) == p.slots.Keys - todo + {k};
        todo := todo - {k};
      }
      assert p.slots.Keys - todo == p.slots.Keys;
    }

    /** The death callback of consumer `who`: releases its slots, then recomputes the connected
        usages. `none` tells the pool that no consumer is left. */
    method ConsumerDied(who: nat) returns (none: bool)
      requires who != 0 && OwnKeyed(Value())
      modifies this
      ensures Value() == GuiExtItemSpec.ConsumerDied(old(Value()), who)
      ensures none <==> connected == {}
    {
      ReleaseAll(who);
      connected, none := {}, true;
      ghost var p := Value();
      var todo := slots.Keys;
      while todo != {}
        invariant todo <= slots.Keys && Value() == p.(connected := connected)
        invariant connected == set k | k in slots && k !in todo && slots[k].token != 0 :: slots[k].usage
        invariant none <==> connected == {}
      {
        var k :| k in todo;
        if slots[k].token != 0 {
          connected := connected + {slots[k].usage};
          none := false;
        }
        todo := todo - {k};
      }
    }
  }

  lemma ReturnNone(p: Item, who: nat)
    ensures Returned(p, who, p.slots.Keys - p.slots.Keys) == p
  {
    var p' := Returned(p, who, p.slots.Keys - p.slots.Keys);
    assert p'.slots == p.slots;
    forall t | t in p.queues ensures p'.queues[t] == p.queues[t] {
      assert p'.queues[t].held == p.queues[t].held;
    }
    assert p'.queues == p.queues;
  }

  lemma HeldByOne(p: Item, who: nat, t: nat, ks: set<nat>, k: nat)
    requires k in p.slots
    ensures HeldBy(p, who, t, ks + {k}) ==
            HeldBy(p, who, t, ks) + if p.slots[k].token == who && p.slots[k].typ == t then {p.slots[k].idx} else {}
  {
  }

  /** One more slot: a release with the slot's own fields, or nothing. */
  lemma ReturnOne(p: Item, who: nat, ks: set<nat>, k: nat)
    requires who != 0 && OwnKeyed(p) && k in p.slots && k !in ks
    ensures k in Returned(p, who, ks).slots && Returned(p, who, ks).slots[k] == p.slots[k]
    ensures var s, p1 := p.slots[k], Returned(p, who, ks);
      Returned(p, who, ks + {k}) == if s.token == who then Release(p1, s.usage, s.typ, s.idx).1 else p1
  {
    var s := p.slots[k];
    var p1, p2 := Returned(p, who, ks), Returned(p, who, ks + {k});
    assert OwnSlot(p, k);
    var p3 := if s.token == who then Release(p1, s.usage, s.typ, s.idx).1 else p1;
    assert p2.slots == p3.slots;
    forall t | t in p.queues ensures p2.queues[t] == p3.queues[t] {
      HeldByOne(p, who, t, ks, k);
      assert p2.queues[t].held == p3.queues[t].held;
    }
    assert p2.queues == p3.queues;
  }
}
