/** Receiver and retry threads of one mux channel, interleaved in any way. An event is one
    critical section under `rx_fc_lock`, one `write`, or one step between them; events that are
    not possible in a state leave it unchanged. The receiver is the data branch of
    `extract_frames` in `mtk/gsm0710muxd/src/gsm0710muxd.c`. Thread creation succeeds. */
module FlowRuns {
  import opened Collections
  import opened FlowSpec

  /** `Handoff`: the rest of a frame has been cached, `rx_fc_off` is not yet set. `Sleeping`: in
      `pthread_cond_wait` for the previous retry thread. `Spawning`: `rx_fc_off` is set, the new
      thread is not yet created. */
  datatype Receiver = Idle | Direct(f: Frame) | Handoff | Sleeping(signalled: bool) | Spawning

  /** `Created`: before its first critical section. `Writing`: in the write loop, `w` bytes of
      `f` are out. `Popping`: a frame is complete. `Closing`: `rx_fc_off` cleared, `rx_thread`
      not yet. */
  datatype Retry = Created | Writing(f: Frame, w: nat) | Popping | Closing | Ended

  /** `pty`: bytes written to the pseudo terminal. `stream`: bytes of all frames taken over, in
      arrival order. `first`, `firstRest`, `cached`: the frame that started the current episode,
      the bytes of it still to write then, and the bytes accepted since. `clear`: for each frame,
      whether `rx_fc_off` was clear when it arrived. `whole`: the frames that the receiver wrote
      out in one `write`. `failed`: one of the two assertions has fired. */
  datatype State = State(
    rx: Rx, rxThread: bool, receiver: Receiver, retries: seq<Retry>,
    pty: seq<Byte>, stream: seq<Byte>, arrived: nat,
    first: nat, firstRest: nat, cached: nat, clear: seq<bool>, whole: set<nat>, failed: bool)

  datatype Event =
    | Arrive(data: seq<Byte>)
    | DirectWrite(n: nat)     // write() took n bytes
    | DirectAgain(vt: bool)   // write() failed with EAGAIN; vt: the video telephony channel
    | ReceiverLock            // start_retry_write_thread takes rx_fc_lock
    | ReceiverWake            // its wait returns, signalled or not
    | Spawn
    | RetryStart(i: nat)
    | RetryWrite(i: nat, n: nat)
    | RetryPop(i: nat)
    | RetryClose(i: nat)

  const Init := State(Rx([], 0, 0, false, 0, []), false, Idle, [], [], [], 0, 0, 0, 0, [], {}, false)

  function Min(a: nat, b: nat): nat { if a < b then a else b }

  function DoArrive(s: State, data: seq<Byte>): State
    requires s.receiver.Idle?
  {
    var f := Frame(s.arrived, data);
    var s1 := s.(arrived := s.arrived + 1, clear := s.clear + [!s.rx.off]);
    if !s.rx.off then s1.(receiver := Direct(f), stream := s.stream + data)
    else if Accepts(s.rx, f) then
      s1.(rx := CacheFrame(s.rx, f), stream := s.stream + data, cached := s.cached + |data|)
    else s1.(rx := CacheFrame(s.rx, f))
  }

  /** Only the first `n` bytes went out: cache the rest and start an episode. */
  function DoHandoff(s: State, n: nat): State
    requires s.receiver.Direct? && n <= |s.receiver.f.data|
  {
    var f := s.receiver.f;
    s.(rx := CacheRemaining(s.rx, f, n), receiver := Handoff, pty := s.pty + f.data[..n],
       first := f.id, firstRest := |f.data| - n, cached := 0,
       failed := s.failed || s.rx.list != [])
  }

  function DoDirectWrite(s: State, n: nat): State
    requires s.receiver.Direct?
  {
    var f := s.receiver.f;
    if n < |f.data| then DoHandoff(s, n)
    else
      s.(receiver := Idle, pty := s.pty + f.data, whole := s.whole + {f.id},
         rx := s.rx.(destroyed := s.rx.destroyed + [f]))
  }

  function DoDirectAgain(s: State, vt: bool): State
    requires s.receiver.Direct?
  {
    if !vt then DoHandoff(s, 0)
    else s.(receiver := Idle, stream := s.stream[..|s.stream| - Min(|s.stream|, |s.receiver.f.data|)])
  }

  function DoRetryStart(s: State, i: nat): State
    requires i < |s.retries|
  {
    match Front(s.rx)
    case None => s.(failed := true)
    case Some(f) =>
      s.(rx := Popped(s.rx).(written := 0), rxThread := true, retries := s.retries[i := Writing(f, s.rx.written)])
  }

  function DoRetryWrite(s: State, i: nat, n: nat): State
    requires i < |s.retries| && s.retries[i].Writing? && s.retries[i].w <= |s.retries[i].f.data|
  {
    var Writing(f, w) := s.retries[i];
    var w' := w + Min(n, |f.data| - w);
    s.(pty := s.pty + f.data[w..w'],
       retries := s.retries[i := if w' < |f.data| then Writing(f, w') else Popping])
  }

  function DoRetryPop(s: State, i: nat): State
    requires i < |s.retries|
  {
    match Front(s.rx)
    case None => s.(rx := s.rx.(off := false), retries := s.retries[i := Closing])
    case Some(f) => s.(rx := Popped(s.rx), retries := s.retries[i := Writing(f, 0)])
  }

  function Apply(s: State, e: Event): State {
    match e
    case Arrive(data) => if s.receiver.Idle? then DoArrive(s, data) else s
    case DirectWrite(n) => if s.receiver.Direct? then DoDirectWrite(s, n) else s
    case DirectAgain(vt) => if s.receiver.Direct? then DoDirectAgain(s, vt) else s
    case ReceiverLock =>
      if !s.receiver.Handoff? then s
      else if s.rxThread then s.(receiver := Sleeping(false))
      else s.(receiver := Spawning, rx := s.rx.(off := true))
    case ReceiverWake =>
      if s.receiver.Sleeping? then s.(receiver := Spawning, rx := s.rx.(off := true)) else s
    case Spawn =>
      if s.receiver.Spawning? then s.(receiver := Idle, retries := s.retries + [Created]) else s
    case RetryStart(i) => if i < |s.retries| && s.retries[i].Created? then DoRetryStart(s, i) else s
    case RetryWrite(i, n) =>
      if i < |s.retries| && s.retries[i].Writing? && s.retries[i].w <= |s.retries[i].f.data|
      then DoRetryWrite(s, i, n) else s
    case RetryPop(i) => if i < |s.retries| && s.retries[i].Popping? then DoRetryPop(s, i) else s
    case RetryClose(i) =>
      if i < |s.retries| && s.retries[i].Closing?
      then s.(rxThread := false, retries := s.retries[i := Ended],
              receiver := if s.receiver.Sleeping? then Sleeping(true) else s.receiver)
      else s
  }

  /** A step of a retry thread, not of the receiver. */
  predicate IsRetry(e: Event) { e.RetryStart? || e.RetryWrite? || e.RetryPop? || e.RetryClose? }

  function Exec(es: seq<Event>): State {
    if es == [] then Init else Apply(Exec(es[..|es| - 1]), es[|es| - 1])
  }

  // -------------------------------------------------------------------------
  // Control: who may write
  // -------------------------------------------------------------------------

  predicate Active(r: Retry) { r.Created? || r.Writing? || r.Popping? }

  function Newest(s: State): Retry {
    if s.retries == [] then Ended else s.retries[|s.retries| - 1]
  }

  /** The list's first frame still has its saved offset. */
  predicate Saved(s: State) {
    s.receiver.Handoff? || s.receiver.Sleeping? || s.receiver.Spawning? || Newest(s).Created?
  }

  ghost predicate Control(s: State) {
    && (forall i :: 0 <= i < |s.retries| - 1 ==> !Active(s.retries[i]))
    && (Active(Newest(s)) <==> s.rx.off && !s.receiver.Spawning?)
    && (s.receiver.Spawning? ==> s.rx.off)
    && (s.receiver.Direct? || s.receiver.Handoff? || s.receiver.Sleeping? ==> !s.rx.off)
    && (!s.rx.off && (s.receiver.Idle? || s.receiver.Direct?) ==> s.rx.list == [])
    && (if Saved(s) then s.rx.list != [] && s.rx.written <= |s.rx.list[0].data| else s.rx.written == 0)
    && (Newest(s).Writing? ==> Newest(s).w <= |Newest(s).f.data|)
    && !s.failed
  }

  /** Only the newest retry thread can do anything but finish. */
  lemma ActiveIsNewest(s: State, i: nat)
    requires Control(s) && i < |s.retries| && Active(s.retries[i])
    ensures i == |s.retries| - 1
  {
  }

  lemma ReceiverKeepsControl(s: State, e: Event)
    requires Control(s) && !IsRetry(e)
    ensures Control(Apply(s, e))
  {
  }

  lemma RetryKeepsControl(s: State, e: Event)
    requires Control(s) && IsRetry(e)
    ensures Control(Apply(s, e))
  {
  }

  // -------------------------------------------------------------------------
  // Bytes: nothing lost, doubled or reordered
  // -------------------------------------------------------------------------

  /** The unwritten rest of the frame that goes out first. */
  ghost function Current(s: State): seq<Byte>
    requires Control(s)
  {
    if s.receiver.Direct? then s.receiver.f.data
    else if Saved(s) then s.rx.list[0].data[s.rx.written..]
    else if Newest(s).Writing? then Newest(s).f.data[Newest(s).w..]
    else []
  }

  /** The frames behind it. */
  ghost function Queued(s: State): seq<Frame>
    requires Control(s)
  {
    if Saved(s) then s.rx.list[1..] else s.rx.list
  }

  /** Bytes taken over and not yet written, in the order in which they will go out. */
  ghost function Pending(s: State): seq<Byte>
    requires Control(s)
  {
    Current(s) + Bytes(Queued(s))
  }

  ghost predicate InOrder(s: State) {
    Control(s) && s.pty + Pending(s) == s.stream
  }

  lemma Reassociate(a: seq<Byte>, b: seq<Byte>, c: seq<Byte>, d: seq<Byte>)
    ensures a + (b + c + d) == a + b + (c + d) == a + (b + (c + d)) == a + (b + c) + d
  {
  }

  /** The order is kept when a frame joins the end, or when `out` leaves from the front. */
  lemma Joins(s: State, s': State, f: Frame)
    requires InOrder(s) && Control(s') && s'.pty == s.pty && s'.stream == s.stream + f.data
    requires Current(s') == Current(s) && Queued(s') == Queued(s) + [f]
    ensures InOrder(s')
  {
    BytesSnoc(Queued(s), f);
    Reassociate(s.pty, Current(s), Bytes(Queued(s)), f.data);
  }

  lemma Leaves(s: State, s': State, out: seq<Byte>)
    requires InOrder(s) && Control(s') && s'.pty == s.pty + out && s'.stream == s.stream
    requires Current(s) == out + Current(s') && Queued(s') == Queued(s)
    ensures InOrder(s')
  {
    Reassociate(s.pty, out, Current(s'), Bytes(Queued(s)));
  }

  lemma ReceiverKeepsOrder(s: State, e: Event)
    requires InOrder(s) && !IsRetry(e)
    ensures InOrder(Apply(s, e))
  {
    ReceiverKeepsControl(s, e);
    var s' := Apply(s, e);
    if e.Arrive? && s.receiver.Idle? {
      ArriveKeepsOrder(s, e.data);
    } else if e.DirectWrite? && s.receiver.Direct? {
      var data := s.receiver.f.data;
      var n := Min(e.n, |data|);
      assert data == data[..n] + data[n..] && data[..|data|] == data;
      Leaves(s, s', data[..n]);
    } else if e.DirectAgain? && s.receiver.Direct? {
      DirectAgainKeepsOrder(s, e.vt);
    }
  }

  lemma ArriveKeepsOrder(s: State, data: seq<Byte>)
    requires InOrder(s) && s.receiver.Idle? && Control(DoArrive(s, data))
    ensures InOrder(DoArrive(s, data))
  {
    var f := Frame(s.arrived, data);
    var s' := DoArrive(s, data);
    if !s.rx.off {
      assert s.pty + (data + []) == s.pty + data;
    } else if Accepts(s.rx, f) {
      Joins(s, s', f);
    }
  }

  lemma DirectAgainKeepsOrder(s: State, vt: bool)
    requires InOrder(s) && s.receiver.Direct? && Control(DoDirectAgain(s, vt))
    ensures InOrder(DoDirectAgain(s, vt))
  {
    var data := s.receiver.f.data;
    if vt {
      assert s.pty + (data + []) == s.stream;
      assert s.stream[..|s.stream| - |data|] == s.pty;
    } else {
      assert data[0..] == data;
      Leaves(s, DoHandoff(s, 0), []);
    }
  }

  lemma RetryKeepsOrder(s: State, e: Event)
    requires InOrder(s) && IsRetry(e)
    ensures InOrder(Apply(s, e))
  {
    RetryKeepsControl(s, e);
    if Apply(s, e) != s {
      match e
      case RetryStart(i) => RetryStartKeepsOrder(s, i);
      case RetryWrite(i, n) => RetryWriteKeepsOrder(s, i, n);
      case RetryPop(i) => RetryPopKeepsOrder(s, i);
      case RetryClose(i) => RetryCloseKeepsOrder(s, i);
    }
  }

  lemma RetryStartKeepsOrder(s: State, i: nat)
    requires InOrder(s) && i < |s.retries| && s.retries[i].Created? && Control(DoRetryStart(s, i))
    ensures InOrder(DoRetryStart(s, i))
  {
    ActiveIsNewest(s, i);
    var s' := DoRetryStart(s, i);
    assert Newest(s') == Writing(s.rx.list[0], s.rx.written);
    assert Current(s') == Current(s) && Queued(s') == Queued(s);
  }

  lemma RetryCloseKeepsOrder(s: State, i: nat)
    requires InOrder(s) && i < |s.retries| && s.retries[i].Closing? && Control(Apply(s, RetryClose(i)))
    ensures InOrder(Apply(s, RetryClose(i)))
  {
    var s' := Apply(s, RetryClose(i));
    assert Newest(s') == if i == |s.retries| - 1 then Ended else Newest(s);
    assert Current(s') == Current(s) && Queued(s') == Queued(s);
  }

  lemma RetryWriteKeepsOrder(s: State, i: nat, n: nat)
    requires InOrder(s) && i < |s.retries| && s.retries[i].Writing? && s.retries[i].w <= |s.retries[i].f.data|
    requires Control(DoRetryWrite(s, i, n))
    ensures InOrder(DoRetryWrite(s, i, n))
  {
    ActiveIsNewest(s, i);
    var Writing(f, w) := s.retries[i];
    var w' := w + Min(n, |f.data| - w);
    var s' := DoRetryWrite(s, i, n);
    assert f.data[w..] == f.data[w..w'] + f.data[w'..];
    assert Newest(s') == if w' < |f.data| then Writing(f, w') else Popping;
    assert Current(s') == f.data[w'..];
    Leaves(s, s', f.data[w..w']);
  }

  lemma RetryPopKeepsOrder(s: State, i: nat)
    requires InOrder(s) && i < |s.retries| && s.retries[i].Popping? && Control(DoRetryPop(s, i))
    ensures InOrder(DoRetryPop(s, i))
  {
    ActiveIsNewest(s, i);
    var fs := s.rx.list;
    if fs != [] {
      assert fs[0].data[0..] == fs[0].data;
      assert [] + (fs[0].data + Bytes(fs[1..])) == fs[0].data + Bytes(fs[1..]);
    }
  }

  // -------------------------------------------------------------------------
  // Backlog: the high water mark
  // -------------------------------------------------------------------------

  ghost predicate Bounded(s: State) {
    && Control(s)
    && s.rx.total == s.firstRest + s.cached
    && (s.rx.total <= s.firstRest || s.rx.total <= HIGH_WATERMARK)
    && (!s.receiver.Direct? ==> |Pending(s)| <= s.rx.total)
  }

  lemma StepKeepsBound(s: State, e: Event)
    requires InOrder(s) && Bounded(s) && InOrder(Apply(s, e))
    ensures Bounded(Apply(s, e))
  {
    var s' := Apply(s, e);
    if s.receiver.Direct? && !s'.receiver.Direct? {
      AfterDirectBounded(s, e);
    } else if s.receiver.Direct? {
      assert s'.rx == s.rx && s'.firstRest == s.firstRest && s'.cached == s.cached;
    } else {
      CountsMove(s, e);
      assert |s.pty| + |Pending(s)| == |s.stream| && |s'.pty| + |Pending(s')| == |s'.stream|;
    }
  }

  /** Outside a direct write, only an accepted frame adds to the counts. */
  lemma CountsMove(s: State, e: Event)
    requires Control(s) && !s.receiver.Direct?
    ensures var s' := Apply(s, e);
      && s'.firstRest == s.firstRest && s'.cached - s.cached == s'.rx.total - s.rx.total >= 0
      && (s'.rx.total == s.rx.total || s'.rx.total <= HIGH_WATERMARK)
      && |s'.pty| >= |s.pty|
      && (!s'.receiver.Direct? ==> |s'.stream| - |s.stream| == s'.cached - s.cached)
  {
  }

  lemma AfterDirectBounded(s: State, e: Event)
    requires Control(s) && Bounded(s) && s.receiver.Direct? && Control(Apply(s, e)) && !Apply(s, e).receiver.Direct?
    ensures Bounded(Apply(s, e))
  {
    var s' := Apply(s, e);
    var f := s.receiver.f;
    if s'.receiver.Handoff? {
      assert s'.rx.list == [f] && [f][1..] == [];
      assert Bytes(Queued(s')) == [];
    } else {
      assert Queued(s') == [] && Current(s') == [];
    }
  }

  // -------------------------------------------------------------------------
  // Ledger: which frames have been destroyed
  // -------------------------------------------------------------------------

  ghost predicate InEpisode(s: State) { Saved(s) || Active(Newest(s)) }

  predicate HasId(fs: seq<Frame>, id: nat) { exists k :: 0 <= k < |fs| && fs[k].id == id }

  /** No frame is destroyed twice; the frame that started an episode is not destroyed; every
      other queued frame already is. */
  ghost predicate Ledger(s: State) {
    var gone := s.rx.destroyed;
    && Control(s)
    && (forall k :: 0 <= k < |gone| ==> gone[k].id < s.arrived)
    && (forall j, k :: 0 <= j < k < |gone| ==> gone[j].id != gone[k].id)
    && (s.receiver.Direct? ==> s.receiver.f.id < s.arrived && !HasId(gone, s.receiver.f.id))
    && (InEpisode(s) ==> s.first < s.arrived && !HasId(gone, s.first))
    && (Saved(s) ==> s.rx.list[0].id == s.first)
    && (forall k :: 0 <= k < |Queued(s)| ==> Queued(s)[k] in gone)
    && (Newest(s).Writing? ==> Newest(s).f.id == s.first || Newest(s).f in gone)
  }

  /** An arriving frame goes to the end of the queue, or not into it. */
  lemma ArriveQueues(s: State, data: seq<Byte>)
    requires Control(s) && s.receiver.Idle? && Control(DoArrive(s, data))
    ensures var s', f := DoArrive(s, data), Frame(s.arrived, data);
      && Queued(s') == (if s.rx.off && Accepts(s.rx, f) then Queued(s) + [f] else Queued(s))
      && InEpisode(s') == InEpisode(s) && Newest(s') == Newest(s) && s'.first == s.first
  {
  }

  /** A retry thread takes the front of the queue, or leaves it alone. */
  lemma RetryMovesOn(s: State, e: Event)
    requires Control(s) && Control(Apply(s, e)) && IsRetry(e)
    ensures var s' := Apply(s, e);
      && s'.receiver.Direct? == s.receiver.Direct? && (InEpisode(s') ==> InEpisode(s))
      && (s.receiver.Direct? ==> s'.receiver == s.receiver)
      && (Queued(s') == Queued(s) || (Queued(s) != [] && Queued(s') == Queued(s)[1..]))
      && (Newest(s').Writing? ==>
            || (Newest(s).Writing? && Newest(s').f == Newest(s).f)
            || (Queued(s) != [] && Newest(s').f == Queued(s)[0])
            || (Saved(s) && Newest(s').f == s.rx.list[0]))
  {
    if Apply(s, e) != s && !e.RetryClose? { ActiveIsNewest(s, e.i); }
  }

  lemma ArriveKeepsLedger(s: State, data: seq<Byte>)
    requires Ledger(s) && s.receiver.Idle? && Control(DoArrive(s, data))
    ensures Ledger(DoArrive(s, data))
  {
    var f := Frame(s.arrived, data);
    var s' := DoArrive(s, data);
    if s.rx.off {
      var gone := s.rx.destroyed;
      assert s'.rx.destroyed == gone + [f];
      assert forall id :: HasId(gone + [f], id) ==> HasId(gone, id) || id == f.id;
      ArriveQueues(s, data);
      assert forall g :: g in gone ==> g in gone + [f];
    }
  }

  lemma DirectKeepsLedger(s: State, e: Event)
    requires Ledger(s) && s.receiver.Direct? && (e.DirectWrite? || e.DirectAgain?) && Control(Apply(s, e))
    ensures Ledger(Apply(s, e))
  {
    var s' := Apply(s, e);
    var f := s.receiver.f;
    assert Queued(s') == [];
    if s'.receiver.Handoff? {
      assert s.rx.destroyed + [] == s.rx.destroyed;
    }
  }

  lemma ReceiverKeepsLedger(s: State, e: Event)
    requires Ledger(s) && Control(Apply(s, e)) && !IsRetry(e)
    ensures Ledger(Apply(s, e))
  {
    if e.Arrive? {
      if s.receiver.Idle? { ArriveKeepsLedger(s, e.data); }
    } else if e.DirectWrite? || e.DirectAgain? {
      if s.receiver.Direct? { DirectKeepsLedger(s, e); }
    } else {
      assert Queued(Apply(s, e)) == Queued(s);
    }
  }

  lemma RetryKeepsLedger(s: State, e: Event)
    requires Ledger(s) && Control(Apply(s, e)) && IsRetry(e)
    ensures Ledger(Apply(s, e))
  {
    var s' := Apply(s, e);
    RetryMovesOn(s, e);
    forall k | 0 <= k < |Queued(s')| ensures Queued(s')[k] in s.rx.destroyed {
      if Queued(s') != Queued(s) { assert Queued(s')[k] == Queued(s)[k + 1]; }
    }
  }

  // -------------------------------------------------------------------------
  // Fates: what decides whether a frame is destroyed
  // -------------------------------------------------------------------------

  /** A frame has been destroyed exactly if it arrived during flow control or was written whole. */
  ghost predicate Account(gone: seq<Frame>, clear: seq<bool>, whole: set<nat>) {
    && (forall id :: 0 <= id < |clear| ==> (HasId(gone, id) <==> !clear[id] || id in whole))
    && (forall id :: id in whole ==> id < |clear|)
  }

  ghost predicate Fates(s: State) {
    Control(s) && |s.clear| == s.arrived && Account(s.rx.destroyed, s.clear, s.whole) && Places(s)
  }

  /** The frame at hand and the one that started the episode arrived with `rx_fc_off` clear, the
      frames queued behind it did not. */
  ghost predicate Places(s: State)
    requires Control(s)
  {
    && (s.receiver.Direct? ==> ClearFrame(s, s.receiver.f.id))
    && (InEpisode(s) ==> ClearFrame(s, s.first))
    && (Saved(s) ==> s.rx.list[0].id == s.first)
    && (forall k :: 0 <= k < |Queued(s)| ==> CachedFrame(s, Queued(s)[k].id))
    && (Newest(s).Writing? ==> Newest(s).f.id == s.first || CachedFrame(s, Newest(s).f.id))
  }

  /** Arrived with `rx_fc_off` clear and not written whole. */
  ghost predicate ClearFrame(s: State, id: nat) {
    id < |s.clear| && s.clear[id] && id !in s.whole
  }

  /** Arrived with `rx_fc_off` set. */
  ghost predicate CachedFrame(s: State, id: nat) {
    id < |s.clear| && !s.clear[id]
  }

  lemma HasIdSnoc(fs: seq<Frame>, f: Frame, id: nat)
    ensures HasId(fs + [f], id) <==> HasId(fs, id) || id == f.id
  {
    if HasId(fs, id) {
      var k :| 0 <= k < |fs| && fs[k].id == id;
      assert (fs + [f])[k].id == id;
    }
    assert (fs + [f])[|fs|] == f;
  }

  /** A frame arrives; if it is cached it is destroyed at once. */
  lemma AccountArrives(gone: seq<Frame>, clear: seq<bool>, whole: set<nat>, f: Frame)
    requires Account(gone, clear, whole) && f.id == |clear| && !HasId(gone, f.id)
    ensures Account(gone, clear + [true], whole) && Account(gone + [f], clear + [false], whole)
  {
    forall id | 0 <= id <= |clear|
      ensures HasId(gone + [f], id) <==> !(clear + [false])[id] || id in whole
    {
      HasIdSnoc(gone, f, id);
    }
  }

  lemma AccountWritten(gone: seq<Frame>, clear: seq<bool>, whole: set<nat>, f: Frame)
    requires Account(gone, clear, whole) && f.id < |clear|
    ensures Account(gone + [f], clear, whole + {f.id})
  {
    forall id | 0 <= id < |clear|
      ensures HasId(gone + [f], id) <==> !clear[id] || id in whole + {f.id}
    {
      HasIdSnoc(gone, f, id);
    }
  }

  lemma ArriveKeepsFates(s: State, data: seq<Byte>)
    requires Fates(s) && Ledger(s) && s.receiver.Idle? && Control(DoArrive(s, data))
    ensures Fates(DoArrive(s, data))
  {
    AccountArrives(s.rx.destroyed, s.clear, s.whole, Frame(s.arrived, data));
    if s.rx.off { CachedKeepsPlaces(s, data); } else { DirectKeepsPlaces(s, data); }
  }

  lemma CachedKeepsPlaces(s: State, data: seq<Byte>)
    requires Control(s) && Places(s) && |s.clear| == s.arrived && s.receiver.Idle? && s.rx.off
    requires Control(DoArrive(s, data))
    ensures Places(DoArrive(s, data))
  {
    ArriveQueues(s, data);
    var s' := DoArrive(s, data);
    assert CachedFrame(s', s.arrived);
    forall k | 0 <= k < |Queued(s')| ensures CachedFrame(s', Queued(s')[k].id) {
      if k < |Queued(s)| { assert Queued(s')[k] == Queued(s)[k] && CachedFrame(s, Queued(s)[k].id); }
    }
  }

  lemma DirectKeepsPlaces(s: State, data: seq<Byte>)
    requires Control(s) && Places(s) && |s.clear| == s.arrived && s.receiver.Idle? && !s.rx.off
    requires Control(DoArrive(s, data)) && forall id :: id in s.whole ==> id < |s.clear|
    ensures Places(DoArrive(s, data))
  {
    ArriveQueues(s, data);
    assert ClearFrame(DoArrive(s, data), s.arrived);
  }

  lemma DirectKeepsFates(s: State, e: Event)
    requires Fates(s) && s.receiver.Direct? && (e.DirectWrite? || e.DirectAgain?) && Control(Apply(s, e))
    ensures Fates(Apply(s, e))
  {
    AccountWritten(s.rx.destroyed, s.clear, s.whole, s.receiver.f);
    assert Queued(Apply(s, e)) == [];
    assert s.rx.destroyed + s.rx.list == s.rx.destroyed;
  }

  lemma RetryKeepsFates(s: State, e: Event)
    requires Fates(s) && Control(Apply(s, e)) && IsRetry(e)
    ensures Fates(Apply(s, e))
  {
    RetryMovesOn(s, e);
  }

  lemma StepKeepsFates(s: State, e: Event)
    requires Fates(s) && Ledger(s) && Control(Apply(s, e))
    ensures Fates(Apply(s, e))
  {
    if IsRetry(e) {
      RetryKeepsFates(s, e);
    } else if e.Arrive? && s.receiver.Idle? {
      ArriveKeepsFates(s, e.data);
    } else if (e.DirectWrite? || e.DirectAgain?) && s.receiver.Direct? {
      DirectKeepsFates(s, e);
    } else {
      WaitKeepsFates(s, e);
    }
  }

  lemma WaitKeepsFates(s: State, e: Event)
    requires Fates(s) && Control(Apply(s, e)) && (e.ReceiverLock? || e.ReceiverWake? || e.Spawn? || Apply(s, e) == s)
    ensures Fates(Apply(s, e))
  {
    assert Queued(Apply(s, e)) == Queued(s);
  }

  // -------------------------------------------------------------------------
  // Signals: the receiver does not sleep for ever
  // -------------------------------------------------------------------------

  predicate Started(r: Retry) { r.Writing? || r.Popping? || r.Closing? }

  /** Whoever set `rx_thread`, or the thread an unsignalled receiver waits for, is still running. */
  ghost predicate Signals(s: State) {
    s.rxThread || s.receiver == Sleeping(false) ==>
      exists i :: 0 <= i < |s.retries| && Started(s.retries[i])
  }

  lemma StepKeepsSignals(s: State, e: Event)
    requires Control(s) && Signals(s)
    ensures Signals(Apply(s, e))
  {
    var s' := Apply(s, e);
    if s'.rxThread || s'.receiver == Sleeping(false) {
      if e.RetryStart? && s' != s && s'.rxThread && s'.retries != s.retries {
        assert Started(s'.retries[e.i]);
      } else {
        var i :| 0 <= i < |s.retries| && Started(s.retries[i]);
        assert Started(s'.retries[i]);
      }
    }
  }

  // -------------------------------------------------------------------------
  // Theorems over all runs
  // -------------------------------------------------------------------------

  ghost predicate Inv(s: State) {
    InOrder(s) && Bounded(s) && Ledger(s) && Fates(s) && Signals(s)
  }

  lemma StepKeepsOrder(s: State, e: Event)
    requires InOrder(s)
    ensures InOrder(Apply(s, e))
  {
    if IsRetry(e) { RetryKeepsOrder(s, e); } else { ReceiverKeepsOrder(s, e); }
  }

  lemma StepKeepsLedger(s: State, e: Event)
    requires Ledger(s) && Control(Apply(s, e))
    ensures Ledger(Apply(s, e))
  {
    if IsRetry(e) { RetryKeepsLedger(s, e); } else { ReceiverKeepsLedger(s, e); }
  }

  lemma StepKeepsInv(s: State, e: Event)
    requires Inv(s)
    ensures Inv(Apply(s, e))
  {
    StepKeepsOrder(s, e);
    StepKeepsLedger(s, e);
    StepKeepsFates(s, e);
    StepKeepsBound(s, e);
    StepKeepsSignals(s, e);
  }

  lemma InitKeepsInv()
    ensures Inv(Init)
  {
    assert Init.pty + Pending(Init) == [];
  }

  lemma {:induction false} RunsKeepInv(es: seq<Event>)
    ensures Inv(Exec(es))
  {
    if es == [] {
      InitKeepsInv();
    } else {
      RunsKeepInv(es[..|es| - 1]);
      StepKeepsInv(Exec(es[..|es| - 1]), es[|es| - 1]);
    }
  }

  lemma RunsKeepControl(es: seq<Event>)
    ensures Control(Exec(es))
  {
    RunsKeepInv(es);
  }

  /** For every interleaving: at most one retry thread is between its creation and its last pop,
      none is while `rx_fc_off` is clear, outside the handoff a clear `rx_fc_off` means an empty
      list, and neither assertion (list not empty, no first frame) fires. The wait for the
      previous thread plays no part: `ReceiverWake` may come at any time. */
  lemma HandoffIsSafe(es: seq<Event>)
    ensures Safe(Exec(es))
  {
    RunsKeepControl(es);
    ControlIsSafe(Exec(es));
  }

  ghost predicate Safe(s: State) {
    && (forall i, j :: 0 <= i < j < |s.retries| ==> !(Active(s.retries[i]) && Active(s.retries[j])))
    && (!s.rx.off ==> forall i :: 0 <= i < |s.retries| ==> !Active(s.retries[i]))
    && (!s.rx.off && (s.receiver.Idle? || s.receiver.Direct?) ==> s.rx.list == [])
    && !s.failed
  }

  lemma ControlIsSafe(s: State)
    requires Control(s)
    ensures Safe(s)
  {
    forall i | 0 <= i < |s.retries| && Active(s.retries[i]) ensures i == |s.retries| - 1 && s.rx.off {
      ActiveIsNewest(s, i);
    }
  }

  /** A receiver asleep in the handoff has been signalled, or a retry thread that will signal it
      is on its way out. */
  lemma NoLostSignal(es: seq<Event>)
    requires Exec(es).receiver.Sleeping?
    ensures Exec(es).receiver.signalled || exists i :: 0 <= i < |Exec(es).retries| && Exec(es).retries[i].Closing?
  {
    RunsKeepInv(es);
    HandoffIsSafe(es);
    var s := Exec(es);
    if !s.receiver.signalled {
      var i :| 0 <= i < |s.retries| && Started(s.retries[i]);
      assert !Active(s.retries[i]);
    }
  }

  /** The receiver never writes to the terminal while a retry thread may. */
  lemma OneWriter(es: seq<Event>, i: nat)
    requires i < |Exec(es).retries| && Exec(es).receiver.Direct?
    ensures !Active(Exec(es).retries[i])
  {
    HandoffIsSafe(es);
    RunsKeepControl(es);
  }

  /** What reached the terminal, followed by what is still to be written, is what was taken over:
      every byte once and in order, for all partial writes and all interleavings. Queued frames
      are values here, see `WrittenFrameIsAllocated`. */
  lemma BytesInOrder(es: seq<Event>)
    ensures Control(Exec(es)) && Exec(es).pty + Pending(Exec(es)) == Exec(es).stream
  {
    RunsKeepInv(es);
  }

  /** A `write` of the receiver or of a retry thread is being made. */
  predicate IsWrite(s: State, e: Event) {
    || (e.DirectWrite? && s.receiver.Direct?)
    || (e.RetryWrite? && e.i < |s.retries| && s.retries[e.i].Writing?)
  }

  /** In every run a `write` that takes `n` bytes puts the next `n` pending bytes on the terminal, or
      the rest of the frame if that is shorter, and nothing else puts any. */
  lemma WriteTakesBytes(es: seq<Event>, e: Event)
    ensures Control(Exec(es)) && Control(Apply(Exec(es), e)) && TakesBytes(Exec(es), e)
  {
    RunsKeepControl(es);
    StepKeepsControl(Exec(es), e);
    StepTakesBytes(Exec(es), e);
  }

  ghost predicate TakesBytes(s: State, e: Event)
    requires Control(s) && Control(Apply(s, e))
  {
    if IsWrite(s, e) then
      var k := if e.n < |Current(s)| then e.n else |Current(s)|;
      Apply(s, e).pty == s.pty + Current(s)[..k] && Current(Apply(s, e)) == Current(s)[k..]
    else Apply(s, e).pty == s.pty
  }

  lemma StepKeepsControl(s: State, e: Event)
    requires Control(s)
    ensures Control(Apply(s, e))
  {
    if IsRetry(e) { RetryKeepsControl(s, e); } else { ReceiverKeepsControl(s, e); }
  }

  lemma StepTakesBytes(s: State, e: Event)
    requires Control(s) && Control(Apply(s, e))
    ensures TakesBytes(s, e)
  {
    if IsWrite(s, e) {
      if e.DirectWrite? { DirectTakes(s, e.n); } else { RetryTakes(s, e.i, e.n); }
    } else if e.DirectAgain? && s.receiver.Direct? {
      assert s.pty + s.receiver.f.data[..0] == s.pty;
    }
  }

  /** The receiver's part: the frame is done exactly if all of it went out; else the rest is handed
      over at the offset that the `write` reached. */
  lemma DirectTakes(s: State, n: nat)
    requires Control(s) && s.receiver.Direct? && Control(DoDirectWrite(s, n))
    ensures var s', f := DoDirectWrite(s, n), s.receiver.f;
      var k := if n < |f.data| then n else |f.data|;
      && s'.pty == s.pty + Current(s)[..k] && Current(s') == Current(s)[k..]
      && (n < |f.data| ==>
            s'.receiver.Handoff? && s'.rx.list == [f] && s'.rx.written == n && s'.firstRest == |f.data| - n)
      && (n >= |f.data| ==> s'.receiver.Idle? && s'.rx.list == s.rx.list)
  {
    assert s.receiver.f.data[..|s.receiver.f.data|] == s.receiver.f.data;
  }

  /** A retry thread's part: it keeps the frame exactly if bytes of it are left. */
  lemma RetryTakes(s: State, i: nat, n: nat)
    requires Control(s) && i < |s.retries| && s.retries[i].Writing? && Control(Apply(s, RetryWrite(i, n)))
    ensures var s', r := Apply(s, RetryWrite(i, n)), s.retries[i];
      var k := if n < |Current(s)| then n else |Current(s)|;
      && s'.pty == s.pty + Current(s)[..k] && Current(s') == Current(s)[k..]
      && s'.retries[i] == if n < |Current(s)| then Writing(r.f, r.w + n) else Popping
  {
    ActiveIsNewest(s, i);
    var Writing(f, w) := s.retries[i];
    var s' := Apply(s, RetryWrite(i, n));
    assert Current(s) == f.data[w..];
    var k := if n < |Current(s)| then n else |Current(s)|;
    assert f.data[w..][..k] == f.data[w..w + k] && f.data[w..][k..] == f.data[w + k..];
    assert Newest(s') == s'.retries[i];
  }

  /** Bytes that a run's `write` calls took. */
  function Took(es: seq<Event>): nat {
    if es == [] then 0
    else
      var n := |es| - 1;
      Took(es[..n]) + if IsWrite(Exec(es[..n]), es[n]) then es[n].n else 0
  }

  /** No `write` takes more than it was given. */
  ghost predicate Possible(es: seq<Event>) {
    forall k :: 0 <= k < |es| && IsWrite(Exec(es[..k]), es[k]) ==>
      Control(Exec(es[..k])) && es[k].n <= |Current(Exec(es[..k]))|
  }

  /** As many bytes are on the terminal as the `write` calls took. */
  lemma {:induction false} WritesAddUp(es: seq<Event>)
    requires Possible(es)
    ensures |Exec(es).pty| == Took(es)
  {
    if es != [] {
      var n := |es| - 1;
      assert forall k :: 0 <= k < n ==> es[..n][..k] == es[..k];
      WritesAddUp(es[..n]);
      WriteTakesBytes(es[..n], es[n]);
    }
  }

  /** In every run an arriving frame joins the end of what is pending, unless flow control is off and
      it does not fit under the mark of 4096 with what the episode has taken over so far: then it is
      dropped and counted. */
  lemma ArrivalIsPendingIff(es: seq<Event>, data: seq<Byte>)
    requires Exec(es).receiver.Idle?
    ensures var s, s' := Exec(es), Apply(Exec(es), Arrive(data));
      var fits := !s.rx.off || s.rx.total + |data| <= 4096;
      && Control(s) && Control(s') && Pending(s') == Pending(s) + (if fits then data else [])
      && s'.rx.dropped == s.rx.dropped + (if fits then 0 else 1)
      && s'.rx.total == s.rx.total + (if fits && s.rx.off then |data| else 0)
  {
    RunsKeepControl(es);
    StepKeepsControl(Exec(es), Arrive(data));
    ArrivalJoins(Exec(es), data);
  }

  lemma ArrivalJoins(s: State, data: seq<Byte>)
    requires Control(s) && s.receiver.Idle? && Control(DoArrive(s, data))
    ensures Pending(DoArrive(s, data)) ==
            Pending(s) + if !s.rx.off || s.rx.total + |data| <= 4096 then data else []
  {
    var s', f := DoArrive(s, data), Frame(s.arrived, data);
    if !s.rx.off {
      assert Pending(s) == [] && Pending(s') == data + [];
    } else if s.rx.total + |data| <= 4096 {
      BytesSnoc(Queued(s), f);
      ArriveQueues(s, data);
      Assoc(Current(s), Bytes(Queued(s)), data);
    } else {
      assert Pending(s) + [] == Pending(s);
    }
  }

  /** A full terminal keeps the receiver's frame pending, but on the video telephony channel it is
      discarded. */
  lemma FullTerminalKeeps(es: seq<Event>, vt: bool)
    requires Exec(es).receiver.Direct?
    ensures var s, s' := Exec(es), Apply(Exec(es), DirectAgain(vt));
      Control(s) && Control(s') && Pending(s') == if vt then [] else s.receiver.f.data
  {
    RunsKeepControl(es);
    var s := Exec(es);
    StepKeepsControl(s, DirectAgain(vt));
    var data := s.receiver.f.data;
    assert data[0..] == data && data + [] == data && [s.receiver.f][1..] == [];
  }

  /** No frame is stranded: with the receiver idle, either everything taken over is out, or a
      retry thread is at work on it. */
  lemma NothingStranded(es: seq<Event>)
    requires Exec(es).receiver.Idle?
    ensures Exec(es).pty == Exec(es).stream ||
            exists i :: 0 <= i < |Exec(es).retries| && Active(Exec(es).retries[i])
  {
    RunsKeepInv(es);
    var s := Exec(es);
    if s.rx.off {
      assert Active(s.retries[|s.retries| - 1]);
    } else {
      assert Current(s) == [] && Queued(s) == [];
    }
  }

  /** `rx_fl_total` is the first remainder plus all bytes accepted since, popping does not lower
      it, and the bytes waiting never exceed the larger of the first remainder and 4096. */
  lemma BacklogBound(es: seq<Event>)
    requires !Exec(es).receiver.Direct?
    ensures var s := Exec(es);
      && s.rx.total == s.firstRest + s.cached
      && Control(s) && |Pending(s)| <= s.rx.total
      && |Pending(s)| <= (if s.firstRest > HIGH_WATERMARK then s.firstRest else HIGH_WATERMARK)
  {
    RunsKeepInv(es);
  }

  /** Exactly these frames have been destroyed: those that arrived while `rx_fc_off` was set, and
      those that the receiver wrote out in one go. So the frame that starts an episode is never
      destroyed, nor is one discarded on the video telephony channel. */
  lemma DestroyedIff(es: seq<Event>, id: nat)
    requires id < Exec(es).arrived
    ensures var s := Exec(es);
      |s.clear| == s.arrived && (HasId(s.rx.destroyed, id) <==> !s.clear[id] || id in s.whole)
  {
    RunsKeepInv(es);
  }

  /** The frame a retry thread is writing is still allocated if and only if `rx_fc_off` was clear
      when it arrived, which makes it the frame that started the episode. */
  lemma WrittenFrameIsAllocated(es: seq<Event>, i: nat)
    requires i < |Exec(es).retries| && Exec(es).retries[i].Writing?
    ensures AllocatedIffClear(Exec(es), Exec(es).retries[i].f.id)
  {
    RunsKeepInv(es);
    WrittenFrameIs(Exec(es), i);
  }

  ghost predicate AllocatedIffClear(s: State, id: nat) {
    id < |s.clear| && (!HasId(s.rx.destroyed, id) <==> s.clear[id]) && (s.clear[id] <==> id == s.first)
  }

  lemma WrittenFrameIs(s: State, i: nat)
    requires Fates(s) && i < |s.retries| && s.retries[i].Writing?
    ensures AllocatedIffClear(s, s.retries[i].f.id)
  {
    ActiveIsNewest(s, i);
    assert InEpisode(s);
  }

  /** As long as the channel is not closed no frame is destroyed twice. */
  lemma DestroyedOnce(es: seq<Event>)
    ensures Distinct(Exec(es).rx.destroyed)
  {
    RunsKeepInv(es);
  }

  ghost predicate Distinct(fs: seq<Frame>) {
    forall j, k :: 0 <= j < k < |fs| ==> fs[j].id != fs[k].id
  }

  /** Closing the channel destroys a frame for the second time if and only if a frame cached
      behind the first one is still queued. */
  lemma CloseDestroysTwiceIff(es: seq<Event>)
    ensures Control(Exec(es))
    ensures !Distinct(Closed(Exec(es).rx).destroyed) <==> Queued(Exec(es)) != []
  {
    RunsKeepInv(es);
    var s := Exec(es);
    var gone, all := s.rx.destroyed, Closed(s.rx).destroyed;
    if Queued(s) != [] {
      var f := Queued(s)[0];
      var j :| 0 <= j < |gone| && gone[j] == f;
      var k := |gone| + if Saved(s) then 1 else 0;
      assert all[j] == f == all[k];
    } else if Saved(s) {
      assert s.rx.list == [s.rx.list[0]];
      forall j | 0 <= j < |gone| ensures gone[j].id != s.first {
        assert !HasId(gone, s.first);
      }
    }
  }

  /** A run after which closing destroys a frame twice. */
  lemma ClosingDestroysTwice() returns (es: seq<Event>)
    ensures !Distinct(Closed(Exec(es).rx).destroyed)
  {
    es := TwoQueued();
    var all := Closed(Exec(es).rx).destroyed;
    assert all == [Frame(1, [2]), Frame(0, [1]), Frame(1, [2])];
    assert all[0].id == all[2].id;
  }

  // -------------------------------------------------------------------------
  // The list after a close
  // -------------------------------------------------------------------------

  /** What `rx_fl` points at. */
  datatype Pointer = Null | Live | Freed

  /** The event finds the terminal full and hands the rest of a frame to a retry thread. */
  predicate StartsEpisode(s: State, e: Event) {
    s.receiver.Direct? && ((e.DirectWrite? && e.n < |s.receiver.f.data|) || (e.DirectAgain? && !e.vt))
  }

  /** `_fc_initContext` sets no list, `_fc_cacheRemainingFrameData` allocates it. */
  function ListOf(es: seq<Event>): Pointer {
    if es == [] then Null
    else if StartsEpisode(Exec(es[..|es| - 1]), es[|es| - 1]) then Live
    else ListOf(es[..|es| - 1])
  }

  /** `_fc_closeContext` frees the list and leaves the pointer as it is. */
  function AfterClose(p: Pointer): Pointer { if p.Live? then Freed else p }

  /** A retry thread has been created, or is about to be. */
  predicate Begun(s: State) {
    s.retries != [] || s.receiver.Handoff? || s.receiver.Sleeping? || s.receiver.Spawning?
  }

  lemma BegunIff(s: State, e: Event)
    ensures Begun(Apply(s, e)) <==> Begun(s) || StartsEpisode(s, e)
  {
  }

  /** After a close the list pointer is dangling if and only if a retry thread has been created or is
      about to be. */
  lemma {:induction false} ClosedListIsFreedIff(es: seq<Event>)
    ensures AfterClose(ListOf(es)).Freed? <==> Begun(Exec(es))
    ensures !ListOf(es).Freed?
  {
    if es != [] {
      ClosedListIsFreedIff(es[..|es| - 1]);
      BegunIff(Exec(es[..|es| - 1]), es[|es| - 1]);
    }
  }

  /** What a use of the list reads through the pointer; `_fl_destroy` and `_fl_isEmpty` test for NULL
      first. */
  datatype Access = Nothing | Sentinel | FreedSentinel

  function AccessBy(p: Pointer): Access {
    match p
    case Null => Nothing
    case Live => Sentinel
    case Freed => FreedSentinel
  }

  /** A first close never reads a freed sentinel; a second one does exactly if a retry thread has been
      created or is about to be, and then so does the next pop of every active thread. */
  lemma UsesAfterClose(es: seq<Event>)
    ensures AccessBy(ListOf(es)) != FreedSentinel
    ensures AccessBy(AfterClose(ListOf(es))) == FreedSentinel <==> Begun(Exec(es))
    ensures forall i :: 0 <= i < |Exec(es).retries| && Active(Exec(es).retries[i]) ==>
              AccessBy(AfterClose(ListOf(es))) == FreedSentinel
  {
    ClosedListIsFreedIff(es);
  }

  /** Such a run, with a thread that has yet to pop. */
  lemma PopAfterClose() returns (es: seq<Event>)
    ensures Exec(es).retries == [Created] && AccessBy(AfterClose(ListOf(es))) == FreedSentinel
  {
    es := TwoQueued();
    UsesAfterClose(es);
  }

  lemma ExecSnoc(es: seq<Event>, e: Event)
    ensures Exec(es + [e]) == Apply(Exec(es), e)
  {
    assert (es + [e])[..|es|] == es;
  }

  /** The failing family exists: a frame cached behind another one is written after it was
      destroyed. */
  lemma CachedFrameIsWrittenAfterDestroy() returns (es: seq<Event>)
    ensures |Exec(es).retries| == 1 && Exec(es).retries[0].Writing?
    ensures Exec(es).retries[0].f in Exec(es).rx.destroyed
  {
    es := TwoQueued();
    es := Extend(es, RetryStart(0));
    es := Extend(es, RetryWrite(0, 1));
    es := Extend(es, RetryPop(0));
  }

  /** A frame arrives, the terminal is full, and a retry thread is created. */
  lemma OneQueued() returns (es: seq<Event>)
    ensures var s := Exec(es);
      && s.rx == Rx([Frame(0, [1])], 1, 0, true, 0, []) && s.retries == [Created]
      && s.receiver.Idle? && s.arrived == 1
  {
    es := Extend([], Arrive([1]));
    assert Exec(es).receiver == Direct(Frame(0, [1])) && Exec(es).rx == Init.rx;
    es := Extend(es, DirectAgain(false));
    FullTerminal(Exec(es));
    es := Extend(es, ReceiverLock);
    es := Extend(es, Spawn);
  }

  lemma FullTerminal(s: State)
    requires s.receiver.Handoff? && !s.rxThread
    ensures var s' := Apply(Apply(s, ReceiverLock), Spawn);
      s' == s.(receiver := Idle, rx := s.rx.(off := true), retries := s.retries + [Created])
  {
  }

  lemma TwoQueued() returns (es: seq<Event>)
    ensures var s, a, b := Exec(es), Frame(0, [1]), Frame(1, [2]);
      s.rx == Rx([a, b], 2, 0, true, 0, [b]) && s.retries == [Created]
  {
    es := OneQueued();
    Caches(Exec(es), Frame(0, [1]), [2]);
    es := Extend(es, Arrive([2]));
  }

  lemma Caches(s: State, a: Frame, data: seq<Byte>)
    requires s.rx == Rx([a], 1, 0, true, 0, []) && s.receiver.Idle? && |data| == 1
    ensures var s', b := Apply(s, Arrive(data)), Frame(s.arrived, data);
      s'.rx == Rx([a, b], 2, 0, true, 0, [b]) && s'.retries == s.retries
  {
  }

  lemma Extend(es: seq<Event>, e: Event) returns (es': seq<Event>)
    ensures es' == es + [e] && Exec(es') == Apply(Exec(es), e)
  {
    ExecSnoc(es, e);
    es' := es + [e];
  }
}
