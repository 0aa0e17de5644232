/** The vibrator daemon: the request encoder of `immvibe/connector.c`, the parser and the worker
    thread of `immvibe/daemon.c`, and the queue between them. Each request is one send and one
    read. The driver's writes are collected in `log`. */
module VibeDaemon {
  import opened Collections
  import opened CStrings
  import opened QueueSpec
  import QueueRuns

  const MSG_VIBRATE := 1
  const MSG_STOP := 2

  datatype Request = Vibrate(duration: int) | Stop

  predicate IsInt32(d: int) { -0x8000_0000 <= d < 0x8000_0000 }

  // -------------------------------------------------------------------------
  // Wire format
  // -------------------------------------------------------------------------

  /** `immvibe_conn_vibrate` and `immvibe_conn_stop`. */
  function Encode(r: Request): string {
    match r
    case Vibrate(d) => "+" + Decimal(d) + "$"
    case Stop => "-0$"
  }

  function MessageOf(r: Request): Msg {
    match r
    case Vibrate(d) => Msg(d, MSG_VIBRATE)
    case Stop => Msg(0, MSG_STOP)
  }

  /** Nothing but white space is left: `sscanf` reports end of input, not a mismatch. */
  predicate AtEnd(s: string) {
    forall k :: 0 <= k < |s| ==> IsSpace(s[k])
  }

  /** `process_buf`: the message it enqueues, if any. `buf` is everything readable behind the
      buffer's start. On end of input the duration stays uninitialised (`garbage`) and is
      enqueued all the same, because only a zero result of `sscanf` is refused. */
  function Parse(buf: string, garbage: int): Option<Msg>
    requires buf != ""
  {
    var text := CStr(buf[1..]);
    if buf[0] == '+' then
      match ScanInt(text)
      case Some(d) => Some(Msg(d, MSG_VIBRATE))
      case None => if AtEnd(text) then Some(Msg(garbage, MSG_VIBRATE)) else None
    else if buf[0] == '-' then Some(Msg(0, MSG_STOP))
    else None
  }

  /** A `+` with nothing behind it, padded to the three bytes `process_client` waits for, queues
      whatever the uninitialised variable held. */
  lemma EmptyVibrateIsQueued(garbage: int)
    ensures Parse("+" + [NUL, NUL], garbage) == Some(Msg(garbage, MSG_VIBRATE))
  {
    var buf := "+" + [NUL, NUL];
    assert buf[1..] == [NUL, NUL] && CStr([NUL, NUL]) == "";
  }

  /** What is queued does not depend on the uninitialised variable, except exactly for a `+`
      followed by nothing but white space. */
  lemma ParseIsDeterminedIff(buf: string)
    requires buf != ""
    ensures (forall g, g' :: Parse(buf, g) == Parse(buf, g')) <==> !(buf[0] == '+' && AtEnd(CStr(buf[1..])))
  {
    var text := CStr(buf[1..]);
    if buf[0] == '+' && AtEnd(text) {
      BlankHasNoInt(text);
      assert Parse(buf, 0) != Parse(buf, 1);
    }
  }

  /** A request that starts with neither sign is refused, and so is a `+` that is followed by neither
      white space, sign nor digit; a `-` always stops. */
  lemma OtherRequests(c: char, rest: string, garbage: int)
    ensures c !in ['+', '-'] ==> Parse([c] + rest, garbage) == None
    ensures c == '-' ==> Parse([c] + rest, garbage) == Some(MessageOf(Stop))
    ensures c == '+' && rest != "" && rest[0] != NUL && !IsSpace(rest[0]) && rest[0] !in ['+', '-'] && !IsDigit(rest[0])
      ==> Parse([c] + rest, garbage) == None
  {
    assert ([c] + rest)[1..] == rest;
    if rest != "" && rest[0] != NUL { assert CStr(rest) != "" && CStr(rest)[0] == rest[0]; }
  }

  lemma {:induction false} BlankHasNoInt(s: string)
    requires AtEnd(s)
    ensures ScanInt(s) == None
  {
    if s != "" { BlankHasNoInt(s[1..]); }
  }

  lemma {:induction false} DigitsHaveNoNul(n: nat)
    ensures NUL !in Digits(n)
  {
    if n >= 10 { DigitsHaveNoNul(n / 10); }
  }

  lemma {:induction false} CStrOfPrefix(a: string, b: string)
    requires NUL !in a
    ensures CStr(a + b) == a + CStr(b)
  {
    if a != "" {
      CStrOfPrefix(a[1..], b);
      assert (a + b)[1..] == a[1..] + b;
    } else {
      assert a + b == b;
    }
  }

  /** The daemon reads back the request, whatever lies behind it in the buffer. */
  lemma RoundTrip(r: Request, junk: string, garbage: int)
    ensures Parse(Encode(r) + junk, garbage) == Some(MessageOf(r))
  {
    if r.Vibrate? {
      assert (Encode(r) + junk)[1..] == Decimal(r.duration) + "$" + junk;
      DurationScans(r.duration, junk);
    }
  }

  lemma DurationScans(d: int, junk: string)
    ensures ScanInt(CStr(Decimal(d) + "$" + junk)) == Some(d)
  {
    var body := Decimal(d) + "$";
    DigitsHaveNoNul(if d < 0 then -d else d);
    CStrOfPrefix(body, junk);
    assert body + CStr(junk) == Decimal(d) + ("$" + CStr(junk));
    ScanIntOfDecimal(d, "$" + CStr(junk));
  }

  /** For every `int` the request and its terminator fit the 16-byte buffer, so `snprintf` does
      not truncate; and it has the three bytes that `process_client` waits for. */
  lemma EncodedFits(r: Request)
    requires r.Vibrate? ==> IsInt32(r.duration)
    ensures 3 <= |Encode(r)| < 16
  {
    if r.Vibrate? {
      var d := r.duration;
      assert Pow10(10) == 10_000_000_000 by {
        assert Pow10(5) == 100_000 && Pow10(7) == 100 * Pow10(5) && Pow10(9) == 100 * Pow10(7);
      }
      DigitsLength(if d < 0 then -d else d, 10, Pow10(10));
    }
  }

  // -------------------------------------------------------------------------
  // The worker
  // -------------------------------------------------------------------------

  /** The worker waits on the queue, has just got a message, or sleeps while the motor runs. */
  datatype Worker = Waiting | Got(m: Msg) | Playing

  /** `forces` are the force values read for the messages dispatched so far. */
  datatype State = State(queue: QueueRuns.State, worker: Worker, log: seq<int>, forces: seq<int>)

  datatype Event =
    | Receive(buf: string, garbage: int, mallocOk: bool)
    | Lock              // the worker takes the queue's mutex: on entering get, or after a wake-up
    | Spurious
    | Dispatch(force: int)
    | Finish

  const WORKER := 0
  const Init := State(QueueRuns.Init, Waiting, [], [])

  /** The worker's next critical section in get, which it calls without a timeout. */
  function WorkerStep(s: State): QueueRuns.Event {
    if QueueRuns.Of(s.queue, WORKER).Outside? then QueueRuns.Enter(WORKER, false)
    else QueueRuns.Resume(WORKER)
  }

  function Apply(s: State, e: Event): State {
    match e
    case Receive(buf, garbage, mallocOk) =>
      if buf == "" then s
      else
        (match Parse(buf, garbage)
         case None => s
         case Some(m) => s.(queue := QueueRuns.Apply(s.queue, QueueRuns.Add(m, mallocOk))))
    case Lock =>
      if !s.worker.Waiting? then s
      else
        var queue := QueueRuns.Apply(s.queue, WorkerStep(s));
        if |queue.delivered| > |s.queue.delivered|
        then s.(queue := queue, worker := Got(queue.delivered[|queue.delivered| - 1]))
        else s.(queue := queue)
    case Spurious => s.(queue := QueueRuns.Apply(s.queue, QueueRuns.Spurious(WORKER)))
    case Dispatch(force) =>
      (match s.worker
       case Got(m) =>
         if m.msgtype == MSG_VIBRATE then State(s.queue, Playing, s.log + [force], s.forces + [force])
         else if m.msgtype == MSG_STOP then State(s.queue, Waiting, s.log + [0], s.forces + [force])
         else State(s.queue, Waiting, s.log, s.forces + [force])
       case _ => s)
    case Finish => if s.worker.Playing? then s.(worker := Waiting, log := s.log + [0]) else s
  }

  function Exec(es: seq<Event>): State {
    if es == [] then Init else Apply(Exec(es[..|es| - 1]), es[|es| - 1])
  }

  /** Driver writes owed to one message. */
  function WritesOf(m: Msg, force: int): seq<int> {
    if m.msgtype == MSG_VIBRATE then [force, 0] else if m.msgtype == MSG_STOP then [0] else []
  }

  function Writes(ms: seq<Msg>, forces: seq<int>): seq<int>
    requires |ms| == |forces|
  {
    if ms == [] then []
    else Writes(ms[..|ms| - 1], forces[..|ms| - 1]) + WritesOf(ms[|ms| - 1], forces[|ms| - 1])
  }

  /** The level the driver was last told to play. */
  function Motor(log: seq<int>): int {
    if log == [] then 0 else log[|log| - 1]
  }

  lemma {:induction false} WritesEndOff(ms: seq<Msg>, forces: seq<int>)
    requires |ms| == |forces|
    ensures Motor(Writes(ms, forces)) == 0
  {
    if ms != [] { WritesEndOff(ms[..|ms| - 1], forces[..|ms| - 1]); }
  }

  // -------------------------------------------------------------------------
  // What every run keeps
  // -------------------------------------------------------------------------

  ghost predicate Inv(s: State) {
    var done := s.queue.delivered;
    && QueueRuns.Inv(s.queue)
    && match s.worker
       case Waiting => |s.forces| == |done| && s.log == Writes(done, s.forces)
       case Got(m) =>
         && done != [] && m == done[|done| - 1] && |s.forces| == |done| - 1
         && s.log == Writes(done[..|done| - 1], s.forces)
       case Playing => |s.forces| == |done| && s.log + [0] == Writes(done, s.forces)
  }

  lemma DispatchKeepsInv(s: State, force: int)
    requires Inv(s) && s.worker.Got?
    ensures Inv(Apply(s, Dispatch(force)))
  {
    var done, forces := s.queue.delivered, s.forces + [force];
    var n := |done|;
    assert forces[..n - 1] == s.forces;
    var m := s.worker.m;
    assert Writes(done, forces) == s.log + WritesOf(m, force);
    if m.msgtype == MSG_VIBRATE {
      assert s.log + [force] + [0] == s.log + [force, 0];
    } else if m.msgtype != MSG_STOP {
      assert s.log + [] == s.log;
    }
  }

  lemma LockKeepsInv(s: State)
    requires Inv(s)
    ensures Inv(Apply(s, Lock))
  {
    if s.worker.Waiting? {
      var step := WorkerStep(s);
      QueueRuns.StepKeepsInv(s.queue, step);
      QueueRuns.DeliversAtMostOne(s.queue, step);
      var done, done' := s.queue.delivered, QueueRuns.Apply(s.queue, step).delivered;
      assert |done'| > |done| ==> done'[..|done'| - 1] == done;
    }
  }

  lemma StepKeepsInv(s: State, e: Event)
    requires Inv(s)
    ensures Inv(Apply(s, e))
  {
    match e
    case Receive(buf, garbage, mallocOk) =>
      if buf != "" && Parse(buf, garbage).Some? {
        QueueRuns.StepKeepsInv(s.queue, QueueRuns.Add(Parse(buf, garbage).value, mallocOk));
      }
    case Lock =>
      LockKeepsInv(s);
    case Spurious =>
      QueueRuns.StepKeepsInv(s.queue, QueueRuns.Spurious(WORKER));
    case Dispatch(force) =>
      if s.worker.Got? { DispatchKeepsInv(s, force); }
    case Finish =>
  }

  /** In every run the driver's writes are those of the delivered messages in order, and the
      motor is off whenever the worker waits on the queue. */
  lemma {:induction false} WorkerWrites(es: seq<Event>)
    ensures Inv(Exec(es))
    ensures Exec(es).worker.Waiting? ==> Motor(Exec(es).log) == 0
  {
    if es != [] {
      WorkerWrites(es[..|es| - 1]);
      StepKeepsInv(Exec(es[..|es| - 1]), es[|es| - 1]);
    }
    var s := Exec(es);
    if s.worker.Waiting? { WritesEndOff(s.queue.delivered, s.forces); }
  }

  // -------------------------------------------------------------------------
  // End to end
  // -------------------------------------------------------------------------

  /** A worker that has got the message of a request plays it: the force it is given and then nothing
      for a vibration, nothing for a stop, and it waits again. */
  lemma JobPlays(s: State, r: Request, force: int)
    requires s.worker == Got(MessageOf(r))
    ensures var s1 := Apply(s, Dispatch(force));
      && (r.Vibrate? ==> s1.log == s.log + [force] && s1.worker.Playing? && Apply(s1, Finish).log == s1.log + [0])
      && (r.Stop? ==> s1.log == s.log + [0] && s1.worker.Waiting?)
      && s1.forces == s.forces + [force] && Apply(s1, Finish).worker.Waiting?
  {
  }

  lemma {:induction false} WorkerIsUntimed(es: seq<Event>)
    ensures var p := QueueRuns.Of(Exec(es).queue, WORKER);
      p.Outside? || p == QueueRuns.Asleep(false) || p == QueueRuns.Woken(false, false)
  {
    if es != [] { WorkerIsUntimed(es[..|es| - 1]); }
  }

  /** No request is left lying: whenever one is queued and the worker waits for one, the worker's next
      turn at the mutex takes the oldest. */
  lemma WorkerProgresses(es: seq<Event>)
    requires var s := Exec(es); s.worker.Waiting? && s.queue.q.pending != []
    ensures var s := Exec(es);
      Apply(s, Lock).worker == Got(s.queue.q.pending[0])
      && Apply(s, Lock).queue.q.pending == s.queue.q.pending[1..]
  {
    WorkerIsUntimed(es);
    WorkerWrites(es);
    var s := Exec(es);
    assert !QueueRuns.Of(s.queue, WORKER).Asleep?;
  }

  /** The buffers received in the run are the encodings of `reqs`, each followed by anything. */
  ghost predicate Carries(es: seq<Event>, reqs: seq<Request>) {
    if es == [] then reqs == []
    else
      var es', e := es[..|es| - 1], es[|es| - 1];
      if e.Receive? then
        && reqs != [] && e.mallocOk && Encode(reqs[|reqs| - 1]) <= e.buf
        && Carries(es', reqs[..|reqs| - 1])
      else Carries(es', reqs)
  }

  function MessagesOf(reqs: seq<Request>): seq<Msg> {
    seq(|reqs|, i requires 0 <= i < |reqs| => MessageOf(reqs[i]))
  }

  lemma ReceiveQueues(s: State, buf: string, garbage: int, r: Request)
    requires Encode(r) <= buf
    ensures Apply(s, Receive(buf, garbage, true)).queue.added == s.queue.added + [MessageOf(r)]
  {
    assert buf == Encode(r) + buf[|Encode(r)|..];
    RoundTrip(r, buf[|Encode(r)|..], garbage);
  }

  /** What the motor is told to play for the requests: the force and then nothing for a vibration,
      nothing for a stop. */
  function Played(reqs: seq<Request>, forces: seq<int>): seq<int>
    requires |reqs| == |forces|
  {
    if reqs == [] then []
    else
      (match reqs[0]
       case Vibrate(_) => [forces[0], 0]
       case Stop => [0]) + Played(reqs[1..], forces[1..])
  }

  lemma {:induction false} PlayedSnoc(reqs: seq<Request>, forces: seq<int>)
    requires |reqs| == |forces| > 0
    ensures var n := |reqs| - 1;
      Played(reqs, forces) == Played(reqs[..n], forces[..n]) + if reqs[n].Vibrate? then [forces[n], 0] else [0]
  {
    var n := |reqs| - 1;
    if n == 0 {
      assert reqs[..0] == [] && Played(reqs[1..], forces[1..]) == [];
    } else {
      PlayedSnoc(reqs[1..], forces[1..]);
      assert reqs[..n][1..] == reqs[1..][..n - 1] && forces[..n][1..] == forces[1..][..n - 1];
      var first := if reqs[0].Vibrate? then [forces[0], 0] else [0];
      Assoc(first, Played(reqs[..n][1..], forces[..n][1..]), if reqs[n].Vibrate? then [forces[n], 0] else [0]);
    }
  }

  /** The writes owed to the queued messages are what the requests ask for. */
  lemma {:induction false} WritesArePlayed(reqs: seq<Request>, forces: seq<int>)
    requires |reqs| == |forces|
    ensures |MessagesOf(reqs)| == |reqs| && Writes(MessagesOf(reqs), forces) == Played(reqs, forces)
  {
    if reqs != [] {
      var n := |reqs| - 1;
      assert MessagesOf(reqs)[..n] == MessagesOf(reqs[..n]);
      WritesArePlayed(reqs[..n], forces[..n]);
      PlayedSnoc(reqs, forces);
    }
  }

  lemma {:induction false} RequestsAreQueued(es: seq<Event>, reqs: seq<Request>)
    requires Carries(es, reqs)
    ensures Exec(es).queue.added == MessagesOf(reqs)
  {
    if es != [] {
      var es', e := es[..|es| - 1], es[|es| - 1];
      if e.Receive? {
        var r := reqs[|reqs| - 1];
        RequestsAreQueued(es', reqs[..|reqs| - 1]);
        ReceiveQueues(Exec(es'), e.buf, e.garbage, r);
        assert MessagesOf(reqs) == MessagesOf(reqs[..|reqs| - 1]) + [MessageOf(r)];
      } else {
        RequestsAreQueued(es', reqs);
      }
    }
  }

  /** From the clients' calls to the driver: once the queue is drained and the worker waits, the
      driver has seen (force, 0) for every vibrate and (0) for every stop, in request order. */
  lemma EndToEnd(es: seq<Event>, reqs: seq<Request>)
    requires Carries(es, reqs)
    requires Exec(es).worker.Waiting? && Exec(es).queue.q.pending == []
    ensures |Exec(es).forces| == |reqs|
    ensures Exec(es).log == Played(reqs, Exec(es).forces) && Motor(Exec(es).log) == 0
  {
    RequestsAreQueued(es, reqs);
    WorkerWrites(es);
    var queue := Exec(es).queue;
    assert queue.delivered + [] == queue.delivered;
    WritesArePlayed(reqs, Exec(es).forces);
  }
}

/** `process_buf` and one round of `worker_thread_proc` over the linked queue. */
module VibeDaemonCode {
  import opened Collections
  import opened CStrings
  import opened QueueSpec
  import opened ThreadQueue
  import opened VibeDaemon

  class Daemon {
    const work: MessageQueue
    var log: seq<int>

    constructor ()
      ensures work.Valid() && work.Value() == Empty && log == []
      ensures fresh(work) && work.queue == [] && work.spare == []
    {
      work := new MessageQueue();
      log := [];
    }

    /** Enqueues exactly the message that `Parse` gives, if any. */
    method ProcessBuf(buf: string, garbage: int, mallocOk: bool)
      requires buf != "" && work.Valid()
      modifies work, work.queue, work.spare
      ensures work.Valid()
      ensures work.Value() == match Parse(buf, garbage)
                              case None => old(work.Value())
                              case Some(m) => Added(old(work.Value()), m, mallocOk)
      ensures forall i :: 0 <= i < |work.queue| ==>
        work.queue[i] in old(work.queue) || work.queue[i] in old(work.spare) || fresh(work.queue[i])
      ensures forall i :: 0 <= i < |work.spare| ==>
        work.spare[i] in old(work.queue) || work.spare[i] in old(work.spare) || fresh(work.spare[i])
    {
      var ok, wake;
      if buf[0] == '+' {
        var text := CStr(buf[1..]);
        var duration := ScanInt(text);
        if duration == None && !AtEnd(text) { return; }
        var d := if duration == None then garbage else duration.value;
        ok, wake := work.Add(Msg(d, MSG_VIBRATE), mallocOk);
      } else if buf[0] == '-' {
        ok, wake := work.Add(Msg(0, MSG_STOP), mallocOk);
      }
    }

    /** One round once get returns: the oldest message is taken and its writes are issued. */
    method WorkerRound(force: int)
      requires work.Valid() && work.first != null
      modifies this, work, work.queue
      ensures work.Valid() && old(work.Value()).pending != []
      ensures work.Value() == Taken(old(work.Value()))
      ensures log == old(log) + WritesOf(old(work.Value()).pending[0], force)
      ensures forall i :: 0 <= i < |work.queue| ==>
        work.queue[i] in old(work.queue) || work.queue[i] in old(work.spare)
      ensures forall i :: 0 <= i < |work.spare| ==>
        work.spare[i] in old(work.queue) || work.spare[i] in old(work.spare)
    {
      var m, qlength := work.Get();
      Play(m, force);
    }

    method Play(m: Msg, force: int)
      modifies this`log
      ensures log == old(log) + WritesOf(m, force)
    {
      if m.msgtype == MSG_VIBRATE {
        log := log + [force];
        log := log + [0];
      } else if m.msgtype == MSG_STOP {
        log := log + [0];
      }
    }
  }
}
