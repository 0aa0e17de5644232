/** Threads around the queue of `immvibe/threadqueue.c`. An event is one critical section under
    the queue's mutex, or a wake-up of a sleeping thread; a run is any sequence of events, with
    any number of threads. Events that are not possible in a state leave it unchanged. */
module QueueRuns {
  import opened QueueSpec

  /** Where a thread stands in `thread_queue_get`. A woken thread still has to take the mutex. */
  datatype Phase = Outside | Asleep(timed: bool) | Woken(timed: bool, timedOut: bool)

  /** `added` are the messages of successful adds in lock order, `delivered` those handed to
      callers of get, `high` is the largest queue length so far. */
  datatype State = State(q: Queue, threads: map<nat, Phase>, added: seq<Msg>, delivered: seq<Msg>, high: nat)

  datatype Event =
    | Add(m: Msg, mallocOk: bool)
    | Enter(t: nat, timed: bool)
    | Resume(t: nat)
    | Spurious(t: nat)
    | Expire(t: nat)

  const Init := State(Empty, map[], [], [], 0)

  function Of(s: State, t: nat): Phase {
    if t in s.threads then s.threads[t] else Outside
  }

  /** `pthread_cond_broadcast`. */
  function WakeAll(threads: map<nat, Phase>): map<nat, Phase> {
    map t | t in threads :: if threads[t].Asleep? then Woken(threads[t].timed, false) else threads[t]
  }

  /** `thread_queue_add`: the broadcast is issued only when the queue was empty. */
  function DoAdd(s: State, m: Msg, mallocOk: bool): State {
    if !CanAdd(s.q, mallocOk) then s
    else
      var q := Added(s.q, m, mallocOk);
      State(q, if s.q.pending == [] then WakeAll(s.threads) else s.threads,
            s.added + [m], s.delivered, Max(s.high, |q.pending|))
  }

  /** The wait loop's test with the mutex held: sleep on an empty queue, else take a message. */
  function Try(s: State, t: nat, timed: bool): State {
    if s.q.pending == [] then s.(threads := s.threads[t := Asleep(timed)])
    else s.(q := Taken(s.q), threads := s.threads[t := Outside], delivered := s.delivered + [s.q.pending[0]])
  }

  function Apply(s: State, e: Event): State {
    match e
    case Add(m, mallocOk) => DoAdd(s, m, mallocOk)
    case Enter(t, timed) => if Of(s, t).Outside? then Try(s, t, timed) else s
    case Resume(t) =>
      (match Of(s, t)
       case Woken(timed, timedOut) =>
         // ETIMEDOUT ends the loop and get returns without looking at the queue again
         if timedOut then s.(threads := s.threads[t := Outside]) else Try(s, t, timed)
       case _ => s)
    case Spurious(t) =>
      if Of(s, t).Asleep? then s.(threads := s.threads[t := Woken(Of(s, t).timed, false)]) else s
    case Expire(t) =>
      if Of(s, t) == Asleep(true) then s.(threads := s.threads[t := Woken(true, true)]) else s
  }

  function Exec(es: seq<Event>): State {
    if es == [] then Init else Apply(Exec(es[..|es| - 1]), es[|es| - 1])
  }

  // -------------------------------------------------------------------------
  // What every run keeps
  // -------------------------------------------------------------------------

  ghost predicate Inv(s: State) {
    && s.delivered + s.q.pending == s.added
    && (s.q.pending != [] ==> forall t :: t in s.threads ==> !s.threads[t].Asleep?)
    && PoolBounded(s.q, s.high)
  }

  lemma TryKeepsInv(s: State, t: nat, timed: bool)
    requires Inv(s)
    ensures Inv(Try(s, t, timed))
  {
    PoolStaysBounded(s.q, s.high, Msg(0, 0), false);
    if s.q.pending != [] {
      assert s.q.pending == [s.q.pending[0]] + s.q.pending[1..];
    }
  }

  lemma StepKeepsInv(s: State, e: Event)
    requires Inv(s)
    ensures Inv(Apply(s, e))
  {
    match e
    case Add(m, mallocOk) =>
      PoolStaysBounded(s.q, s.high, m, mallocOk);
      assert s.delivered + (s.q.pending + [m]) == s.delivered + s.q.pending + [m];
    case Enter(t, timed) =>
      TryKeepsInv(s, t, timed);
    case Resume(t) =>
      TryKeepsInv(s, t, true);
      TryKeepsInv(s, t, false);
    case Spurious(_) =>
    case Expire(_) =>
  }

  lemma DeliversAtMostOne(s: State, e: Event)
    ensures Apply(s, e).delivered == s.delivered ||
            (s.q.pending != [] && Apply(s, e).delivered == s.delivered + [s.q.pending[0]])
  {
  }

  /** For every interleaving of any number of producers and consumers: what was delivered,
      followed by what is still queued, is what was added; a non-empty queue has no thread asleep
      on the condition variable; the node pool stays within both bounds. */
  lemma {:induction false} RunsAreSafe(es: seq<Event>)
    ensures Inv(Exec(es))
  {
    if es != [] {
      RunsAreSafe(es[..|es| - 1]);
      StepKeepsInv(Exec(es[..|es| - 1]), es[|es| - 1]);
    }
  }

  /** No lost wake-up: while a message is pending, every thread inside get has been woken, and
      running it delivers the oldest message unless its wait has timed out. */
  lemma NoLostWakeUp(es: seq<Event>, t: nat)
    requires Exec(es).q.pending != [] && !Of(Exec(es), t).Outside?
    ensures Of(Exec(es), t).Woken?
    ensures !Of(Exec(es), t).timedOut ==>
      var s := Exec(es);
      Apply(s, Resume(t)).delivered == s.delivered + [s.q.pending[0]] && Of(Apply(s, Resume(t)), t) == Outside
  {
    RunsAreSafe(es);
  }

  // -------------------------------------------------------------------------
  // Concurrent runs are sequential histories of their successful calls
  // -------------------------------------------------------------------------

  /** A call that returned 0, with the message it took or gave. */
  datatype Op = Put(m: Msg) | Got(m: Msg)

  /** What an event lets its caller return successfully; nothing for ENOMEM and ETIMEDOUT. */
  function Outcome(s: State, e: Event): seq<Op> {
    match e
    case Add(m, mallocOk) => if CanAdd(s.q, mallocOk) then [Put(m)] else []
    case Enter(t, _) => if Of(s, t).Outside? then Front(s.q) else []
    case Resume(t) => if Of(s, t).Woken? && !Of(s, t).timedOut then Front(s.q) else []
    case Spurious(_) => []
    case Expire(_) => []
  }

  function Front(q: Queue): seq<Op> { if q.pending == [] then [] else [Got(q.pending[0])] }

  function History(es: seq<Event>): seq<Op> {
    if es == [] then [] else History(es[..|es| - 1]) + Outcome(Exec(es[..|es| - 1]), es[|es| - 1])
  }

  /** A queue used by one caller that never waits and never fails. */
  function Replay(h: seq<Op>): Queue {
    if h == [] then Empty
    else
      var q := Replay(h[..|h| - 1]);
      match h[|h| - 1]
      case Put(m) => Added(q, m, true)
      case Got(_) => if q.pending == [] then q else Taken(q)
  }

  /** Every get returns the oldest message of that queue. */
  ghost predicate Legal(h: seq<Op>) {
    forall k :: 0 <= k < |h| && h[k].Got? ==> Front(Replay(h[..k])) == [h[k]]
  }

  lemma {:induction false} ReplaySnoc(h: seq<Op>, op: Op)
    requires Legal(h) && (op.Got? ==> Front(Replay(h)) == [op])
    ensures Legal(h + [op])
    ensures Replay(h + [op]) == if op.Put? then Added(Replay(h), op.m, true) else Taken(Replay(h))
  {
    var h' := h + [op];
    assert h'[..|h|] == h;
    forall k | 0 <= k < |h'| && h'[k].Got? ensures Front(Replay(h'[..k])) == [h'[k]] {
      if k < |h| { assert h'[..k] == h[..k]; }
    }
  }

  lemma OutcomeIs(s: State, e: Event)
    ensures var out, q := Outcome(s, e), Apply(s, e).q;
      || (out == [] && q == s.q)
      || (|out| == 1 && out[0].Put? && q == Added(s.q, out[0].m, true))
      || (out == Front(s.q) && s.q.pending != [] && q == Taken(s.q))
  {
  }

  lemma {:induction false} StepIsSequential(s: State, h: seq<Op>, e: Event)
    requires Legal(h) && Replay(h) == s.q
    ensures Legal(h + Outcome(s, e)) && Replay(h + Outcome(s, e)) == Apply(s, e).q
  {
    var out := Outcome(s, e);
    OutcomeIs(s, e);
    if out == [] {
      assert h + out == h;
    } else {
      assert out == [out[0]];
      ReplaySnoc(h, out[0]);
    }
  }

  /** Whatever the interleaving, the queue is the one that the successful calls alone, made one
      after the other by a single caller, leave behind, and each get returns what it returns
      there. Failed calls, sleeping and waking leave no trace. */
  lemma {:induction false} RunsAreSequential(es: seq<Event>)
    ensures Legal(History(es)) && Replay(History(es)) == Exec(es).q
  {
    if es != [] {
      var es', e := es[..|es| - 1], es[|es| - 1];
      RunsAreSequential(es');
      StepIsSequential(Exec(es'), History(es'), e);
    }
  }

  /** Right after a delivery an add succeeds whatever `malloc` does: the delivered message's node, or
      another one, is in the pool. */
  lemma AddAfterDelivery(es: seq<Event>, e: Event, m: Msg)
    requires Exec(es + [e]).delivered != Exec(es).delivered
    ensures Apply(Exec(es + [e]), Add(m, false)).added == Exec(es + [e]).added + [m]
  {
    assert (es + [e])[..|es|] == es;
    var s := Exec(es);
    if s.q.pending != [] { TakenPools(s.q); }
  }

  /** Timeouts are real: a thread gets into a get with the timeout it called it with, keeps it there,
      and times out only by the expiry of its own timed wait; a broadcast or a spurious wake-up is
      none. A get that timed out returns without a message. */
  lemma TimeoutsAreReal(s: State, e: Event, t: nat)
    ensures var p, p' := Of(s, t), Of(Apply(s, e), t);
      && (p.Outside? && !p'.Outside? ==> e == Enter(t, p'.timed))
      && (!p.Outside? && !p'.Outside? ==> p'.timed == p.timed)
      && (p'.Woken? && p'.timedOut && p' != p ==> e == Expire(t) && p == Asleep(true))
      && (p == Asleep(true) && e == Expire(t) ==> p' == Woken(true, true))
      && (p == Woken(true, true) && e == Resume(t) ==> p' == Outside && Apply(s, e).q == s.q)
  {
  }

  /** A get without a timeout does not time out. */
  lemma {:induction false} UntimedNeverExpires(es: seq<Event>, t: nat)
    ensures Of(Exec(es), t).Woken? && Of(Exec(es), t).timedOut ==> Of(Exec(es), t).timed
  {
    if es != [] { UntimedNeverExpires(es[..|es| - 1], t); }
  }

  /** The k-th message delivered is the k-th message added. */
  lemma DeliveredInAddOrder(es: seq<Event>, k: nat)
    requires k < |Exec(es).delivered|
    ensures k < |Exec(es).added| && Exec(es).delivered[k] == Exec(es).added[k]
  {
    RunsAreSafe(es);
    var s := Exec(es);
    assert (s.delivered + s.q.pending)[k] == s.delivered[k];
  }
}
