/** The message queue of `immvibe/threadqueue.c` as a value: the pending messages in order and
    the number of list nodes kept for reuse. */
module QueueSpec {

  const MSGPOOL_SIZE := 256

  /** `struct threadmsg`; `data` is a pointer, 0 being NULL. */
  datatype Msg = Msg(data: int, msgtype: int)

  datatype Queue = Queue(pending: seq<Msg>, pooled: nat)

  const Empty := Queue([], 0)

  /** A node for the new message comes from the pool, else from `malloc`. */
  predicate CanAdd(q: Queue, mallocOk: bool) {
    q.pooled > 0 || mallocOk
  }

  /** `thread_queue_add`; out of memory changes nothing. */
  function Added(q: Queue, m: Msg, mallocOk: bool): Queue {
    if CanAdd(q, mallocOk)
    then Queue(q.pending + [m], if q.pooled > 0 then q.pooled - 1 else 0)
    else q
  }

  /** Pool size after `release_msglist` hands back one node while `length` messages are queued. */
  function Released(length: nat, pooled: nat): nat {
    var kept := if pooled > length / 8 + MSGPOOL_SIZE then pooled else pooled + 1;
    if kept > length / 4 + MSGPOOL_SIZE * 10 then kept - 1 else kept
  }

  /** The removal at the end of `thread_queue_get`. */
  function Taken(q: Queue): Queue
    requires q.pending != []
  {
    Queue(q.pending[1..], Released(|q.pending| - 1, q.pooled))
  }

  /** Bounds of the pool; `high` is the largest length reached so far. */
  ghost predicate PoolBounded(q: Queue, high: nat) {
    && |q.pending| <= high
    && q.pooled <= |q.pending| / 4 + MSGPOOL_SIZE * 10
    && q.pooled <= high / 8 + MSGPOOL_SIZE + 1
  }

  function Max(a: nat, b: nat): nat { if a < b then b else a }

  lemma PoolStaysBounded(q: Queue, high: nat, m: Msg, mallocOk: bool)
    requires PoolBounded(q, high)
    ensures PoolBounded(Added(q, m, mallocOk), Max(high, |Added(q, m, mallocOk).pending|))
    ensures q.pending != [] ==> PoolBounded(Taken(q), high)
  {
    var n := |q.pending|;
    assert high / 8 <= Max(high, n + 1) / 8;
    if n > 0 {
      assert n / 4 <= (n - 1) / 4 + 1 && (n - 1) / 8 <= high / 8 && (n - 1) / 8 <= (n - 1) / 4;
    }
  }

  /** A get keeps its node: it goes to the pool, unless that holds more than an eighth of the length
      plus 256; beyond a quarter plus 2560 the pool gives one up. */
  lemma TakenPools(q: Queue)
    requires q.pending != []
    ensures var n := |q.pending| - 1;
      && (q.pooled <= n / 8 + 256 ==> Taken(q).pooled == q.pooled + 1)
      && (n / 8 + 256 < q.pooled <= n / 4 + 2560 ==> Taken(q).pooled == q.pooled)
      && (n / 4 + 2560 < q.pooled ==> Taken(q).pooled == q.pooled - 1)
      && Taken(q).pooled > 0
  {
    var n := |q.pending| - 1;
    assert n / 8 <= n / 4;
  }

  /** An add takes a node from the pool while there is one, and a new one only then. */
  lemma AddReuses(q: Queue, m: Msg, mallocOk: bool)
    ensures var q' := Added(q, m, mallocOk);
      && (q.pooled > 0 ==> q'.pending == q.pending + [m] && q'.pooled == q.pooled - 1)
      && (q.pooled == 0 ==> q'.pooled == 0 && q'.pending == q.pending + if mallocOk then [m] else [])
  {
  }
}
