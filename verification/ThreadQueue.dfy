/** `immvibe/threadqueue.c` on the heap: a hand-linked message list and a second list of spare
    nodes. Each method is one critical section and refines the value-level step of `QueueSpec`.
    `live` is the set of nodes obtained from `malloc` and not yet freed. */
module ThreadQueue {
  import opened Collections
  import opened QueueSpec

  class Node {
    var msg: Msg
    var next: Node?
    constructor ()
      ensures next == null
    {
      msg, next := Msg(0, 0), null;
    }
  }

  /** `ns` are the nodes reached from `head` through `next`, ending in NULL. */
  ghost predicate Chain(head: Node?, ns: seq<Node>)
    reads ns
  {
    && head == Head(ns)
    && (forall i :: 0 <= i < |ns| - 1 ==> ns[i].next == ns[i + 1])
    && (ns != [] ==> ns[|ns| - 1].next == null)
    && NoRepeats(ns)
  }

  function Head(ns: seq<Node>): Node? { if ns == [] then null else ns[0] }

  function Last(ns: seq<Node>): Node? { if ns == [] then null else ns[|ns| - 1] }

  ghost function Msgs(ns: seq<Node>): seq<Msg>
    reads ns
  {
    seq(|ns|, i requires 0 <= i < |ns| reads ns => ns[i].msg)
  }

  class MessageQueue {
    var first: Node?
    var last: Node?
    var msgpool: Node?
    var length: int
    var msgpoolLength: int

    ghost var queue: seq<Node>
    ghost var spare: seq<Node>
    ghost var live: set<Node>
    ghost var freedData: seq<int>

    /** Both lists are well formed and disjoint; together with `held`, the node in the hands of
        the running operation, they are exactly the live nodes. */
    ghost predicate Lists(held: set<Node>)
      reads this, queue, spare
    {
      && Chain(first, queue) && Chain(msgpool, spare) && last == Last(queue)
      && (forall i, j :: 0 <= i < |queue| && 0 <= j < |spare| ==> queue[i] != spare[j])
      && length == |queue| && msgpoolLength == |spare|
      && (forall n :: n in spare ==> n.msg == Msg(0, 0))
      && live == Elements(queue) + Elements(spare) + held
      && held !! Elements(queue) && held !! Elements(spare)
    }

    ghost predicate Valid()
      reads this, queue, spare
    {
      Lists({})
    }

    ghost function Value(): Queue
      reads this, queue
    {
      Queue(Msgs(queue), |spare|)
    }

    /** `thread_queue_init`. */
    constructor ()
      ensures Valid() && Value() == Empty && live == {} && freedData == [] && queue == [] && spare == []
    {
      first, last, msgpool, length, msgpoolLength := null, null, null, 0, 0;
      queue, spare, live, freedData := [], [], {}, [];
    }

    ghost method Free(n: Node)
      requires n in live
      modifies this`live
      ensures live == old(live) - {n}
    {
      live := live - {n};
    }

    /** `get_msglist`. */
    method GetNode(mallocOk: bool) returns (node: Node?)
      requires Valid()
      modifies this
      ensures node != null <==> CanAdd(old(Value()), mallocOk)
      ensures node != null ==> Lists({node}) && node !in queue && node !in spare
      ensures node == null ==> Valid() && unchanged(this)
      ensures node in old(spare) || node == null || fresh(node)
      ensures queue == old(queue) && freedData == old(freedData)
      ensures |spare| == if old(|spare|) > 0 then old(|spare|) - 1 else 0
      ensures forall n :: n in spare ==> n in old(spare)
    {
      if msgpool != null {
        node := msgpool;
        assert spare != [] && node == spare[0];
        assert Elements(spare) == {node} + Elements(spare[1..]);
        msgpool, msgpoolLength := node.next, msgpoolLength - 1;
        spare := spare[1..];
      } else if mallocOk {
        node := new Node();
        live := live + {node};
      } else {
        node := null;
      }
    }

    /** `thread_queue_add`. `wake` tells that the condition variable was broadcast. */
    method Add(m: Msg, mallocOk: bool) returns (ok: bool, wake: bool)
      requires Valid()
      modifies this, queue, spare
      ensures Valid() && ok == CanAdd(old(Value()), mallocOk)
      ensures Value() == Added(old(Value()), m, mallocOk)
      ensures wake == (ok && old(Value()).pending == [])
      ensures freedData == old(freedData)
      ensures !ok ==> unchanged(this) && unchanged(old(queue)) && unchanged(old(spare))
      ensures forall i :: 0 <= i < |queue| ==> queue[i] in old(queue) || queue[i] in old(spare) || fresh(queue[i])
      ensures forall i :: 0 <= i < |spare| ==> spare[i] in old(queue) || spare[i] in old(spare) || fresh(spare[i])
    {
      var node := GetNode(mallocOk);
      if node == null { return false, false; }
      ok := true;
      wake := length == 0;
      Append(node, m);
    }

    /** Links a node behind `last`. */
    method Append(node: Node, m: Msg)
      requires Lists({node})
      modifies this`first, this`last, this`length, this`queue, queue, node
      ensures Valid() && Msgs(queue) == old(Msgs(queue)) + [m] && queue == old(queue) + [node]
    {
      node.msg, node.next := m, null;
      if last == null { LinkFirst(node); } else { LinkLast(node); }
    }

    method LinkFirst(node: Node)
      requires Lists({node}) && last == null && node.next == null
      modifies this`first, this`last, this`length, this`queue
      ensures Valid() && queue == [node] && old(queue) == []
    {
      last, first := node, node;
      length := length + 1;
      queue := [node];
      assert Elements(queue) == {node} && Elements(old(queue)) == {};
    }

    method LinkLast(node: Node)
      requires Lists({node}) && last != null && node.next == null
      modifies this`last, this`length, this`queue, last`next
      ensures Valid() && queue == old(queue) + [node]
    {
      last.next := node;
      last := node;
      length := length + 1;
      queue := queue + [node];
      assert Elements(queue) == Elements(old(queue)) + {node};
    }

    /** `release_msglist`: frees the node or pools it, then trims the pool by one node if needed.
        The trim dereferences `msgpool`, which is never NULL there. */
    method Release(node: Node)
      requires Lists({node})
      modifies this, node
      ensures Valid() && queue == old(queue) && |spare| == Released(|queue|, old(|spare|))
      ensures freedData == old(freedData) && forall n :: n in spare ==> n in old(spare) || n == node
      ensures Msgs(queue) == old(Msgs(queue))
      ensures if old(|spare|) <= |queue| / 8 + 256 then spare == [node] + old(spare) else node !in live
    {
      if msgpoolLength > length / 8 + MSGPOOL_SIZE {
        Free(node);
      } else {
        PoolPush(node);
      }
      if msgpoolLength > length / 4 + MSGPOOL_SIZE * 10 {
        PoolTrim();
      }
    }

    method PoolPush(node: Node)
      requires Lists({node})
      modifies this`msgpool, this`msgpoolLength, this`spare, node
      ensures Valid() && spare == [node] + old(spare)
    {
      node.msg, node.next := Msg(0, 0), msgpool;
      msgpool, msgpoolLength := node, msgpoolLength + 1;
      spare := [node] + spare;
      assert Elements(spare) == Elements(old(spare)) + {node};
    }

    method PoolTrim()
      requires Valid() && msgpoolLength > 0
      modifies this`msgpool, this`msgpoolLength, this`spare, this`live
      ensures Valid() && old(spare) != [] && spare == old(spare)[1..]
    {
      var tmp := msgpool;
      assert Elements(spare) == {tmp} + Elements(spare[1..]);
      msgpool := tmp.next;
      Free(tmp);
      msgpoolLength := msgpoolLength - 1;
      spare := spare[1..];
    }

    /** Unlinks the oldest message. */
    method Unlink() returns (node: Node)
      requires Valid() && first != null
      modifies this`first, this`last, this`length, this`queue
      ensures Lists({node}) && old(queue) == [node] + queue
      ensures old(Msgs(queue)) == [node.msg] + Msgs(queue)
    {
      node := first;
      assert Elements(queue) == {node} + Elements(queue[1..]);
      first, length := first.next, length - 1;
      queue := queue[1..];
      if first == null {
        last, length := null, 0;
      }
    }

    /** `thread_queue_get` once its wait loop has ended with a message present. */
    method Get() returns (m: Msg, qlength: int)
      requires Valid() && first != null
      modifies this, queue
      ensures Valid() && old(Value()).pending != []
      ensures m == old(Value()).pending[0] && Value() == Taken(old(Value()))
      ensures qlength == |Value().pending| && freedData == old(freedData)
      ensures old(|spare|) <= |queue| / 8 + 256 ==> spare == [old(queue)[0]] + old(spare)
      ensures forall i :: 0 <= i < |queue| ==> queue[i] in old(queue) || queue[i] in old(spare)
      ensures forall i :: 0 <= i < |spare| ==> spare[i] in old(queue) || spare[i] in old(spare)
    {
      var node := Unlink();
      assert node in old(queue) && forall n :: n in queue ==> n in old(queue);
      m, qlength := node.msg, length;
      Release(node);
    }

    /** `thread_queue_length`. */
    method Length() returns (n: int)
      requires Valid()
      ensures n == |Value().pending|
    {
      n := length;
    }

    method FreeNode(rec: Node, freedata: bool)
      requires rec in live
      modifies this`live, this`freedData
      ensures live == old(live) - {rec}
      ensures freedData == old(freedData) + if freedata && rec.msg.data != 0 then [rec.msg.data] else []
    {
      if freedata && rec.msg.data != 0 { freedData := freedData + [rec.msg.data]; }
      Free(rec);
    }

    /** One round of the loop of `thread_queue_cleanup`: frees the nodes of one list. */
    method FreeList(head: Node?, freedata: bool, ghost ns: seq<Node>)
      requires Chain(head, ns) && Elements(ns) <= live
      modifies this`live, this`freedData
      ensures live == old(live) - Elements(ns)
      ensures freedData == old(freedData) + if freedata then Pointers(Msgs(ns)) else []
    {
      var rec := head;
      ghost var k, ms := 0, Msgs(ns);
      while rec != null
        invariant 0 <= k <= |ns|
        invariant rec == if k < |ns| then ns[k] else null
        invariant live == old(live) - Elements(ns[..k])
        invariant freedData == old(freedData) + if freedata then Pointers(ms[..k]) else []
        decreases |ns| - k
      {
        ElementsNext(ns, k);
        assert rec in Elements(ns) && rec.msg == ms[k];
        var next := rec.next;
        FreeNode(rec, freedata);
        PointersNext(ms, k);
        assert live == old(live) - Elements(ns[..k + 1]);
        rec, k := next, k + 1;
      }
      assert ns[..k] == ns && ms[..k] == ms;
    }

    /** `thread_queue_cleanup`: every live node is freed once. With `freedata` the non-NULL data
        of the pending messages is freed, in order, and nothing else. */
    method Cleanup(freedata: bool)
      requires Valid()
      modifies this`live, this`freedData
      ensures live == {}
      ensures freedData == old(freedData) + if freedata then Pointers(old(Value()).pending) else []
    {
      FreeList(first, freedata, queue);
      FreeList(msgpool, freedata, spare);
      NullPointers(Msgs(spare));
    }
  }

  /** The non-NULL data pointers of the messages. */
  ghost function Pointers(ms: seq<Msg>): seq<int> {
    if ms == [] then []
    else Pointers(ms[..|ms| - 1]) + if ms[|ms| - 1].data == 0 then [] else [ms[|ms| - 1].data]
  }

  lemma PointersNext(ms: seq<Msg>, k: nat)
    requires k < |ms|
    ensures Pointers(ms[..k + 1]) == Pointers(ms[..k]) + if ms[k].data == 0 then [] else [ms[k].data]
  {
    assert ms[..k + 1][..k] == ms[..k];
  }

  lemma {:induction false} NullPointers(ms: seq<Msg>)
    requires forall i :: 0 <= i < |ms| ==> ms[i] == Msg(0, 0)
    ensures Pointers(ms) == []
  {
    if ms != [] { NullPointers(ms[..|ms| - 1]); }
  }
}
