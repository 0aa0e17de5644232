/** The frame list and the retry loop of `mtk/gsm0710muxd/src/gsm0710muxd_fc.c` on the heap. */
module FrameRing {
  import opened Collections
  import opened FlowSpec

  class RingNode {
    var frame: Option<Frame>
    var next: RingNode
    constructor ()
      ensures frame == None && next == this
    {
      frame, next := None, this;
    }
  }

  /** A circle through `head`, the sentinel, and then the data nodes `ns`, oldest first. */
  ghost predicate Ring(head: RingNode, ns: seq<RingNode>)
    reads head, ns
  {
    && head !in ns
    && (forall i, j :: 0 <= i < j < |ns| ==> ns[i] != ns[j])
    && head.next == (if ns == [] then head else ns[0])
    && (forall i :: 0 <= i < |ns| - 1 ==> ns[i].next == ns[i + 1])
    && (ns != [] ==> ns[|ns| - 1].next == head)
    && head.frame == None
  }

  lemma HeadMoves<T>(done: seq<T>, left: seq<T>)
    requires left != []
    ensures done + left == done + [left[0]] + left[1..]
  {
  }

  /** `head` is `channel->rx_fl`, NULL before the first use. `live` are the nodes obtained from
      `calloc` and not yet freed; `destroyed` the frames given to `destroy_frame`. */
  class FrameList {
    var head: RingNode?
    ghost var nodes: seq<RingNode>
    ghost var contents: seq<Frame>
    ghost var live: set<RingNode>
    var destroyed: seq<Frame>

    ghost predicate Valid()
      reads this, head, nodes
    {
      && |contents| == |nodes|
      && (forall i :: 0 <= i < |nodes| ==> nodes[i].frame == Some(contents[i]))
      && if head == null then nodes == [] && live == {}
         else Ring(head, nodes) && live == Elements(nodes) + {head}
    }

    constructor ()
      ensures Valid() && head == null && contents == [] && destroyed == []
    {
      head, nodes, contents, live, destroyed := null, [], [], {}, [];
    }

    /** `_fl_isEmpty`. */
    method IsEmpty() returns (empty: bool)
      requires Valid()
      ensures empty <==> contents == []
    {
      empty := head == null || head.next == head;
    }

    /** `_fl_pushFrame`: the fresh node becomes the sentinel, the old sentinel the newest data
        node. Dereferences `rx_fl`. */
    method Push(frame: Frame)
      requires Valid() && head != null
      modifies this`head, this`nodes, this`contents, this`live, head
      ensures Valid() && head != null && fresh(head) && contents == old(contents) + [frame]
    {
      var sentinel := new RingNode();
      sentinel.next := head.next;
      sentinel.frame := head.frame;
      head.next := sentinel;
      head.frame := Some(frame);
      nodes, contents := nodes + [head], contents + [frame];
      head := sentinel;
      live := live + {sentinel};
      assert Elements(nodes) == Elements(old(nodes)) + {old(head)};
    }

    /** `_fl_popFrame`: removes the oldest frame and frees its node. */
    method Pop() returns (frame: Option<Frame>)
      requires Valid()
      modifies this`nodes, this`contents, this`live, head
      ensures Valid()
      ensures frame == if old(contents) == [] then None else Some(old(contents)[0])
      ensures contents == if old(contents) == [] then [] else old(contents)[1..]
      ensures frame.Some? ==> old(head) != null && live == old(live) - {old(head.next)} && old(head.next) in old(live)
    {
      if head == null || head.next == head { return None; }
      var node := head.next;
      frame := node.frame;
      assert node == nodes[0] && Elements(nodes) == {node} + Elements(nodes[1..]);
      head.next := head.next.next;
      live := live - {node};
      nodes, contents := nodes[1..], contents[1..];
    }

    /** `_fl_cleanNodes`: pops and destroys until empty; each queued frame once, in order. */
    method Clean()
      requires Valid()
      modifies this`nodes, this`contents, this`live, this`destroyed, head
      ensures Valid() && contents == []
      ensures destroyed == old(destroyed) + old(contents)
      ensures live == if head == null then {} else {head}
    {
      ghost var all := destroyed + contents;
      var empty := IsEmpty();
      while !empty
        invariant Valid() && (empty <==> contents == [])
        invariant destroyed + contents == all
        decreases |contents|
      {
        HeadMoves(destroyed, contents);
        PopAndDestroy();
        empty := IsEmpty();
      }
    }

    method PopAndDestroy()
      requires Valid() && contents != []
      modifies this`nodes, this`contents, this`live, this`destroyed, head
      ensures Valid() && contents == old(contents)[1..] && destroyed == old(destroyed) + [old(contents)[0]]
    {
      var frame := Pop();
      destroyed := destroyed + [frame.value];
    }

    /** `_fl_init`. */
    method Init()
      requires Valid()
      modifies this, head
      ensures Valid() && head != null && contents == [] && (head == old(head) || fresh(head))
      ensures destroyed == old(destroyed) + old(contents)
    {
      if head == null {
        head := new RingNode();
        live := {head};
      } else {
        var empty := IsEmpty();
        if !empty { Clean(); }
      }
    }

    /** `_fl_init` and the first push. */
    method Start(frame: Frame)
      requires Valid()
      modifies this, head
      ensures Valid() && head != null && fresh(head) && contents == [frame]
      ensures destroyed == old(destroyed) + old(contents)
    {
      Init();
      Push(frame);
    }

    /** `_fl_destroy`: the sentinel is freed too, and the pointer to it stays behind. */
    method Destroy()
      requires Valid()
      modifies this`nodes, this`contents, this`live, this`destroyed, head
      ensures contents == [] && live == {} && destroyed == old(destroyed) + old(contents)
      ensures Valid() <==> head == null
    {
      if head != null {
        var empty := IsEmpty();
        if !empty { Clean(); }
        live := {};
        assert head in Elements(nodes) + {head};
      }
    }
  }

  /** The receive side of `Channel`. */
  class Channel {
    const list: FrameList
    var total: nat
    var written: nat
    var off: bool
    var dropped: nat

    ghost predicate Valid()
      reads this, list, list.head, list.nodes
    {
      list.Valid()
    }

    ghost function Value(): Rx
      reads this, list
    {
      Rx(list.contents, total, written, off, dropped, list.destroyed)
    }

    /** `_fc_initContext`. */
    constructor ()
      ensures Valid() && fresh(list) && list.head == null && Value() == Rx([], 0, 0, false, 0, [])
    {
      list := new FrameList();
      total, written, off, dropped := 0, 0, false, 0;
    }

    /** `_fc_cacheFrameData`. */
    method CacheFrameData(frame: Frame)
      requires Valid() && list.head != null
      modifies this, list, list.head
      ensures Valid() && list.head != null && Value() == CacheFrame(old(Value()), frame)
      ensures list.head == old(list.head) || fresh(list.head)
    {
      if total + |frame.data| > HIGH_WATERMARK {
        dropped := dropped + 1;
      } else {
        total := total + |frame.data|;
        list.Push(frame);
      }
      list.destroyed := list.destroyed + [frame];
    }

    /** `_fc_cacheRemainingFrameData`; `error` tells that its assertion on a non-empty list failed. */
    method CacheRemainingFrameData(frame: Frame, done: nat) returns (error: bool)
      requires Valid() && done <= |frame.data|
      modifies this, list, list.head
      ensures Valid() && list.head != null && Value() == CacheRemaining(old(Value()), frame, done)
      ensures fresh(list.head)
      ensures error <==> old(Value()).list != []
    {
      var empty := list.IsEmpty();
      error := !empty;
      list.Start(frame);
      total, written := |frame.data| - done, done;
    }

    /** `_fc_closeContext`: unless there was no list, `rx_fl` is left pointing at freed memory, and
        the channel must not be used again before `_fc_initContext`. */
    method Close()
      requires Valid()
      modifies this, list, list.head
      ensures Value() == Closed(old(Value())) && list.head == old(list.head)
      ensures Valid() <==> list.head == null
    {
      off, total, written := false, 0, 0;
      list.Destroy();
    }

    method NextFrame() returns (frame: Option<Frame>)
      requires Valid()
      modifies list, list.head
      ensures Valid() && list.head == old(list.head) && list.destroyed == old(list.destroyed)
      ensures frame == Front(old(Value())) && list.contents == Popped(old(Value())).list
    {
      frame := list.Pop();
    }

    /** The loops of `retry_write_pty_thread`, against any sequence of `write` results. They stop
        early only when the results run out. */
    method RetryWrites(results: seq<WriteResult>) returns (emitted: seq<Byte>, finished: bool, ghost end: Cursor)
      requires Valid() && list.contents != [] && written <= |list.contents[0].data|
      modifies this, list, list.head
      ensures Valid() && off == (if finished then false else old(off))
      ensures total == old(total) && written == 0 && dropped == old(dropped)
      ensures list.head == old(list.head) && list.destroyed == old(list.destroyed)
      ensures end == WriteAll(Cursor(old(list.contents), old(written)), results)
      ensures finished <==> end.frames == []
      ensures list.contents == if finished then [] else end.frames[1..]
      ensures Left(Cursor(old(list.contents), old(written))) == emitted + Left(end)
    {
      var w := written;
      written := 0;
      emitted, finished, end := Drain(w, results);
      if finished { off := false; }
    }

    /** The first pop and the outer loop. */
    method Drain(w: nat, results: seq<WriteResult>) returns (emitted: seq<Byte>, finished: bool, ghost end: Cursor)
      requires Valid() && list.contents != [] && w <= |list.contents[0].data|
      modifies list, list.head
      ensures Valid() && list.head == old(list.head) && list.destroyed == old(list.destroyed)
      ensures end == WriteAll(Cursor(old(list.contents), w), results) && (finished <==> end.frames == [])
      ensures list.contents == if finished then [] else end.frames[1..]
      ensures Left(Cursor(old(list.contents), w)) == emitted + Left(end)
    {
      ghost var cur := Cursor(list.contents, w);
      var frame := NextFrame();
      assert [frame.value] + list.contents == cur.frames;
      emitted, finished, end := WriteOut(frame.value, w, results, cur);
    }

    /** The outer loop from the first frame on. */
    method WriteOut(first: Frame, saved: nat, results: seq<WriteResult>, ghost start: Cursor)
      returns (emitted: seq<Byte>, finished: bool, ghost end: Cursor)
      requires Valid() && start == Cursor([first] + list.contents, saved) && Fits(start)
      modifies list, list.head
      ensures Valid() && list.head == old(list.head) && list.destroyed == old(list.destroyed)
      ensures end == WriteAll(start, results) && (finished <==> end.frames == [])
      ensures list.contents == if finished then [] else end.frames[1..]
      ensures Left(start) == emitted + Left(end)
    {
      ghost var goal := WriteAll(start, results);
      end := start;
      var frame, w, i, complete, out := Some(first), saved, 0, true, [];
      emitted := [];
      assert results[0..] == results;
      while frame.Some? && complete
        invariant Valid() && list.head == old(list.head) && list.destroyed == old(list.destroyed)
        invariant 0 <= i <= |results| && end == Cursor(Frames(frame, list.contents), w) && Fits(end)
        invariant Left(start) == emitted + Left(end) && WriteAll(end, results[i..]) == goal
        invariant frame == None ==> list.contents == []
        invariant if complete then true else frame.Some? && i == |results|
        decreases |results| - i, complete
      {
        out, frame, w, i, complete, end := WriteAndAdvance(frame.value, w, results, i, end);
        Assoc(emitted, out, Left(end));
        emitted := emitted + out;
      }
      finished := frame == None;
    }

    /** One round of the outer loop: the inner loop, then the next frame if this one is out. */
    method WriteAndAdvance(frame: Frame, w: nat, results: seq<WriteResult>, start: nat, ghost cur: Cursor)
      returns (out: seq<Byte>, frame': Option<Frame>, w': nat, i: nat, complete: bool, ghost cur': Cursor)
      requires Valid() && start <= |results| && cur == Cursor([frame] + list.contents, w) && Fits(cur)
      modifies list, list.head
      ensures Valid() && list.head == old(list.head) && list.destroyed == old(list.destroyed)
      ensures start <= i <= |results|
      ensures cur' == Cursor(Frames(frame', list.contents), w') && Fits(cur')
      ensures Left(cur) == out + Left(cur') && WriteAll(cur, results[start..]) == WriteAll(cur', results[i..])
      ensures if complete then i > start else frame'.Some? && i == |results|
      ensures frame' == None ==> list.contents == []
    {
      out, w', i, complete, cur' := WriteFrame(frame, w, results, start, list.contents);
      frame' := Some(frame);
      if complete {
        w' := 0;
        frame' := NextFrame();
      }
    }
  }

  function Frames(frame: Option<Frame>, queued: seq<Frame>): seq<Frame> {
    if frame.None? then [] else [frame.value] + queued
  }

  /** The inner loop: writes one frame from offset `w` on; EINTR and EAGAIN are retried. */
  method WriteFrame(frame: Frame, w: nat, results: seq<WriteResult>, start: nat, ghost queued: seq<Frame>)
    returns (out: seq<Byte>, w': nat, i: nat, complete: bool, ghost cur: Cursor)
    requires w <= |frame.data| && start <= |results|
    ensures start <= i <= |results| && if complete then i > start else i == |results|
    ensures cur == (if complete then Cursor(queued, 0) else Cursor([frame] + queued, w')) && Fits(cur)
    ensures Left(Cursor([frame] + queued, w)) == out + Left(cur)
    ensures WriteAll(Cursor([frame] + queued, w), results[start..]) == WriteAll(cur, results[i..])
  {
    out, w', i, complete := [], w, start, false;
    cur := Cursor([frame] + queued, w);
    ghost var first := cur;
    while i < |results|
      invariant w <= w' <= |frame.data| && out == frame.data[w..w'] && start <= i <= |results| && !complete
      invariant cur == Cursor([frame] + queued, w') && WriteAll(first, results[start..]) == WriteAll(cur, results[i..])
    {
      var result := results[i];
      WriteNext(cur, results, i);
      WriteMoves(frame, w', queued, result);
      cur := Write(cur, result);
      i := i + 1;
      if result.Wrote? {
        var n := if result.n > |frame.data| - w' then |frame.data| - w' else result.n;
        Extends(frame.data, w, w', n);
        out, w' := out + frame.data[w'..w' + n], w' + n;
        if w' == |frame.data| {
          complete := true;
          GoesOut(frame, w, queued);
          return;
        }
      }
    }
    Goes(frame, w, w', queued);
  }

  lemma WriteMoves(frame: Frame, at: nat, queued: seq<Frame>, r: WriteResult)
    requires at <= |frame.data|
    ensures Write(Cursor([frame] + queued, at), r) ==
            if !r.Wrote? then Cursor([frame] + queued, at)
            else if at + r.n < |frame.data| then Cursor([frame] + queued, at + r.n)
            else Cursor(queued, 0)
  {
    assert ([frame] + queued)[1..] == queued;
  }

  lemma Extends(data: seq<Byte>, from: nat, at: nat, n: nat)
    requires from <= at <= at + n <= |data|
    ensures data[from..at] + data[at..at + n] == data[from..at + n]
  {
  }

  lemma LeftOf(frame: Frame, at: nat, queued: seq<Frame>)
    requires at <= |frame.data|
    ensures Left(Cursor([frame] + queued, at)) == frame.data[at..] + Bytes(queued)
  {
    assert ([frame] + queued)[1..] == queued;
  }

  lemma LeftOfQueued(queued: seq<Frame>)
    ensures Fits(Cursor(queued, 0)) && Left(Cursor(queued, 0)) == Bytes(queued)
  {
    assert queued != [] ==> queued[0].data[0..] == queued[0].data;
  }

  /** Bytes `at..w` of the current frame went out. */
  lemma Goes(frame: Frame, at: nat, w: nat, queued: seq<Frame>)
    requires at <= w <= |frame.data|
    ensures Left(Cursor([frame] + queued, at)) == frame.data[at..w] + Left(Cursor([frame] + queued, w))
  {
    LeftOf(frame, at, queued);
    LeftOf(frame, w, queued);
    CutBytes(frame.data, at, w, Bytes(queued));
  }

  lemma GoesOut(frame: Frame, at: nat, queued: seq<Frame>)
    requires at <= |frame.data|
    ensures Left(Cursor([frame] + queued, at)) == frame.data[at..|frame.data|] + Left(Cursor(queued, 0))
  {
    LeftOf(frame, at, queued);
    LeftOfQueued(queued);
  }

  lemma CutBytes(data: seq<Byte>, at: nat, w: nat, rest: seq<Byte>)
    requires at <= w <= |data|
    ensures data[at..] + rest == data[at..w] + (data[w..] + rest)
  {
    assert data[at..] == data[at..w] + data[w..];
    Assoc(data[at..w], data[w..], rest);
  }
}
