/** Receive flow control of one mux channel (`mtk/gsm0710muxd/src/gsm0710muxd_fc.c`) as values:
    the frames cached while the pseudo terminal is full. Flow control itself is the modem status
    exchange of section 5.4.6.3.7 of 3GPP TS 27.010. */
module FlowSpec {
  import opened Collections

  newtype Byte = b: int | 0 <= b < 256

  /** `GSM0710_Frame`; `id` names the allocation. */
  datatype Frame = Frame(id: nat, data: seq<Byte>)

  const HIGH_WATERMARK := 4096

  /** The receive fields of `Channel`: `list` is `rx_fl`, `total` is `rx_fl_total`, `written` is
      `rx_fl_written`, `off` is `rx_fc_off`. `dropped` counts refused frames, `destroyed` the
      frames passed to `destroy_frame`, in order. */
  datatype Rx = Rx(list: seq<Frame>, total: nat, written: nat, off: bool, dropped: nat, destroyed: seq<Frame>)

  predicate Accepts(c: Rx, f: Frame) {
    c.total + |f.data| <= HIGH_WATERMARK
  }

  /** `_fc_cacheFrameData`: queue the frame or drop it; either way it is destroyed. */
  function CacheFrame(c: Rx, f: Frame): Rx {
    if Accepts(c, f)
    then c.(total := c.total + |f.data|, list := c.list + [f], destroyed := c.destroyed + [f])
    else c.(dropped := c.dropped + 1, destroyed := c.destroyed + [f])
  }

  /** `_fc_cacheRemainingFrameData`: start a list with a frame of which `written` bytes are out. */
  function CacheRemaining(c: Rx, f: Frame, written: nat): Rx
    requires written <= |f.data|
  {
    c.(list := [f], total := |f.data| - written, written := written, destroyed := c.destroyed + c.list)
  }

  /** `_fl_popFrame`. */
  function Front(c: Rx): Option<Frame> {
    if c.list == [] then None else Some(c.list[0])
  }

  function Popped(c: Rx): Rx {
    if c.list == [] then c else c.(list := c.list[1..])
  }

  /** `_fc_closeContext`: whatever is still listed is destroyed. */
  function Closed(c: Rx): Rx {
    Rx([], 0, 0, false, c.dropped, c.destroyed + c.list)
  }

  /** All bytes of the frames, in order. */
  function Bytes(fs: seq<Frame>): seq<Byte> {
    if fs == [] then [] else fs[0].data + Bytes(fs[1..])
  }

  /** One `write` call: it takes up to `n` bytes, or fails with EINTR or EAGAIN. */
  datatype WriteResult = Wrote(n: nat) | Interrupted | Again

  /** What a retry thread has yet to write: `frames`, the first one from offset `at` on. */
  datatype Cursor = Cursor(frames: seq<Frame>, at: nat)

  predicate Fits(c: Cursor) {
    if c.frames == [] then c.at == 0 else c.at <= |c.frames[0].data|
  }

  function Left(c: Cursor): seq<Byte>
    requires Fits(c)
  {
    if c.frames == [] then [] else c.frames[0].data[c.at..] + Bytes(c.frames[1..])
  }

  /** One result: a write that takes the rest of a frame moves on to the next frame. */
  function Write(c: Cursor, r: WriteResult): (c': Cursor)
    requires Fits(c) && c.frames != []
    ensures Fits(c')
  {
    if !r.Wrote? then c
    else if c.at + r.n < |c.frames[0].data| then c.(at := c.at + r.n)
    else Cursor(c.frames[1..], 0)
  }

  function WriteAll(c: Cursor, rs: seq<WriteResult>): (c': Cursor)
    requires Fits(c)
    ensures Fits(c')
    decreases |rs|
  {
    if c.frames == [] || rs == [] then c else WriteAll(Write(c, rs[0]), rs[1..])
  }

  /** A result takes as many bytes as it says, at most the rest of the frame, from the front of what
      is left; EINTR and EAGAIN take none. The frame is done exactly if its rest went out. */
  lemma WriteTakes(c: Cursor, r: WriteResult)
    requires Fits(c) && c.frames != []
    ensures var rest, c' := |c.frames[0].data| - c.at, Write(c, r);
      var k := if !r.Wrote? then 0 else if r.n < rest then r.n else rest;
      && Left(c)[k..] == Left(c')
      && (c'.frames == if r.Wrote? && r.n >= rest then c.frames[1..] else c.frames)
  {
    var data, more := c.frames[0].data, Bytes(c.frames[1..]);
    var rest := |data| - c.at;
    if r.Wrote? && r.n >= rest {
      assert (data[c.at..] + more)[rest..] == more;
      if c.frames[1..] != [] { assert c.frames[1].data[0..] == c.frames[1].data; }
    } else if r.Wrote? {
      assert (data[c.at..] + more)[r.n..] == data[c.at + r.n..] + more;
    }
  }

  lemma WriteNext(c: Cursor, rs: seq<WriteResult>, i: nat)
    requires Fits(c) && c.frames != [] && i < |rs|
    ensures WriteAll(c, rs[i..]) == WriteAll(Write(c, rs[i]), rs[i + 1..])
  {
    assert rs[i..][1..] == rs[i + 1..];
  }

  lemma {:induction false} BytesSnoc(fs: seq<Frame>, f: Frame)
    ensures Bytes(fs + [f]) == Bytes(fs) + f.data
  {
    if fs == [] {
      assert [f][1..] == [] && fs + [f] == [f];
    } else {
      BytesSnoc(fs[1..], f);
      assert (fs + [f])[1..] == fs[1..] + [f];
    }
  }
}
