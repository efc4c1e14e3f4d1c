/**
 * The read loop the buffered CDC channels share
 * (src/iqrf/transport/cdc_io.py:76-126, iqrf/cdc/io.py:64-118): while the
 * buffer holds a '\r', slice the frame through the first '\r' off its front
 * and classify it; a frame can end the call (returned or raised) or be
 * queued, and then, or when no frame was buffered, the call reads more
 * bytes and appends them, unless the one read a zero timeout allows was
 * already made.
 *
 * The serial port is an oracle: `chunks` holds what the successive calls of
 * `self.read(1024, timeout)` give, bytes or the read timeout error.  What
 * each channel does with a frame is its `handle` function.
 */
module CdcChannel {
  import opened Bytes
  import opened Wrappers
  import opened CdcMessages

  /** One `self.read(1024, timeout)`: the bytes it returned, or the timeout error it raised. */
  datatype Chunk = Bytes(data: seq<byte>) | ReadTimedOut

  /** What the channels raise. */
  datatype ChannelError =
    | ReadTimeoutError              // `ReadTimeoutError`, `CdcReadTimeoutError`
    | Codec(error: CdcError)        // raised by the codec, or a codec error the channel raises
    | IOError                       // iqrf/cdc/io.py: a frame of the wrong kind
    | NameError                     // a name the module never defines
    | AttributeError                // an attribute the object never had
    | NotImplementedError           // a non-blocking call
    | EndOfInput                    // the oracle ran out: the device would be read again

  /** What a channel does with one decoded frame. */
  datatype Handled = Returned(message: Message) | Queued(queued: Message) | Raised(error: ChannelError)

  /** How a read loop ends, and everything it changed or consumed on the way. */
  datatype Run = Run(outcome: Result<Option<Message>, ChannelError>, buffer: seq<byte>,
                     queued: seq<Message>, frames: seq<seq<byte>>, used: nat)

  /**
   * One pass of the loop from its head: handle the frame at the front of
   * the buffer, if there is one, and go on reading.
   */
  function ReadLoop(handle: seq<byte> -> Handled, buffer: seq<byte>, chunks: seq<Chunk>, timeout: Option<int>, stop: bool)
    : (r: Run)
    ensures r.used <= |chunks|
    decreases |chunks|, 1
  {
    var sliced := SliceFrame(buffer);
    if sliced.None? then ReadMore(handle, buffer, chunks, timeout, stop)
    else
      var frame := sliced.value.0;
      var rest := sliced.value.1;
      match handle(frame)
      case Returned(m) => Run(Success(Some(m)), rest, [], [frame], 0)
      case Raised(e) => Run(Failure(e), rest, [], [frame], 0)
      case Queued(m) =>
        var r := ReadMore(handle, rest, chunks, timeout, stop);
        Run(r.outcome, r.buffer, [m] + r.queued, [frame] + r.frames, r.used)
  }

  /**
   * The rest of a pass: give None once the zero-timeout read was made, else
   * read, append and start the next pass.
   */
  function ReadMore(handle: seq<byte> -> Handled, buffer: seq<byte>, chunks: seq<Chunk>, timeout: Option<int>, stop: bool)
    : (r: Run)
    ensures r.used <= |chunks|
    decreases |chunks|, 0
  {
    if stop then Run(Success(None), buffer, [], [], 0)
    else if |chunks| == 0 then Run(Failure(EndOfInput), buffer, [], [], 0)
    else if chunks[0].ReadTimedOut? then Run(Failure(ReadTimeoutError), buffer, [], [], 1)
    else
      var r := ReadLoop(handle, buffer + chunks[0].data, chunks[1..], timeout, timeout == Some(0));
      Run(r.outcome, r.buffer, r.queued, r.frames, r.used + 1)
  }

  /** `t` is what is left of run `s` after `queued`, `frames` and `used` chunks were already taken. */
  predicate Continues(t: Run, queued: seq<Message>, frames: seq<seq<byte>>, used: nat, s: Run) {
    t.outcome == s.outcome && t.buffer == s.buffer && t.queued == queued + s.queued
    && t.frames == frames + s.frames && t.used == used + s.used
  }

  /** Without a frame in the buffer, a pass goes straight to reading. */
  lemma LoopUnframed(handle: seq<byte> -> Handled, buffer: seq<byte>, chunks: seq<Chunk>, timeout: Option<int>, stop: bool)
    requires SliceFrame(buffer).None?
    ensures Continues(ReadLoop(handle, buffer, chunks, timeout, stop), [], [], 0, ReadMore(handle, buffer, chunks, timeout, stop))
  {
  }

  /** A queued frame is taken and the pass goes on reading after it. */
  lemma LoopQueued(handle: seq<byte> -> Handled, buffer: seq<byte>, chunks: seq<Chunk>, timeout: Option<int>, stop: bool)
    requires SliceFrame(buffer).Some? && handle(SliceFrame(buffer).value.0).Queued?
    ensures var (frame, rest) := SliceFrame(buffer).value;
      Continues(ReadLoop(handle, buffer, chunks, timeout, stop), [handle(frame).queued], [frame], 0,
                ReadMore(handle, rest, chunks, timeout, stop))
  {
  }

  /** A frame that is returned or raised ends the pass with that frame alone. */
  lemma LoopHandled(handle: seq<byte> -> Handled, buffer: seq<byte>, chunks: seq<Chunk>, timeout: Option<int>, stop: bool)
    requires SliceFrame(buffer).Some? && !handle(SliceFrame(buffer).value.0).Queued?
    ensures var (frame, rest) := SliceFrame(buffer).value; var h := handle(frame);
      ReadLoop(handle, buffer, chunks, timeout, stop)
        == Run(if h.Returned? then Success(Some(h.message)) else Failure(h.error), rest, [], [frame], 0)
  {
  }

  /** A pass ends without reading after the zero-timeout read, at the end of the oracle, or at a read that timed out. */
  lemma MoreEnds(handle: seq<byte> -> Handled, buffer: seq<byte>, chunks: seq<Chunk>, timeout: Option<int>, stop: bool)
    requires stop || |chunks| == 0 || chunks[0].ReadTimedOut?
    ensures ReadMore(handle, buffer, chunks, timeout, stop)
      == if stop then Run(Success(None), buffer, [], [], 0)
         else if |chunks| == 0 then Run(Failure(EndOfInput), buffer, [], [], 0)
         else Run(Failure(ReadTimeoutError), buffer, [], [], 1)
  {
  }

  /** A read of bytes appends them and starts the next pass, stopping after it when the timeout is zero. */
  lemma MoreRead(handle: seq<byte> -> Handled, buffer: seq<byte>, chunks: seq<Chunk>, timeout: Option<int>)
    requires |chunks| > 0 && chunks[0].Bytes?
    ensures Continues(ReadMore(handle, buffer, chunks, timeout, false), [], [], 1,
                      ReadLoop(handle, buffer + chunks[0].data, chunks[1..], timeout, timeout == Some(0)))
  {
  }

  /** Taking one step after another takes both. */
  lemma ContinuesTrans(t: Run, q1: seq<Message>, f1: seq<seq<byte>>, u1: nat, s: Run,
                       q2: seq<Message>, f2: seq<seq<byte>>, u2: nat, r: Run)
    requires Continues(t, q1, f1, u1, s) && Continues(s, q2, f2, u2, r)
    ensures Continues(t, q1 + q2, f1 + f2, u1 + u2, r)
  {
    assert q1 + (q2 + r.queued) == (q1 + q2) + r.queued;
    assert f1 + (f2 + r.frames) == (f1 + f2) + r.frames;
  }

  /** The loop run by `_read_cdc_response` and its siblings, on the buffer it is given. */
  method ReadFrames(handle: seq<byte> -> Handled, buffer0: seq<byte>, chunks: seq<Chunk>, timeout: Option<int>)
    returns (run: Run)
    ensures run == ReadLoop(handle, buffer0, chunks, timeout, false)
  {
    var buffer := buffer0;
    var queued: seq<Message> := [];
    var frames: seq<seq<byte>> := [];
    var used := 0;
    var stop := false;
    ghost var target := ReadLoop(handle, buffer0, chunks, timeout, false);
    assert target.queued == [] + target.queued && target.frames == [] + target.frames;
    while true
      invariant used <= |chunks|
      invariant Continues(target, queued, frames, used, ReadLoop(handle, buffer, chunks[used..], timeout, stop))
      decreases |chunks| - used
    {
      ghost var pass := ReadLoop(handle, buffer, chunks[used..], timeout, stop);
      var sliced := SliceFrame(buffer);
      if sliced.Some? {
        var frame := sliced.value.0;
        var rest := sliced.value.1;
        match handle(frame)
        case Returned(m) =>
          LoopHandled(handle, buffer, chunks[used..], timeout, stop);
          assert queued + [] == queued;
          return Run(Success(Some(m)), rest, queued, frames + [frame], used);
        case Raised(e) =>
          LoopHandled(handle, buffer, chunks[used..], timeout, stop);
          assert queued + [] == queued;
          return Run(Failure(e), rest, queued, frames + [frame], used);
        case Queued(m) =>
          LoopQueued(handle, buffer, chunks[used..], timeout, stop);
          ContinuesTrans(target, queued, frames, used, pass, [m], [frame], 0,
                         ReadMore(handle, rest, chunks[used..], timeout, stop));
          buffer := rest;
          queued := queued + [m];
          frames := frames + [frame];
      } else {
        LoopUnframed(handle, buffer, chunks[used..], timeout, stop);
        ContinuesTrans(target, queued, frames, used, pass, [], [], 0, ReadMore(handle, buffer, chunks[used..], timeout, stop));
        assert queued + [] == queued && frames + [] == frames;
      }
      ghost var more := ReadMore(handle, buffer, chunks[used..], timeout, stop);
      assert Continues(target, queued, frames, used, more);
      if stop || used == |chunks| || chunks[used].ReadTimedOut? {
        MoreEnds(handle, buffer, chunks[used..], timeout, stop);
        assert queued + [] == queued && frames + [] == frames;
        if stop {
          return Run(Success(None), buffer, queued, frames, used);
        } else if used == |chunks| {
          return Run(Failure(EndOfInput), buffer, queued, frames, used);
        } else {
          return Run(Failure(ReadTimeoutError), buffer, queued, frames, used + 1);
        }
      }
      var chunk := chunks[used];
      assert chunks[used..][1..] == chunks[used + 1..];
      MoreRead(handle, buffer, chunks[used..], timeout);
      ContinuesTrans(target, queued, frames, used, more, [], [], 1,
                     ReadLoop(handle, buffer + chunk.data, chunks[used + 1..], timeout, timeout == Some(0)));
      assert queued + [] == queued && frames + [] == frames;
      used := used + 1;
      buffer := buffer + chunk.data;
      stop := timeout == Some(0);
    }
  }

  /** The bytes a sequence of reads delivered, in order; a read that timed out delivered none. */
  function Received(chunks: seq<Chunk>): seq<byte> {
    if |chunks| == 0 then []
    else (if chunks[0].Bytes? then chunks[0].data else []) + Received(chunks[1..])
  }

  /** The first `n + 1` reads deliver what the first read did, then what the next `n` did. */
  lemma ReceivedCons(chunks: seq<Chunk>, n: nat)
    requires n < |chunks|
    ensures Received(chunks[..n + 1]) == (if chunks[0].Bytes? then chunks[0].data else []) + Received(chunks[1..][..n])
  {
    assert chunks[..n + 1][1..] == chunks[1..][..n];
  }

  /** A frame: bytes ending in their only '\r'. */
  predicate Framed(f: seq<byte>) {
    |f| > 0 && f[|f| - 1] == CR && CR !in f[..|f| - 1]
  }

  /** A frame taken off the front of a buffer, before what became of the rest. */
  lemma FlattenFront(buffer: seq<byte>, frame: seq<byte>, rest: seq<byte>, frames: seq<seq<byte>>, left: seq<byte>, read: seq<byte>)
    requires buffer == frame + rest && Flatten(frames) + left == rest + read
    ensures Flatten([frame] + frames) + left == buffer + read
  {
    assert ([frame] + frames)[1..] == frames;
    calc {
      Flatten([frame] + frames) + left;
      (frame + Flatten(frames)) + left;
      frame + (Flatten(frames) + left);
      frame + (rest + read);
    }
  }

  /**
   * Nothing is lost and nothing reordered: the frames taken, one after the
   * other, then the buffer left, are the buffer the loop started with and
   * every byte it read; and each frame ends in its only '\r'.
   */
  lemma {:induction false} LoopConserves(handle: seq<byte> -> Handled, buffer: seq<byte>, chunks: seq<Chunk>,
                                         timeout: Option<int>, stop: bool)
    ensures var r := ReadLoop(handle, buffer, chunks, timeout, stop);
      Flatten(r.frames) + r.buffer == buffer + Received(chunks[..r.used])
      && forall i :: 0 <= i < |r.frames| ==> Framed(r.frames[i])
    decreases |chunks|, 1
  {
    var sliced := SliceFrame(buffer);
    if sliced.None? {
      MoreConserves(handle, buffer, chunks, timeout, stop);
    } else {
      var frame := sliced.value.0;
      var rest := sliced.value.1;
      var r := ReadLoop(handle, buffer, chunks, timeout, stop);
      if handle(frame).Queued? {
        var m := ReadMore(handle, rest, chunks, timeout, stop);
        MoreConserves(handle, rest, chunks, timeout, stop);
        LoopQueued(handle, buffer, chunks, timeout, stop);
        FlattenFront(buffer, frame, rest, m.frames, m.buffer, Received(chunks[..m.used]));
        assert forall i :: 0 < i < |r.frames| ==> r.frames[i] == m.frames[i - 1];
      } else {
        assert r.frames == [frame] + [] && r.buffer == rest && r.used == 0;
        assert chunks[..0] == [];
        FlattenFront(buffer, frame, rest, [], rest, []);
      }
    }
  }

  lemma {:induction false} MoreConserves(handle: seq<byte> -> Handled, buffer: seq<byte>, chunks: seq<Chunk>,
                                         timeout: Option<int>, stop: bool)
    ensures var r := ReadMore(handle, buffer, chunks, timeout, stop);
      Flatten(r.frames) + r.buffer == buffer + Received(chunks[..r.used])
      && forall i :: 0 <= i < |r.frames| ==> Framed(r.frames[i])
    decreases |chunks|, 0
  {
    var r := ReadMore(handle, buffer, chunks, timeout, stop);
    if stop || |chunks| == 0 {
      assert chunks[..0] == [];
    } else if chunks[0].ReadTimedOut? {
      ReceivedCons(chunks, 0);
      assert chunks[1..][..0] == [];
    } else {
      var next := ReadLoop(handle, buffer + chunks[0].data, chunks[1..], timeout, timeout == Some(0));
      LoopConserves(handle, buffer + chunks[0].data, chunks[1..], timeout, timeout == Some(0));
      assert r.frames == next.frames && r.buffer == next.buffer && r.used == next.used + 1;
      ReceivedCons(chunks, next.used);
    }
  }

  /** The last frame of a run ended it: it was returned, or what it raised was raised. */
  predicate Ended(h: Handled, outcome: Result<Option<Message>, ChannelError>) {
    (h.Returned? && outcome == Success(Some(h.message))) || (h.Raised? && outcome == Failure(h.error))
  }

  /** A run that no frame ended: it gave None after its one zero-timeout read, or a read failed. */
  predicate EndedByReading(outcome: Result<Option<Message>, ChannelError>) {
    outcome == Success(None) || outcome == Failure(EndOfInput) || outcome == Failure(ReadTimeoutError)
  }

  /** The frames of a run, as the channel handled them. */
  predicate HandledInOrder(handle: seq<byte> -> Handled, r: Run) {
    (forall i :: 0 <= i < |r.queued| && i < |r.frames| ==> handle(r.frames[i]) == Queued(r.queued[i]))
    && (|r.frames| == |r.queued| + 1 ==> Ended(handle(r.frames[|r.queued|]), r.outcome))
    && (|r.frames| == |r.queued| ==> EndedByReading(r.outcome))
    && (|r.frames| == |r.queued| || |r.frames| == |r.queued| + 1)
  }

  /**
   * Every frame but the last was queued, in the order it arrived in; the
   * last one either ended the run or was queued too, and then the run ended
   * by reading.
   */
  lemma {:induction false} LoopInOrder(handle: seq<byte> -> Handled, buffer: seq<byte>, chunks: seq<Chunk>,
                                       timeout: Option<int>, stop: bool)
    ensures HandledInOrder(handle, ReadLoop(handle, buffer, chunks, timeout, stop))
    decreases |chunks|, 1
  {
    var sliced := SliceFrame(buffer);
    if sliced.None? {
      MoreInOrder(handle, buffer, chunks, timeout, stop);
    } else {
      var frame := sliced.value.0;
      var rest := sliced.value.1;
      var r := ReadLoop(handle, buffer, chunks, timeout, stop);
      if handle(frame).Queued? {
        var m := ReadMore(handle, rest, chunks, timeout, stop);
        MoreInOrder(handle, rest, chunks, timeout, stop);
        LoopQueued(handle, buffer, chunks, timeout, stop);
        assert forall i :: 0 < i < |r.frames| ==> r.frames[i] == m.frames[i - 1];
        assert forall i :: 0 < i < |r.queued| ==> r.queued[i] == m.queued[i - 1];
      }
    }
  }

  lemma {:induction false} MoreInOrder(handle: seq<byte> -> Handled, buffer: seq<byte>, chunks: seq<Chunk>,
                                       timeout: Option<int>, stop: bool)
    ensures HandledInOrder(handle, ReadMore(handle, buffer, chunks, timeout, stop))
    decreases |chunks|, 0
  {
    if !stop && |chunks| > 0 && chunks[0].Bytes? {
      LoopInOrder(handle, buffer + chunks[0].data, chunks[1..], timeout, timeout == Some(0));
    }
  }

  /**
   * A zero timeout allows one read and then gives None if no frame ended
   * the run; no other timeout gives None.
   */
  lemma {:induction false} LoopStops(handle: seq<byte> -> Handled, buffer: seq<byte>, chunks: seq<Chunk>,
                                     timeout: Option<int>, stop: bool)
    ensures var r := ReadLoop(handle, buffer, chunks, timeout, stop);
      (stop ==> r.used == 0) && (timeout == Some(0) ==> r.used <= 1)
      && (r.outcome == Success(None) ==> stop || timeout == Some(0))
    decreases |chunks|, 1
  {
    var sliced := SliceFrame(buffer);
    if sliced.None? {
      MoreStops(handle, buffer, chunks, timeout, stop);
    } else if handle(sliced.value.0).Queued? {
      MoreStops(handle, sliced.value.1, chunks, timeout, stop);
    }
  }

  lemma {:induction false} MoreStops(handle: seq<byte> -> Handled, buffer: seq<byte>, chunks: seq<Chunk>,
                                     timeout: Option<int>, stop: bool)
    ensures var r := ReadMore(handle, buffer, chunks, timeout, stop);
      (stop ==> r.used == 0) && (timeout == Some(0) ==> r.used <= 1)
      && (r.outcome == Success(None) ==> stop || timeout == Some(0))
    decreases |chunks|, 0
  {
    if !stop && |chunks| > 0 && chunks[0].Bytes? {
      LoopStops(handle, buffer + chunks[0].data, chunks[1..], timeout, timeout == Some(0));
    }
  }

  /** A frame at the front of the buffer is exactly the frame sliced off. */
  lemma SliceFramed(frame: seq<byte>, rest: seq<byte>)
    requires Framed(frame)
    ensures SliceFrame(frame + rest) == Some((frame, rest))
  {
    var buffer := frame + rest;
    assert buffer[|frame| - 1] == CR;
    var (f, r) := SliceFrame(buffer).value;
    assert f == buffer[..|f|] == frame;
  }

  /**
   * The loop reads again after queuing a frame before it looks at the
   * buffer again: a frame that would end the run, buffered behind a queued
   * one, stays buffered when that read times out.
   */
  lemma QueuedThenReads(handle: seq<byte> -> Handled, queued: seq<byte>, waiting: seq<byte>, timeout: Option<int>)
    requires Framed(queued) && Framed(waiting)
    requires handle(queued).Queued? && handle(waiting).Returned?
    ensures var r := ReadLoop(handle, queued + waiting, [ReadTimedOut], timeout, false);
      r.outcome == Failure(ReadTimeoutError) && r.buffer == waiting && r.queued == [handle(queued).queued]
  {
    SliceFramed(queued, waiting);
    LoopQueued(handle, queued + waiting, [ReadTimedOut], timeout, false);
  }
}
