/**
 * The frame buffer of `CdcIO` in iqrf/cdc.py: `read_cdc_message` slices the
 * first '\r'-terminated frame off the front of the buffer and decodes it,
 * reading more bytes while no '\r' is buffered.
 *
 * The serial port is an oracle: `chunks` holds the successive results of
 * `self.read()`,
 * each the bytes one `serial.read` returned.  An empty result with a
 * positive timeout is `CdcReadTimeoutError`.
 */
module CdcTableIo {
  import opened Bytes
  import opened Wrappers
  import opened CdcTable

  /**
   * Why `read_cdc_message` gave no message: a read timed out, the frame did
   * not decode, or the model's oracle ran out of chunks (the device would be
   * read again).
   */
  datatype IoError = ReadTimeoutError | CodecFailure(error: CodecError) | EndOfInput

  /** A decoding failure as the channel raises it. */
  function Lift(r: Result<Decoded, CodecError>): (l: Result<Decoded, IoError>)
    ensures l.Success? <==> r.Success?
    ensures l.Success? ==> l.value == r.value
    ensures l.Failure? ==> l.error == CodecFailure(r.error)
  {
    match r
    case Success(d) => Success(d)
    case Failure(e) => Failure(CodecFailure(e))
  }

  /** How the read loop ends: with a frame sliced off, on a read timeout, or with the oracle used up. */
  datatype Sliced = Framed(frame: seq<byte>) | TimedOut | OutOfInput

  /** The read loop, from `buffer` and the pending `chunks`: (how it ends, buffer after, chunks used). */
  function ReadSpec(buffer: seq<byte>, chunks: seq<seq<byte>>, timeout: int): (r: (Sliced, seq<byte>, nat))
    ensures r.2 <= |chunks|
    decreases |chunks|
  {
    match SliceFrame(buffer)
    case Some((frame, rest)) => (Framed(frame), rest, 0)
    case None =>
      if |chunks| == 0 then (OutOfInput, buffer, 0)
      else if |chunks[0]| == 0 && timeout > 0 then (TimedOut, buffer, 1)
      else
        var r := ReadSpec(buffer + chunks[0], chunks[1..], timeout);
        (r.0, r.1, r.2 + 1)
  }

  /** What `read_cdc_message` returns or raises when the read loop ends as `s`. */
  function Outcome(s: Sliced): Result<Decoded, IoError> {
    match s
    case Framed(frame) => Lift(Decode(frame, true))
    case TimedOut => Failure(ReadTimeoutError)
    case OutOfInput => Failure(EndOfInput)
  }

  /**
   * A frame is the prefix through the first '\r' of everything buffered
   * and read so far, and exactly the bytes after it stay buffered.
   */
  lemma {:induction false} ReadSpecFrame(buffer: seq<byte>, chunks: seq<seq<byte>>, timeout: int)
    requires ReadSpec(buffer, chunks, timeout).0.Framed?
    ensures var r := ReadSpec(buffer, chunks, timeout);
      var frame := r.0.frame;
      buffer + Flatten(chunks[..r.2]) == frame + r.1
      && |frame| > 0 && frame[|frame| - 1] == CR && CR !in frame[..|frame| - 1]
    decreases |chunks|
  {
    var r := ReadSpec(buffer, chunks, timeout);
    if SliceFrame(buffer).None? {
      var next := buffer + chunks[0];
      var s := ReadSpec(next, chunks[1..], timeout);
      assert r.0 == s.0 && r.1 == s.1 && r.2 == s.2 + 1;
      ReadSpecFrame(next, chunks[1..], timeout);
      FlattenCons(chunks, s.2);
      assert buffer + Flatten(chunks[..r.2]) == next + Flatten(chunks[1..][..s.2]);
    } else {
      assert buffer + Flatten(chunks[..0]) == buffer;
    }
  }

  /**
   * Without a frame nothing is lost: everything read stays buffered and
   * holds no '\r'; a timeout comes from an empty read with a positive
   * timeout, and the oracle is used up only when every chunk was read.
   */
  lemma {:induction false} ReadSpecNoFrame(buffer: seq<byte>, chunks: seq<seq<byte>>, timeout: int)
    requires !ReadSpec(buffer, chunks, timeout).0.Framed?
    ensures var r := ReadSpec(buffer, chunks, timeout);
      var input := buffer + Flatten(chunks[..r.2]);
      r.1 == input && CR !in input
      && (r.0.TimedOut? ==> timeout > 0 && r.2 > 0 && chunks[r.2 - 1] == [])
      && (r.0.OutOfInput? ==> r.2 == |chunks|)
    decreases |chunks|
  {
    var r := ReadSpec(buffer, chunks, timeout);
    if |chunks| == 0 {
      assert buffer + Flatten(chunks[..0]) == buffer;
    } else if |chunks[0]| == 0 && timeout > 0 {
      assert chunks[..1][1..] == [];
      assert buffer + Flatten(chunks[..1]) == buffer;
    } else {
      var next := buffer + chunks[0];
      var s := ReadSpec(next, chunks[1..], timeout);
      ReadSpecNoFrame(next, chunks[1..], timeout);
      FlattenCons(chunks, s.2);
      assert buffer + Flatten(chunks[..r.2]) == next + Flatten(chunks[1..][..s.2]);
    }
  }

  /** `CdcIO`, without its serial port: the bytes read but not yet decoded. */
  class CdcIO {
    var buffer: seq<byte>
    const timeout: int

    /** `CdcIO(device, timeout)`: an empty buffer. */
    constructor(timeout: int)
      ensures this.timeout == timeout && buffer == []
    {
      this.timeout := timeout;
      buffer := [];
    }

    /**
     * `read_cdc_message`: while the buffer holds no '\r', read and append;
     * then slice the frame through the first '\r' off the front and decode
     * it.
     */
    method ReadCdcMessage(chunks: seq<seq<byte>>) returns (r: Result<Decoded, IoError>, used: nat)
      modifies this
      ensures var s := ReadSpec(old(buffer), chunks, timeout);
        r == Outcome(s.0) && buffer == s.1 && used == s.2
    {
      used := 0;
      while true
        invariant used <= |chunks|
        invariant var s := ReadSpec(buffer, chunks[used..], timeout);
          var t := ReadSpec(old(buffer), chunks, timeout);
          s.0 == t.0 && s.1 == t.1 && s.2 + used == t.2
        decreases |chunks| - used
      {
        var sliced := SliceFrame(buffer);
        if sliced.Some? {
          buffer := sliced.value.1;
          r := Outcome(Framed(sliced.value.0));
          return;
        }
        if used == |chunks| {
          r := Outcome(OutOfInput);
          return;
        }
        var chunk := chunks[used];
        assert chunks[used..][1..] == chunks[used + 1..];
        used := used + 1;
        if |chunk| == 0 && timeout > 0 {
          r := Outcome(TimedOut);
          return;
        }
        buffer := buffer + chunk;
      }
    }
  }
}
