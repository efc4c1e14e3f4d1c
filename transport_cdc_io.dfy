/**
 * `BufferedCdcIO` of src/iqrf/transport/cdc_io.py: a byte buffer the
 * responses and reactions of the transport codec are sliced from, a FIFO
 * of the reactions that arrived while a response was awaited, and the
 * frames written to the device.
 *
 * Reads are the oracle `chunks` of the shared read loop; a write is
 * recorded in `written`.
 */
module TransportCdcIo {
  import opened Bytes
  import opened Wrappers
  import opened CdcMessages
  import opened CdcChannel
  import Codec = TransportCdcCodec
  import TransportCdcFixtures

  /**
   * What `_read_cdc_response` does with a frame, as written: return a
   * response, queue a reaction, and raise for anything else through
   * `cdc.CdcCodecError`, a name the module never defines.
   */
  function HandleResponseAsWritten(frame: seq<byte>): (h: Handled)
    ensures Codec.Decode(frame).Failure? ==> h == Raised(Codec(Codec.Decode(frame).error))
    ensures Codec.Decode(frame).Success? && CategoryOf(TypeOf(Codec.Decode(frame).value)) == Request ==> h == Raised(NameError)
  {
    match Codec.Decode(frame)
    case Failure(e) => Raised(Codec(e))
    case Success(m) =>
      match CategoryOf(TypeOf(m))
      case Response => Returned(m)
      case Reaction => Queued(m)
      case Request => Raised(NameError)
  }

  /**
   * What `_read_cdc_response` does with a frame, as evidently intended:
   * the same, raising `cdc_codec.CdcCodecError` for a request, as
   * `_read_cdc_reaction` does for a frame of the wrong kind.
   */
  function HandleResponse(frame: seq<byte>): (h: Handled)
    ensures h.Returned? <==> Codec.Decode(frame).Success? && CategoryOf(TypeOf(Codec.Decode(frame).value)) == Response
    ensures h.Queued? <==> Codec.Decode(frame).Success? && CategoryOf(TypeOf(Codec.Decode(frame).value)) == Reaction
    ensures h.Returned? ==> h.message == Codec.Decode(frame).value
    ensures h.Queued? ==> h.queued == Codec.Decode(frame).value
    ensures h.Raised? ==> h.error == (if Codec.Decode(frame).Failure? then Codec(Codec.Decode(frame).error) else Codec(CodecError))
  {
    match Codec.Decode(frame)
    case Failure(e) => Raised(Codec(e))
    case Success(m) =>
      match CategoryOf(TypeOf(m))
      case Response => Returned(m)
      case Reaction => Queued(m)
      case Request => Raised(Codec(CodecError))
  }

  /** What `_read_cdc_reaction` does with a frame: return a reaction and raise `CdcCodecError` for anything else. */
  function HandleReaction(frame: seq<byte>): (h: Handled)
    ensures !h.Queued?
    ensures h.Returned? <==> Codec.Decode(frame).Success? && CategoryOf(TypeOf(Codec.Decode(frame).value)) == Reaction
    ensures h.Returned? ==> h.message == Codec.Decode(frame).value
    ensures h.Raised? ==> h.error == (if Codec.Decode(frame).Failure? then Codec(Codec.Decode(frame).error) else Codec(CodecError))
  {
    match Codec.Decode(frame)
    case Failure(e) => Raised(Codec(e))
    case Success(m) => if CategoryOf(TypeOf(m)) == Reaction then Returned(m) else Raised(Codec(CodecError))
  }

  /** As written and as intended, the response handler differs only on a frame that decodes to a request. */
  lemma HandleResponseDiffers(frame: seq<byte>)
    ensures HandleResponseAsWritten(frame) != HandleResponse(frame)
      <==> Codec.Decode(frame).Success? && CategoryOf(TypeOf(Codec.Decode(frame).value)) == Request
  {
  }

  /** ">\r", the echo of the test request, is read as a response with a NameError as written, a codec error as intended. */
  lemma TestRequestEcho()
    ensures HandleResponseAsWritten([GT, CR]) == Raised(NameError)
    ensures HandleResponse([GT, CR]) == Raised(Codec(CodecError))
  {
    TransportCdcFixtures.SimpleMessages([0x3E, 0x0D], TestRequest);
  }

  /**
   * While a response is awaited, the reactions queued are the frames that
   * decoded to reactions, in the order they arrived in, and the run ends
   * with the first response or error.
   */
  lemma ResponseQueuesReactions(buffer: seq<byte>, chunks: seq<Chunk>, timeout: Option<int>)
    ensures var r := ReadLoop(HandleResponse, buffer, chunks, timeout, false);
      |r.queued| <= |r.frames|
      && (forall i :: 0 <= i < |r.queued| ==>
            Codec.Decode(r.frames[i]) == Success(r.queued[i]) && CategoryOf(TypeOf(r.queued[i])) == Reaction)
      && (r.outcome.Success? && r.outcome.value.Some? ==> CategoryOf(TypeOf(r.outcome.value.value)) == Response)
  {
    LoopInOrder(HandleResponse, buffer, chunks, timeout, false);
  }

  /** Waiting for a reaction queues nothing. */
  lemma ReactionQueuesNothing(buffer: seq<byte>, chunks: seq<Chunk>, timeout: Option<int>)
    ensures var r := ReadLoop(HandleReaction, buffer, chunks, timeout, false);
      r.queued == [] && |r.frames| <= 1
      && (r.outcome.Success? && r.outcome.value.Some? ==> CategoryOf(TypeOf(r.outcome.value.value)) == Reaction)
  {
    var r := ReadLoop(HandleReaction, buffer, chunks, timeout, false);
    LoopInOrder(HandleReaction, buffer, chunks, timeout, false);
    assert |r.queued| > 0 ==> HandleReaction(r.frames[0]).Queued?;
  }

  /** `timeout is not None and timeout <= 0`: a non-blocking call. */
  predicate NonBlocking(timeout: Option<int>) {
    timeout.Some? && timeout.value <= 0
  }

  class BufferedCdcIO {
    /** `_buffer`: bytes read and not yet sliced into frames. */
    var buffer: seq<byte>
    /** `_reactions`: reactions read while a response was awaited, oldest first. */
    var reactions: seq<Message>
    /** The frames given to `self.write`, in order. */
    var written: seq<seq<byte>>

    /** `BufferedCdcIO(port)`: an empty buffer and an empty queue. */
    constructor()
      ensures buffer == [] && reactions == [] && written == []
    {
      buffer := [];
      reactions := [];
      written := [];
    }

    /** `_read_cdc_response(timeout)`: run the read loop, keep what is left of the buffer and queue the reactions. */
    method ReadCdcResponse(chunks: seq<Chunk>, timeout: Option<int>) returns (r: Result<Option<Message>, ChannelError>, used: nat)
      modifies this
      ensures var run := ReadLoop(HandleResponse, old(buffer), chunks, timeout, false);
        r == run.outcome && used == run.used && buffer == run.buffer
        && reactions == old(reactions) + run.queued && written == old(written)
    {
      var run := ReadFrames(HandleResponse, buffer, chunks, timeout);
      buffer := run.buffer;
      reactions := reactions + run.queued;
      r := run.outcome;
      used := run.used;
    }

    /** `_read_cdc_reaction(timeout)`: run the read loop for one reaction; the queue is left alone. */
    method ReadCdcReaction(chunks: seq<Chunk>, timeout: Option<int>) returns (r: Result<Option<Message>, ChannelError>, used: nat)
      modifies this
      ensures var run := ReadLoop(HandleReaction, old(buffer), chunks, timeout, false);
        r == run.outcome && used == run.used && buffer == run.buffer
        && reactions == old(reactions) && written == old(written)
    {
      var run := ReadFrames(HandleReaction, buffer, chunks, timeout);
      ReactionQueuesNothing(buffer, chunks, timeout);
      buffer := run.buffer;
      r := run.outcome;
      used := run.used;
    }

    /** `_write_cdc_request(message)`: refuse anything but a request, else write its encoding. */
    method WriteCdcRequest(m: Message) returns (r: Result<(), ChannelError>)
      modifies this
      ensures buffer == old(buffer) && reactions == old(reactions)
      ensures CategoryOf(TypeOf(m)) != Request ==> r == Failure(Codec(CodecError)) && written == old(written)
      ensures CategoryOf(TypeOf(m)) == Request && Codec.Encode(m).Failure? ==>
        r == Failure(Codec(Codec.Encode(m).error)) && written == old(written)
      ensures CategoryOf(TypeOf(m)) == Request && Codec.Encode(m).Success? ==>
        r == Success(()) && written == old(written) + [Codec.Encode(m).value]
    {
      if CategoryOf(TypeOf(m)) != Request {
        return Failure(Codec(CodecError));
      }
      match Codec.Encode(m)
      case Failure(e) =>
        r := Failure(Codec(e));
      case Success(frame) =>
        written := written + [frame];
        r := Success(());
    }

    /** `send(message, timeout)`: refuse a non-blocking call, write the request, then await its response. */
    method Send(m: Message, timeout: Option<int>, chunks: seq<Chunk>) returns (r: Result<Option<Message>, ChannelError>, used: nat)
      modifies this
      ensures NonBlocking(timeout) ==>
        r == Failure(NotImplementedError) && used == 0
        && buffer == old(buffer) && reactions == old(reactions) && written == old(written)
      ensures !NonBlocking(timeout) && CategoryOf(TypeOf(m)) != Request ==>
        r == Failure(Codec(CodecError)) && used == 0
        && buffer == old(buffer) && reactions == old(reactions) && written == old(written)
      ensures !NonBlocking(timeout) && CategoryOf(TypeOf(m)) == Request && Codec.Encode(m).Failure? ==>
        r == Failure(Codec(Codec.Encode(m).error)) && used == 0
        && buffer == old(buffer) && reactions == old(reactions) && written == old(written)
      ensures !NonBlocking(timeout) && CategoryOf(TypeOf(m)) == Request && Codec.Encode(m).Success? ==>
        var run := ReadLoop(HandleResponse, old(buffer), chunks, timeout, false);
        written == old(written) + [Codec.Encode(m).value]
        && r == run.outcome && used == run.used && buffer == run.buffer && reactions == old(reactions) + run.queued
    {
      if NonBlocking(timeout) {
        return Failure(NotImplementedError), 0;
      }
      var w := WriteCdcRequest(m);
      if w.Failure? {
        return Failure(w.error), 0;
      }
      r, used := ReadCdcResponse(chunks, timeout);
    }

    /** `receive(timeout)`: refuse a non-blocking call, give the oldest queued reaction, else await one. */
    method Receive(timeout: Option<int>, chunks: seq<Chunk>) returns (r: Result<Option<Message>, ChannelError>, used: nat)
      modifies this
      ensures written == old(written)
      ensures NonBlocking(timeout) ==>
        r == Failure(NotImplementedError) && used == 0 && buffer == old(buffer) && reactions == old(reactions)
      ensures !NonBlocking(timeout) && |old(reactions)| > 0 ==>
        r == Success(Some(old(reactions)[0])) && used == 0 && buffer == old(buffer) && reactions == old(reactions)[1..]
      ensures !NonBlocking(timeout) && old(reactions) == [] ==>
        var run := ReadLoop(HandleReaction, old(buffer), chunks, timeout, false);
        r == run.outcome && used == run.used && buffer == run.buffer && reactions == []
    {
      if NonBlocking(timeout) {
        return Failure(NotImplementedError), 0;
      }
      if |reactions| > 0 {
        r := Success(Some(reactions[0]));
        reactions := reactions[1..];
        return r, 0;
      }
      r, used := ReadCdcReaction(chunks, timeout);
    }
  }
}
