/**
 * `BufferedCdcIO` of iqrf/cdc/io.py, over the codec of iqrf_codec.py: one
 * buffer for responses, a separate one for asynchronous responses, a FIFO
 * for the asynchronous responses met while a response was awaited, and
 * the frames written to the device.
 *
 * As written, the FIFO is created as `_async_response_queue` but used as
 * `_async_message_queue`, so both uses raise `AttributeError`; the class
 * below uses the one FIFO it creates, and the as-written behaviour is kept
 * beside it.
 */
module IqrfCdcIo {
  import opened Bytes
  import opened Wrappers
  import opened CdcWire
  import opened CdcMessages
  import opened CdcBase
  import opened CdcChannel
  import Codec = IqrfCdcCodec

  /** A decoded message is an asynchronous response. */
  predicate AsyncResponse(m: Message) {
    CategoryOf(TypeOf(m)) == Response && IsAsync(TypeOf(m))
  }

  /**
   * What `_read_cdc_response` does with a frame, as written: IOError for
   * anything but a response, and an AttributeError on the misspelt queue
   * for an asynchronous one.
   */
  function HandleResponseAsWritten(frame: seq<byte>): (h: Handled)
    ensures Codec.Decode(frame).Success? && AsyncResponse(Codec.Decode(frame).value) ==> h == Raised(AttributeError)
    ensures !h.Queued?
  {
    match Codec.Decode(frame)
    case Failure(e) => Raised(Codec(e))
    case Success(m) =>
      if CategoryOf(TypeOf(m)) != Response then Raised(IOError)
      else if IsAsync(TypeOf(m)) then Raised(AttributeError)
      else Returned(m)
  }

  /**
   * What `_read_cdc_response` does with a frame, as evidently intended:
   * queue an asynchronous response and return any other response.
   */
  function HandleResponse(frame: seq<byte>): (h: Handled)
    ensures h.Returned? <==> Codec.Decode(frame).Success? && CategoryOf(TypeOf(Codec.Decode(frame).value)) == Response
                              && !AsyncResponse(Codec.Decode(frame).value)
    ensures h.Queued? <==> Codec.Decode(frame).Success? && AsyncResponse(Codec.Decode(frame).value)
    ensures h.Returned? ==> h.message == Codec.Decode(frame).value
    ensures h.Queued? ==> h.queued == Codec.Decode(frame).value
    ensures h.Raised? ==> h.error == (if Codec.Decode(frame).Failure? then Codec(Codec.Decode(frame).error) else IOError)
  {
    match Codec.Decode(frame)
    case Failure(e) => Raised(Codec(e))
    case Success(m) =>
      if CategoryOf(TypeOf(m)) != Response then Raised(IOError)
      else if IsAsync(TypeOf(m)) then Queued(m)
      else Returned(m)
  }

  /** What `_read_async_cdc_response` does with a frame: return an asynchronous response, IOError for anything else. */
  function HandleAsyncResponse(frame: seq<byte>): (h: Handled)
    ensures !h.Queued?
    ensures h.Returned? <==> Codec.Decode(frame).Success? && AsyncResponse(Codec.Decode(frame).value)
    ensures h.Returned? ==> h.message == Codec.Decode(frame).value
    ensures h.Raised? ==> h.error == (if Codec.Decode(frame).Failure? then Codec(Codec.Decode(frame).error) else IOError)
  {
    match Codec.Decode(frame)
    case Failure(e) => Raised(Codec(e))
    case Success(m) =>
      if CategoryOf(TypeOf(m)) == Response && IsAsync(TypeOf(m)) then Returned(m) else Raised(IOError)
  }

  /** As written and as intended, the response handler differs only on a frame that decodes to an asynchronous response. */
  lemma HandleResponseDiffers(frame: seq<byte>)
    ensures HandleResponseAsWritten(frame) != HandleResponse(frame)
      <==> Codec.Decode(frame).Success? && AsyncResponse(Codec.Decode(frame).value)
  {
  }

  /** A frame that decodes to an asynchronous response raises AttributeError as written and is queued as intended. */
  lemma AsyncFrame(frame: seq<byte>, m: Message)
    requires Codec.Decode(frame) == Success(m) && AsyncResponse(m)
    ensures HandleResponseAsWritten(frame) == Raised(AttributeError)
    ensures HandleResponse(frame) == Queued(m)
  {
  }

  /**
   * The frame of an asynchronous data-received response, read while a
   * response is awaited, raises AttributeError as written and is queued as
   * intended.
   */
  lemma DataReceivedWhileAwaiting(d: seq<byte>)
    requires DataTransmissible(d)
    ensures Codec.Encode(DataReceivedResponse(d)).Success?
    ensures var frame := Codec.Encode(DataReceivedResponse(d)).value;
      HandleResponseAsWritten(frame) == Raised(AttributeError)
      && HandleResponse(frame) == Queued(DataReceivedResponse(d))
  {
    var m := DataReceivedResponse(d);
    assert BaseClass(TypeOf(m)) && Transmissible(m) && AsyncResponse(m);
    Codec.DecodeEncode(m);
    var frame := Codec.Encode(m).value;
    assert Codec.Decode(frame) == Success(m);
    AsyncFrame(frame, m);
  }

  /** "<DR" with the data "Hi" is such a frame. */
  lemma DataReceivedHi()
    ensures Codec.Encode(DataReceivedResponse([0x48, 0x69])).Success?
    ensures var frame := Codec.Encode(DataReceivedResponse([0x48, 0x69])).value;
      HandleResponseAsWritten(frame) == Raised(AttributeError)
      && HandleResponse(frame) == Queued(DataReceivedResponse([0x48, 0x69]))
  {
    DataReceivedWhileAwaiting([0x48, 0x69]);
  }

  /**
   * While a response is awaited, the asynchronous responses queued are the
   * frames that decoded to them, in the order they arrived in, and a
   * message returned is a synchronous response.
   */
  lemma ResponseQueuesAsync(buffer: seq<byte>, chunks: seq<Chunk>, timeout: Option<int>)
    ensures var r := ReadLoop(HandleResponse, buffer, chunks, timeout, false);
      |r.queued| <= |r.frames|
      && (forall i :: 0 <= i < |r.queued| ==>
            Codec.Decode(r.frames[i]) == Success(r.queued[i]) && AsyncResponse(r.queued[i]))
      && (r.outcome.Success? && r.outcome.value.Some? ==>
            CategoryOf(TypeOf(r.outcome.value.value)) == Response && !AsyncResponse(r.outcome.value.value))
  {
    LoopInOrder(HandleResponse, buffer, chunks, timeout, false);
  }

  /** As written, nothing is ever queued, and the run stops at the first frame. */
  lemma ResponseAsWrittenQueuesNothing(buffer: seq<byte>, chunks: seq<Chunk>, timeout: Option<int>)
    ensures var r := ReadLoop(HandleResponseAsWritten, buffer, chunks, timeout, false);
      r.queued == [] && |r.frames| <= 1
  {
    var r := ReadLoop(HandleResponseAsWritten, buffer, chunks, timeout, false);
    LoopInOrder(HandleResponseAsWritten, buffer, chunks, timeout, false);
    assert |r.queued| > 0 ==> HandleResponseAsWritten(r.frames[0]).Queued?;
  }

  /** Waiting for an asynchronous response queues nothing, and what it returns is one. */
  lemma AsyncReadQueuesNothing(buffer: seq<byte>, chunks: seq<Chunk>, timeout: Option<int>)
    ensures var r := ReadLoop(HandleAsyncResponse, buffer, chunks, timeout, false);
      r.queued == [] && |r.frames| <= 1
      && (r.outcome.Success? && r.outcome.value.Some? ==> AsyncResponse(r.outcome.value.value))
  {
    var r := ReadLoop(HandleAsyncResponse, buffer, chunks, timeout, false);
    LoopInOrder(HandleAsyncResponse, buffer, chunks, timeout, false);
    assert |r.queued| > 0 ==> HandleAsyncResponse(r.frames[0]).Queued?;
  }

  /** `timeout is not None and timeout <= 0`: a non-blocking call. */
  predicate NonBlocking(timeout: Option<int>) {
    timeout.Some? && timeout.value <= 0
  }

  /** `receive(timeout)` as written: refuse a non-blocking call, then fail on the misspelt queue. */
  function ReceiveAsWritten(timeout: Option<int>): (r: Result<Option<Message>, ChannelError>)
    ensures r.Failure? && (r.error == NotImplementedError <==> NonBlocking(timeout))
  {
    if NonBlocking(timeout) then Failure(NotImplementedError) else Failure(AttributeError)
  }

  class BufferedCdcIO {
    /** `_buffer`: bytes read for responses and not yet sliced into frames. */
    var buffer: seq<byte>
    /** `_async_buffer`: bytes read for asynchronous responses and not yet sliced. */
    var asyncBuffer: seq<byte>
    /** `_async_response_queue`: asynchronous responses read while a response was awaited, oldest first. */
    var asyncResponses: seq<Message>
    /** The frames given to `self.write`, in order. */
    var written: seq<seq<byte>>

    /** `BufferedCdcIO(device)`: empty buffers and an empty queue. */
    constructor()
      ensures buffer == [] && asyncBuffer == [] && asyncResponses == [] && written == []
    {
      buffer := [];
      asyncBuffer := [];
      asyncResponses := [];
      written := [];
    }

    /** `_read_cdc_response(timeout)`: run the read loop on `_buffer` and queue the asynchronous responses met. */
    method ReadCdcResponse(chunks: seq<Chunk>, timeout: Option<int>) returns (r: Result<Option<Message>, ChannelError>, used: nat)
      modifies this
      ensures var run := ReadLoop(HandleResponse, old(buffer), chunks, timeout, false);
        r == run.outcome && used == run.used && buffer == run.buffer
        && asyncResponses == old(asyncResponses) + run.queued
        && asyncBuffer == old(asyncBuffer) && written == old(written)
    {
      var run := ReadFrames(HandleResponse, buffer, chunks, timeout);
      buffer := run.buffer;
      asyncResponses := asyncResponses + run.queued;
      r := run.outcome;
      used := run.used;
    }

    /** `_read_async_cdc_response(timeout)`: run the read loop on `_async_buffer` for one asynchronous response. */
    method ReadAsyncCdcResponse(chunks: seq<Chunk>, timeout: Option<int>) returns (r: Result<Option<Message>, ChannelError>, used: nat)
      modifies this
      ensures var run := ReadLoop(HandleAsyncResponse, old(asyncBuffer), chunks, timeout, false);
        r == run.outcome && used == run.used && asyncBuffer == run.buffer
        && buffer == old(buffer) && asyncResponses == old(asyncResponses) && written == old(written)
    {
      var run := ReadFrames(HandleAsyncResponse, asyncBuffer, chunks, timeout);
      AsyncReadQueuesNothing(asyncBuffer, chunks, timeout);
      asyncBuffer := run.buffer;
      r := run.outcome;
      used := run.used;
    }

    /** `_write_cdc_request(message)`: IOError for anything but a request, else write its encoding. */
    method WriteCdcRequest(m: Message) returns (r: Result<(), ChannelError>)
      modifies this
      ensures buffer == old(buffer) && asyncBuffer == old(asyncBuffer) && asyncResponses == old(asyncResponses)
      ensures CategoryOf(TypeOf(m)) != Request ==> r == Failure(IOError) && written == old(written)
      ensures CategoryOf(TypeOf(m)) == Request && Codec.Encode(m).Failure? ==>
        r == Failure(Codec(Codec.Encode(m).error)) && written == old(written)
      ensures CategoryOf(TypeOf(m)) == Request && Codec.Encode(m).Success? ==>
        r == Success(()) && written == old(written) + [Codec.Encode(m).value]
    {
      if CategoryOf(TypeOf(m)) != Request {
        return Failure(IOError);
      }
      match Codec.Encode(m)
      case Failure(e) =>
        r := Failure(Codec(e));
      case Success(frame) =>
        written := written + [frame];
        r := Success(());
    }

    /** `send(message, timeout)`: refuse a non-blocking call, write the request, then await its response. */
    method Send(m: Message, timeout: Option<int>, chunks: seq<Chunk>) returns (r: Result<Option<Message>, ChannelError>, used: nat)
      modifies this
      ensures asyncBuffer == old(asyncBuffer)
      ensures NonBlocking(timeout) ==>
        r == Failure(NotImplementedError) && used == 0
        && buffer == old(buffer) && asyncResponses == old(asyncResponses) && written == old(written)
      ensures !NonBlocking(timeout) && CategoryOf(TypeOf(m)) != Request ==>
        r == Failure(IOError) && used == 0
        && buffer == old(buffer) && asyncResponses == old(asyncResponses) && written == old(written)
      ensures !NonBlocking(timeout) && CategoryOf(TypeOf(m)) == Request && Codec.Encode(m).Failure? ==>
        r == Failure(Codec(Codec.Encode(m).error)) && used == 0
        && buffer == old(buffer) && asyncResponses == old(asyncResponses) && written == old(written)
      ensures !NonBlocking(timeout) && CategoryOf(TypeOf(m)) == Request && Codec.Encode(m).Success? ==>
        var run := ReadLoop(HandleResponse, old(buffer), chunks, timeout, false);
        written == old(written) + [Codec.Encode(m).value]
        && r == run.outcome && used == run.used && buffer == run.buffer
        && asyncResponses == old(asyncResponses) + run.queued
    {
      if NonBlocking(timeout) {
        return Failure(NotImplementedError), 0;
      }
      var w := WriteCdcRequest(m);
      if w.Failure? {
        return Failure(w.error), 0;
      }
      r, used := ReadCdcResponse(chunks, timeout);
    }

    /**
     * `receive(timeout)`, on the queue the class creates: refuse a
     * non-blocking call, give the oldest queued asynchronous response, else
     * await one on `_async_buffer`.
     */
    method Receive(timeout: Option<int>, chunks: seq<Chunk>) returns (r: Result<Option<Message>, ChannelError>, used: nat)
      modifies this
      ensures buffer == old(buffer) && written == old(written)
      ensures NonBlocking(timeout) ==>
        r == Failure(NotImplementedError) && used == 0
        && asyncBuffer == old(asyncBuffer) && asyncResponses == old(asyncResponses)
      ensures !NonBlocking(timeout) && |old(asyncResponses)| > 0 ==>
        r == Success(Some(old(asyncResponses)[0])) && used == 0
        && asyncBuffer == old(asyncBuffer) && asyncResponses == old(asyncResponses)[1..]
      ensures !NonBlocking(timeout) && old(asyncResponses) == [] ==>
        var run := ReadLoop(HandleAsyncResponse, old(asyncBuffer), chunks, timeout, false);
        r == run.outcome && used == run.used && asyncBuffer == run.buffer && asyncResponses == []
    {
      if NonBlocking(timeout) {
        return Failure(NotImplementedError), 0;
      }
      if |asyncResponses| > 0 {
        r := Success(Some(asyncResponses[0]));
        asyncResponses := asyncResponses[1..];
        return r, 0;
      }
      r, used := ReadAsyncCdcResponse(chunks, timeout);
    }
  }
}
