/**
 * `BufferedSpiIo` of src/iqrf/transport/spi_io.py: the status-polling state
 * machine of `send`, which drains every data-ready report into a FIFO of
 * reactions before the request is clocked out, and `receive`, which
 * empties that FIFO before it polls for more.
 *
 * The hardware is an oracle.  A status poll (`transfer([COMMAND_CHECK])`)
 * is one `Probe` of `wait`, with the status byte the device clocked back;
 * every other transfer takes the next frame of `replies`.  The frames
 * clocked out, other than the polls, are recorded in `transferred`.
 *
 * As written, the data-ready test is `x[0] in range(0x40, 0x7F)`, which
 * leaves out 0x7F, the report of 63 waiting bytes; the class below uses
 * the whole band 0x40..0x7F and the as-written test is kept beside it.
 */
module SpiIo {
  import opened Bytes
  import opened Wrappers
  import opened SpiCodec
  import opened IoUtil

  /** Why `send` or `receive` gave no message. */
  datatype SpiFailure =
    | TypeError              // `send` of a message that is not a request
    | IoTimeoutError         // `wait` ran out of budget
    | Codec(error: SpiError) // an encoder or decoder raised
    | EndOfInput             // the oracle ran out (the device would be read again)

  /*
   * Status bytes
   */

  /** The data-ready test as written: `range(DATA_READY_MIN, DATA_READY_MAX)`, 0x40..0x7E. */
  predicate DataReadyAsWritten(s: byte) {
    DATA_READY_MIN <= s < DATA_READY_MAX
  }

  /** The data-ready band 0x40..0x7F. */
  predicate DataReady(s: byte) {
    DATA_READY_MIN <= s <= DATA_READY_MAX
  }

  /** The number of bytes a data-ready status reports: 64 for 0x40, else the low six bits. */
  function Readable(s: byte): (n: nat)
    requires DataReady(s)
    ensures 1 <= n <= 64
  {
    if s == DATA_READY_MIN then 64 else s as int - DATA_READY_MIN as int
  }

  /** The status that reports `n` waiting bytes. */
  function ReadyStatus(n: nat): (s: byte)
    requires 1 <= n <= 64
    ensures DataReady(s)
  {
    (if n == 64 then 0x40 else 0x40 + n) as byte
  }

  /** Every status of the band is the one that reports its own count ... */
  lemma ReadyStatusOfReadable(s: byte)
    requires DataReady(s)
    ensures ReadyStatus(Readable(s)) == s
  {
  }

  /** ... and every count 1..64 is reported by exactly one status of the band. */
  lemma ReadableOfReadyStatus(n: nat)
    requires 1 <= n <= 64
    ensures Readable(ReadyStatus(n)) == n
  {
    ByteNat(if n == 64 then 0x40 else 0x40 + n);
  }

  /** The test `send` polls for as written: communication mode or data ready. */
  predicate AwaitedAsWritten(s: byte) {
    s == STATUS_COMMUNICATION_MODE || DataReadyAsWritten(s)
  }

  /** The test `send` polls for: communication mode or data ready. */
  predicate Awaited(s: byte) {
    s == STATUS_COMMUNICATION_MODE || DataReady(s)
  }

  /** As written, 0x7F is the only status of the band not taken for data ready, and the count 63 is never read. */
  lemma ReadyBandAsWritten(s: byte)
    ensures DataReady(s) && !DataReadyAsWritten(s) <==> s == 0x7F
    ensures DataReadyAsWritten(s) ==> Readable(s) != 63
    ensures Readable(0x7F) == 63
  {
  }

  /**
   * A device that reports 63 waiting bytes is polled past as written,
   * until the oracle runs out; with the whole band, the poll stops there.
   */
  lemma SixtyThreeBytesWaiting(budget: int)
    requires budget > 0
    ensures WaitSpec([Probe(0x7F, 0, 0, 0)], AwaitedAsWritten, budget) == Exhausted(1)
    ensures WaitSpec([Probe(0x7F, 0, 0, 0)], Awaited, budget) == Satisfied(0, 0x7F, 1)
  {
  }

  /** As written, `wait` never stops on 0x7F. */
  lemma AsWrittenNeverStopsOnSixtyThree(polls: seq<Probe<byte>>, budget: int)
    requires WaitSpec(polls, AwaitedAsWritten, budget).Satisfied?
    ensures WaitSpec(polls, AwaitedAsWritten, budget).result != 0x7F
  {
    WaitSatisfied(polls, AwaitedAsWritten, budget);
  }

  /*
   * The polling loop of `send`
   */

  /**
   * How the loop of `send` ends: its outcome, the payloads of the
   * receive exchanges that decoded (in order), the counts of every receive
   * exchange started, and the polls and replies consumed.
   */
  datatype Drain = Drain(outcome: Result<(), SpiFailure>, received: seq<seq<byte>>, readables: seq<nat>,
                         polls: nat, replies: nat)

  /**
   * The loop of `send` with `budget` left: wait for communication mode or
   * data ready; on communication mode leave the loop; on data ready clock
   * out a receive request for the reported count, decode the reply, and
   * wait again with the budget less the time the wait took.
   */
  function DrainSpec(polls: seq<Probe<byte>>, replies: seq<seq<byte>>, budget: int): (d: Drain)
    ensures d.polls <= |polls| && d.replies <= |replies|
    decreases |polls|
  {
    match WaitSpec(polls, Awaited, budget)
    case TimedOut(n) => Drain(Failure(IoTimeoutError), [], [], n, 0)
    case Exhausted(n) => Drain(Failure(EndOfInput), [], [], n, 0)
    case Satisfied(delta, status, n) =>
      WaitSatisfied(polls, Awaited, budget);
      if status == STATUS_COMMUNICATION_MODE then Drain(Success(()), [], [], n, 0)
      else
        var count := Readable(status);
        if |replies| == 0 then Drain(Failure(EndOfInput), [], [count], n, 0)
        else
          match DecodeDataReceiveResponse(replies[0])
          case Failure(e) => Drain(Failure(Codec(e)), [], [count], n, 1)
          case Success(data) =>
            var rest := DrainSpec(polls[n..], replies[1..], budget - delta);
            Drain(rest.outcome, [data] + rest.received, [count] + rest.readables, n + rest.polls, 1 + rest.replies)
  }

  /** `t` is what is left of loop `s` after `received`, `readables`, `polls` and `replies` were already taken. */
  predicate DrainContinues(t: Drain, received: seq<seq<byte>>, readables: seq<nat>, polls: nat, replies: nat, s: Drain) {
    t.outcome == s.outcome && t.received == received + s.received && t.readables == readables + s.readables
    && t.polls == polls + s.polls && t.replies == replies + s.replies
  }

  /** The reactions queued for the payloads `received`. */
  function Reactions(received: seq<seq<byte>>): (r: seq<SpiMessage>)
    ensures |r| == |received|
    ensures forall i :: 0 <= i < |r| ==> r[i] == DataReceivedReaction(received[i])
  {
    if received == [] then [] else Reactions(received[..|received| - 1]) + [DataReceivedReaction(received[|received| - 1])]
  }

  /** `frames` are the receive requests for `readables`, one each, in order. */
  predicate ReceiveRequests(frames: seq<seq<byte>>, readables: seq<nat>) {
    |frames| == |readables|
    && forall i :: 0 <= i < |frames| ==> IsRequestFrame(frames[i], COMMAND_READ_WRITE, 0, Zeros(readables[i]))
  }

  /** One more receive request keeps the frames and the counts in step. */
  lemma ReceiveRequestsSnoc(frames: seq<seq<byte>>, readables: seq<nat>, f: seq<byte>, count: nat)
    requires ReceiveRequests(frames, readables)
    requires IsRequestFrame(f, COMMAND_READ_WRITE, 0, Zeros(count))
    ensures ReceiveRequests(frames + [f], readables + [count])
  {
  }

  /** Queuing one more payload queues one more reaction. */
  lemma ReactionsSnoc(received: seq<seq<byte>>, data: seq<byte>)
    ensures Reactions(received + [data]) == Reactions(received) + [DataReceivedReaction(data)]
  {
    assert (received + [data])[..|received|] == received;
  }

  /** The loop ends at a wait that raised: nothing more was drained. */
  lemma DrainWaitFailed(ps: seq<Probe<byte>>, rs: seq<seq<byte>>, budget: int)
    requires !WaitSpec(ps, Awaited, budget).Satisfied?
    ensures var w := WaitSpec(ps, Awaited, budget); var s := DrainSpec(ps, rs, budget);
      s.outcome == (if w.TimedOut? then Failure(IoTimeoutError) else Failure(EndOfInput))
      && s.received == [] && s.readables == [] && s.polls == w.probes && s.replies == 0
  {
  }

  /** The loop ends at a poll that saw communication mode. */
  lemma DrainCommunication(ps: seq<Probe<byte>>, rs: seq<seq<byte>>, budget: int)
    requires WaitSpec(ps, Awaited, budget).Satisfied? && WaitSpec(ps, Awaited, budget).result == STATUS_COMMUNICATION_MODE
    ensures var s := DrainSpec(ps, rs, budget);
      s.outcome == Success(()) && s.received == [] && s.readables == [] && s.polls == WaitSpec(ps, Awaited, budget).probes
      && s.replies == 0
  {
  }

  /** A data-ready poll: the count is 1..64 and the poll consumed at least one probe. */
  lemma DrainDataReady(ps: seq<Probe<byte>>, budget: int)
    requires WaitSpec(ps, Awaited, budget).Satisfied? && WaitSpec(ps, Awaited, budget).result != STATUS_COMMUNICATION_MODE
    ensures DataReady(WaitSpec(ps, Awaited, budget).result) && 0 < WaitSpec(ps, Awaited, budget).probes <= |ps|
  {
    WaitSatisfied(ps, Awaited, budget);
  }

  /** The loop ends at the receive exchange after a data-ready poll: no reply, or one that does not decode. */
  lemma DrainExchangeFailed(ps: seq<Probe<byte>>, rs: seq<seq<byte>>, budget: int)
    requires WaitSpec(ps, Awaited, budget).Satisfied? && WaitSpec(ps, Awaited, budget).result != STATUS_COMMUNICATION_MODE
    requires |rs| > 0 ==> DecodeDataReceiveResponse(rs[0]).Failure?
    ensures DataReady(WaitSpec(ps, Awaited, budget).result)
    ensures var w := WaitSpec(ps, Awaited, budget); var s := DrainSpec(ps, rs, budget);
      s.outcome == (if |rs| == 0 then Failure(EndOfInput) else Failure(Codec(DecodeDataReceiveResponse(rs[0]).error)))
      && s.received == [] && s.readables == [Readable(w.result)] && s.polls == w.probes
      && s.replies == (if |rs| == 0 then 0 else 1)
  {
    DrainDataReady(ps, budget);
  }

  /** A data-ready poll whose reply decodes: the loop goes on with the rest of the oracle and of the budget. */
  lemma DrainStep(ps: seq<Probe<byte>>, rs: seq<seq<byte>>, budget: int)
    requires WaitSpec(ps, Awaited, budget).Satisfied? && WaitSpec(ps, Awaited, budget).result != STATUS_COMMUNICATION_MODE
    requires |rs| > 0 && DecodeDataReceiveResponse(rs[0]).Success?
    ensures DataReady(WaitSpec(ps, Awaited, budget).result) && 0 < WaitSpec(ps, Awaited, budget).probes <= |ps|
    ensures var w := WaitSpec(ps, Awaited, budget);
      DrainContinues(DrainSpec(ps, rs, budget), [DecodeDataReceiveResponse(rs[0]).value], [Readable(w.result)], w.probes, 1,
                     DrainSpec(ps[w.probes..], rs[1..], budget - w.delta))
  {
    DrainDataReady(ps, budget);
  }

  /** Taking a step of a loop that continues another continues that one. */
  lemma DrainContinuesTrans(t: Drain, received: seq<seq<byte>>, readables: seq<nat>, polls: nat, replies: nat, s: Drain,
                            received2: seq<seq<byte>>, readables2: seq<nat>, polls2: nat, replies2: nat, u: Drain)
    requires DrainContinues(t, received, readables, polls, replies, s)
    requires DrainContinues(s, received2, readables2, polls2, replies2, u)
    ensures DrainContinues(t, received + received2, readables + readables2, polls + polls2, replies + replies2, u)
  {
  }

  /** A loop that continues one which drains nothing more ends with what was already drained. */
  lemma DrainEnd(t: Drain, received: seq<seq<byte>>, readables: seq<nat>, polls: nat, replies: nat, s: Drain)
    requires DrainContinues(t, received, readables, polls, replies, s) && s.received == []
    ensures t == Drain(s.outcome, received, readables + s.readables, polls + s.polls, replies + s.replies)
  {
    assert received + [] == received;
  }

  /**
   * Every payload the loop queued is what its reply decoded to, in the
   * order the replies came.
   */
  lemma {:induction false} DrainDecoded(polls: seq<Probe<byte>>, replies: seq<seq<byte>>, budget: int)
    ensures var d := DrainSpec(polls, replies, budget);
      |d.received| <= d.replies
      && forall i :: 0 <= i < |d.received| ==> DecodeDataReceiveResponse(replies[i]) == Success(d.received[i])
    decreases |polls|
  {
    var w := WaitSpec(polls, Awaited, budget);
    if !w.Satisfied? {
      DrainWaitFailed(polls, replies, budget);
    } else if w.result == STATUS_COMMUNICATION_MODE {
      DrainCommunication(polls, replies, budget);
    } else if |replies| == 0 || DecodeDataReceiveResponse(replies[0]).Failure? {
      DrainExchangeFailed(polls, replies, budget);
    } else {
      DrainStep(polls, replies, budget);
      var d := DrainSpec(polls, replies, budget);
      var rest := DrainSpec(polls[w.probes..], replies[1..], budget - w.delta);
      DrainDecoded(polls[w.probes..], replies[1..], budget - w.delta);
      forall i | 0 <= i < |d.received|
        ensures DecodeDataReceiveResponse(replies[i]) == Success(d.received[i])
      {
        if i > 0 {
          assert replies[i] == replies[1..][i - 1];
          assert d.received[i] == rest.received[i - 1];
        }
      }
    }
  }

  /**
   * Every receive exchange the loop started was for 1..64 bytes, and all
   * but a last one that failed delivered a payload.
   */
  lemma {:induction false} DrainCounts(polls: seq<Probe<byte>>, replies: seq<seq<byte>>, budget: int)
    ensures var d := DrainSpec(polls, replies, budget);
      |d.received| <= |d.readables| <= |d.received| + 1
      && (d.outcome.Success? ==> |d.received| == |d.readables|)
      && forall i :: 0 <= i < |d.readables| ==> 1 <= d.readables[i] <= 64
    decreases |polls|
  {
    var w := WaitSpec(polls, Awaited, budget);
    if !w.Satisfied? {
      DrainWaitFailed(polls, replies, budget);
    } else if w.result == STATUS_COMMUNICATION_MODE {
      DrainCommunication(polls, replies, budget);
    } else if |replies| == 0 || DecodeDataReceiveResponse(replies[0]).Failure? {
      DrainExchangeFailed(polls, replies, budget);
    } else {
      DrainStep(polls, replies, budget);
      var d := DrainSpec(polls, replies, budget);
      var rest := DrainSpec(polls[w.probes..], replies[1..], budget - w.delta);
      DrainCounts(polls[w.probes..], replies[1..], budget - w.delta);
      forall i | 0 <= i < |d.readables|
        ensures 1 <= d.readables[i] <= 64
      {
        if i > 0 {
          assert d.readables[i] == rest.readables[i - 1];
        }
      }
    }
  }

  /** The loop leaves normally only after a poll that saw communication mode. */
  lemma {:induction false} DrainEndsInCommunication(polls: seq<Probe<byte>>, replies: seq<seq<byte>>, budget: int)
    requires DrainSpec(polls, replies, budget).outcome.Success?
    ensures var d := DrainSpec(polls, replies, budget);
      0 < d.polls && polls[d.polls - 1].result == STATUS_COMMUNICATION_MODE
    decreases |polls|
  {
    var w := WaitSpec(polls, Awaited, budget);
    if !w.Satisfied? {
      DrainWaitFailed(polls, replies, budget);
    } else if w.result == STATUS_COMMUNICATION_MODE {
      WaitSatisfied(polls, Awaited, budget);
      DrainCommunication(polls, replies, budget);
    } else if |replies| == 0 || DecodeDataReceiveResponse(replies[0]).Failure? {
      DrainExchangeFailed(polls, replies, budget);
    } else {
      DrainStep(polls, replies, budget);
      var d := DrainSpec(polls, replies, budget);
      var rest := DrainSpec(polls[w.probes..], replies[1..], budget - w.delta);
      assert d.outcome == rest.outcome && d.polls == w.probes + rest.polls;
      DrainEndsInCommunication(polls[w.probes..], replies[1..], budget - w.delta);
      assert polls[d.polls - 1] == polls[w.probes..][rest.polls - 1];
    }
  }

  /** With no budget the loop does not poll: `send` with a timeout of 0 or less raises IoTimeoutError. */
  lemma DrainNoBudget(polls: seq<Probe<byte>>, replies: seq<seq<byte>>, budget: int)
    requires budget <= 0
    ensures DrainSpec(polls, replies, budget) == Drain(Failure(IoTimeoutError), [], [], 0, 0)
  {
    WaitNoBudget(polls, Awaited, budget);
  }

  /*
   * The request exchange of `send`
   */

  /** The requests `encode` does not reject. */
  predicate Encodable(m: SpiMessage) {
    match m
    case TrInfoRequest => true
    case DataSendRequest(data) => |data| < 256
    case DataReceiveRequest(length) => length < 256
    case _ => false
  }

  /** The frame a request is clocked out as. */
  predicate RequestFrame(m: SpiMessage, f: seq<byte>) {
    match m
    case TrInfoRequest => IsRequestFrame(f, COMMAND_TR_INFO, 0, Zeros(TR_INFO_LENGTH))
    case DataSendRequest(data) => IsRequestFrame(f, COMMAND_READ_WRITE, 1, data)
    case DataReceiveRequest(length) => IsRequestFrame(f, COMMAND_READ_WRITE, 0, Zeros(length))
    case _ => false
  }

  /**
   * The end of `send`: encode the request, clock it out, and decode the
   * reply by the request's kind; a request of any other kind raises
   * `SpiCodecError` after its transfer.
   */
  function Exchange(m: SpiMessage, replies: seq<seq<byte>>): (r: Result<SpiMessage, SpiFailure>)
    requires IsRequest(m)
    ensures r.Success? ==> (m.TrInfoRequest? && r.value.TrInfoResponse?) || (m.DataSendRequest? && r.value == DataSendResponse)
  {
    if m.DataReceiveResponse? then Failure(Codec(NotImplemented))
    else if !Encodable(m) then Failure(Codec(ValueError))
    else if |replies| == 0 then Failure(EndOfInput)
    else
      match m
      case TrInfoRequest =>
        (match DecodeTrInfoResponse(replies[0])
         case Success(data) => Success(TrInfoResponse(data))
         case Failure(e) => Failure(Codec(e)))
      case DataSendRequest(_) =>
        (match DecodeDataSendResponse(replies[0])
         case Success(_) => Success(DataSendResponse)
         case Failure(e) => Failure(Codec(e)))
      case _ => Failure(Codec(SpiCodecError))
  }

  /** A transceiver's reply to a TR info request gives its sixteen bytes back; one to a short data send is accepted. */
  lemma ExchangeReplies(m: SpiMessage, s0: byte, s1: byte, payload: seq<byte>, rest: seq<seq<byte>>)
    requires m.TrInfoRequest? ==> |payload| == TR_INFO_LENGTH
    requires m.DataSendRequest? ==> |m.data| < 128 && |payload| == |m.data|
    ensures m.TrInfoRequest? ==> Exchange(m, [ReplyFrame(s0, s1, 0, payload)] + rest) == Success(TrInfoResponse(payload))
    ensures m.DataSendRequest? ==> Exchange(m, [ReplyFrame(s0, s1, 1, payload)] + rest) == Success(DataSendResponse)
  {
    if m.TrInfoRequest? {
      var f := ReplyFrame(s0, s1, 0, payload);
      TrInfoResponseExact(f);
      assert f[2..18] == payload;
    } else if m.DataSendRequest? {
      DataSendResponseComplete(s0, s1, payload);
    }
  }

  /** A receive request that reached the exchange is clocked out and then rejected. */
  lemma ExchangeRejectsReceive(length: nat, replies: seq<seq<byte>>)
    requires length < 256 && |replies| > 0
    ensures Exchange(DataReceiveRequest(length), replies) == Failure(Codec(SpiCodecError))
  {
  }

  /*
   * `receive` without a queued reaction
   */

  /** How `_wait_until_readable` and the receive exchange after it end. */
  datatype Fetched = Fetched(outcome: Result<SpiMessage, SpiFailure>, readable: Option<nat>, polls: nat, replies: nat)

  /** `receive` with an empty queue: wait for data ready, clock out a receive request for the count and decode the reply. */
  function FetchSpec(polls: seq<Probe<byte>>, replies: seq<seq<byte>>, budget: int): (f: Fetched)
    ensures f.polls <= |polls| && f.replies <= |replies|
  {
    match WaitSpec(polls, DataReady, budget)
    case TimedOut(n) => Fetched(Failure(IoTimeoutError), None, n, 0)
    case Exhausted(n) => Fetched(Failure(EndOfInput), None, n, 0)
    case Satisfied(_, status, n) =>
      WaitSatisfied(polls, DataReady, budget);
      var count := Readable(status);
      if |replies| == 0 then Fetched(Failure(EndOfInput), Some(count), n, 0)
      else
        match DecodeDataReceiveResponse(replies[0])
        case Failure(e) => Fetched(Failure(Codec(e)), Some(count), n, 1)
        case Success(data) => Fetched(Success(DataReceivedReaction(data)), Some(count), n, 1)
  }

  /**
   * A fetched reaction carries what the reply decoded to, after a poll that
   * reported its count; a transceiver's reply for that count gives the
   * payload back.
   */
  lemma FetchReaction(polls: seq<Probe<byte>>, replies: seq<seq<byte>>, budget: int)
    ensures var f := FetchSpec(polls, replies, budget);
      (f.outcome.Success? ==>
         f.readable.Some? && 0 < f.polls && DataReady(polls[f.polls - 1].result)
         && f.readable.value == Readable(polls[f.polls - 1].result)
         && |replies| > 0 && f.outcome.value == DataReceivedReaction(DecodeDataReceiveResponse(replies[0]).value))
  {
    var w := WaitSpec(polls, DataReady, budget);
    if w.Satisfied? {
      WaitSatisfied(polls, DataReady, budget);
    }
  }

  /**
   * The loop of `send` (src/iqrf/transport/spi_io.py:152-167), from the
   * budget `to_iotime` gave: the outcome, with the receive requests it
   * clocked out.
   */
  method DrainLoop(polls: seq<Probe<byte>>, replies: seq<seq<byte>>, budget0: int) returns (d: Drain, frames: seq<seq<byte>>)
    ensures d == DrainSpec(polls, replies, budget0)
    ensures ReceiveRequests(frames, d.readables)
  {
    ghost var target := DrainSpec(polls, replies, budget0);
    var ps, rs, budget := polls, replies, budget0;
    var pi: nat, ri: nat := 0, 0;
    var received: seq<seq<byte>> := [];
    var readables: seq<nat> := [];
    frames := [];
    while true
      invariant DrainContinues(target, received, readables, pi, ri, DrainSpec(ps, rs, budget))
      invariant ReceiveRequests(frames, readables)
      decreases |ps|
    {
      var o := Wait(ps, Awaited, budget);
      if !o.Satisfied? {
        DrainWaitFailed(ps, rs, budget);
        DrainEnd(target, received, readables, pi, ri, DrainSpec(ps, rs, budget));
        assert readables + [] == readables;
        return Drain(if o.TimedOut? then Failure(IoTimeoutError) else Failure(EndOfInput), received, readables, pi + o.probes, ri), frames;
      }
      var status := o.result;
      if status == STATUS_COMMUNICATION_MODE {
        DrainCommunication(ps, rs, budget);
        DrainEnd(target, received, readables, pi, ri, DrainSpec(ps, rs, budget));
        assert readables + [] == readables;
        return Drain(Success(()), received, readables, pi + o.probes, ri), frames;
      }
      DrainDataReady(ps, budget);
      var count := Readable(status);
      var request := EncodeDataReceiveRequest(count);
      ReceiveRequestsSnoc(frames, readables, request.value, count);
      frames := frames + [request.value];
      if |rs| == 0 {
        DrainExchangeFailed(ps, rs, budget);
        DrainEnd(target, received, readables, pi, ri, DrainSpec(ps, rs, budget));
        return Drain(Failure(EndOfInput), received, readables + [count], pi + o.probes, ri), frames;
      }
      var reply := DecodeDataReceiveResponse(rs[0]);
      if reply.Failure? {
        DrainExchangeFailed(ps, rs, budget);
        DrainEnd(target, received, readables, pi, ri, DrainSpec(ps, rs, budget));
        return Drain(Failure(Codec(reply.error)), received, readables + [count], pi + o.probes, ri + 1), frames;
      }
      DrainStep(ps, rs, budget);
      DrainContinuesTrans(target, received, readables, pi, ri, DrainSpec(ps, rs, budget),
                          [reply.value], [count], o.probes, 1, DrainSpec(ps[o.probes..], rs[1..], budget - o.delta));
      received := received + [reply.value];
      readables := readables + [count];
      pi, ri := pi + o.probes, ri + 1;
      ps, rs, budget := ps[o.probes..], rs[1..], budget - o.delta;
    }
  }

  class BufferedSpiIo {
    /** `_reactions`: the reactions drained by `send`, oldest first. */
    var reactions: seq<SpiMessage>
    /** The frames clocked out other than status polls, in order. */
    var transferred: seq<seq<byte>>

    /** `BufferedSpiIo(port)`: an empty queue. */
    constructor()
      ensures reactions == [] && transferred == []
    {
      reactions := [];
      transferred := [];
    }

    /**
     * `send(message, timeout)`: refuse anything but a request; drain the
     * data-ready reports into the queue until the device is in
     * communication mode; then exchange the request.
     */
    method Send(m: SpiMessage, timeout: Option<int>, polls: seq<Probe<byte>>, replies: seq<seq<byte>>)
      returns (r: Result<SpiMessage, SpiFailure>, pollsUsed: nat, repliesUsed: nat)
      modifies this
      ensures !IsRequest(m) ==>
        r == Failure(TypeError) && pollsUsed == 0 && repliesUsed == 0
        && reactions == old(reactions) && transferred == old(transferred)
      ensures IsRequest(m) ==>
        var d := DrainSpec(polls, replies, ToIoTime(timeout));
        var n := |old(transferred)| + |d.readables|;
        reactions == old(reactions) + Reactions(d.received)
        && pollsUsed == d.polls
        && n <= |transferred| && transferred[..|old(transferred)|] == old(transferred)
        && ReceiveRequests(transferred[|old(transferred)|..n], d.readables)
        && (d.outcome.Failure? ==> r == Failure(d.outcome.error) && repliesUsed == d.replies && |transferred| == n)
        && (d.outcome.Success? ==>
              r == Exchange(m, replies[d.replies..])
              && (Encodable(m) ==> |transferred| == n + 1 && RequestFrame(m, transferred[n]))
              && (!Encodable(m) ==> |transferred| == n)
              && repliesUsed == d.replies + (if Encodable(m) && d.replies < |replies| then 1 else 0))
    {
      if !IsRequest(m) {
        return Failure(TypeError), 0, 0;
      }
      var d, frames := DrainLoop(polls, replies, ToIoTime(timeout));
      reactions := reactions + Reactions(d.received);
      transferred := transferred + frames;
      assert transferred[..|old(transferred)|] == old(transferred);
      assert transferred[|old(transferred)|..|transferred|] == frames;
      pollsUsed := d.polls;
      if d.outcome.Failure? {
        return Failure(d.outcome.error), pollsUsed, d.replies;
      }
      ghost var drained := transferred;
      assert |drained| == |old(transferred)| + |d.readables|;
      r, repliesUsed := ExchangeRequest(m, replies[d.replies..]);
      repliesUsed := d.replies + repliesUsed;
      assert transferred[..|drained|] == drained;
      assert transferred[..|old(transferred)|] == drained[..|old(transferred)|];
      assert transferred[|old(transferred)|..|drained|] == drained[|old(transferred)|..];
    }

    /** The end of `send`: encode the request, clock it out and decode the reply by the request's kind. */
    method ExchangeRequest(m: SpiMessage, replies: seq<seq<byte>>) returns (r: Result<SpiMessage, SpiFailure>, used: nat)
      requires IsRequest(m)
      modifies this
      ensures r == Exchange(m, replies) && reactions == old(reactions)
      ensures Encodable(m) ==>
        |transferred| == |old(transferred)| + 1 && transferred[..|old(transferred)|] == old(transferred)
        && RequestFrame(m, transferred[|old(transferred)|])
      ensures !Encodable(m) ==> transferred == old(transferred)
      ensures used == (if Encodable(m) && |replies| > 0 then 1 else 0)
    {
      var frame := Encode(m);
      if frame.Failure? {
        return Failure(Codec(frame.error)), 0;
      }
      transferred := transferred + [frame.value];
      if |replies| == 0 {
        return Failure(EndOfInput), 0;
      }
      used := 1;
      match m
      case TrInfoRequest =>
        var info := DecodeTrInfoResponse(replies[0]);
        r := if info.Success? then Success(TrInfoResponse(info.value)) else Failure(Codec(info.error));
      case DataSendRequest(_) =>
        var sent := DecodeDataSendResponse(replies[0]);
        r := if sent.Success? then Success(DataSendResponse) else Failure(Codec(sent.error));
      case DataReceiveRequest(_) =>
        r := Failure(Codec(SpiCodecError));
    }

    /** `_wait_until_readable(timeout)` and the receive exchange of `receive`. */
    method Fetch(timeout: Option<int>, polls: seq<Probe<byte>>, replies: seq<seq<byte>>)
      returns (r: Result<SpiMessage, SpiFailure>, pollsUsed: nat, repliesUsed: nat)
      modifies this
      ensures var f := FetchSpec(polls, replies, ToIoTime(timeout));
        r == f.outcome && pollsUsed == f.polls && repliesUsed == f.replies && reactions == old(reactions)
        && (f.readable.None? ==> transferred == old(transferred))
        && (f.readable.Some? ==>
              (|transferred| == |old(transferred)| + 1 && transferred[..|old(transferred)|] == old(transferred)
               && IsRequestFrame(transferred[|old(transferred)|], COMMAND_READ_WRITE, 0, Zeros(f.readable.value))))
    {
      var o := Wait(polls, DataReady, ToIoTime(timeout));
      if o.TimedOut? {
        return Failure(IoTimeoutError), o.probes, 0;
      } else if o.Exhausted? {
        return Failure(EndOfInput), o.probes, 0;
      }
      WaitSatisfied(polls, DataReady, ToIoTime(timeout));
      pollsUsed := o.probes;
      var count := Readable(o.result);
      var request := EncodeDataReceiveRequest(count);
      transferred := transferred + [request.value];
      if |replies| == 0 {
        return Failure(EndOfInput), pollsUsed, 0;
      }
      repliesUsed := 1;
      var reply := DecodeDataReceiveResponse(replies[0]);
      r := if reply.Success? then Success(DataReceivedReaction(reply.value)) else Failure(Codec(reply.error));
    }

    /** `receive(timeout)`: the oldest queued reaction, else a fresh one, not queued. */
    method Receive(timeout: Option<int>, polls: seq<Probe<byte>>, replies: seq<seq<byte>>)
      returns (r: Result<SpiMessage, SpiFailure>, pollsUsed: nat, repliesUsed: nat)
      modifies this
      ensures |old(reactions)| > 0 ==>
        r == Success(old(reactions)[0]) && reactions == old(reactions)[1..]
        && pollsUsed == 0 && repliesUsed == 0 && transferred == old(transferred)
      ensures old(reactions) == [] ==>
        var f := FetchSpec(polls, replies, ToIoTime(timeout));
        r == f.outcome && pollsUsed == f.polls && repliesUsed == f.replies && reactions == []
        && (f.readable.None? ==> transferred == old(transferred))
        && (f.readable.Some? ==>
              (|transferred| == |old(transferred)| + 1 && transferred[..|old(transferred)|] == old(transferred)
               && IsRequestFrame(transferred[|old(transferred)|], COMMAND_READ_WRITE, 0, Zeros(f.readable.value))))
    {
      if |reactions| > 0 {
        r := Success(reactions[0]);
        reactions := reactions[1..];
        return r, 0, 0;
      }
      r, pollsUsed, repliesUsed := Fetch(timeout, polls, replies);
    }
  }
}
