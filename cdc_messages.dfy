/**
 * The message classes of the two class-based CDC codecs
 * (src/iqrf/transport/cdc_codec.py:369-494 and iqrf/cdc/iqrf_codec.py:165-271)
 * and the encoder/decoder shape each class inherits: a message is turned
 * into a (parameter, value) pair of tokens and made again from one.
 *
 * The two modules declare the same classes with one difference: the
 * asynchronous data frame "DR" is the reaction `DataReceivedReaction` in the
 * transport codec and the response `DataReceivedResponse` in the other.
 * Both are kept here; each codec handles the classes it declares.
 * Info strings are kept as their ASCII bytes (`str.encode` and
 * `bytes.decode` are taken as the identity).
 */
module CdcMessages {
  import opened Bytes
  import opened Wrappers
  import opened CdcWire

  datatype CdcStatus = OK | BUSY | ERROR

  /** The errors the codecs raise. */
  datatype CdcError =
    | CodecError     // the base class; `tokenize_cdc_message` of iqrf_codec.py raises it
    | EncodeError
    | DecodeError
    | ValueError     // `bytes([n])` with n > 255
    | TypeError      // a class called with the wrong number of fields, or a join over None

  /** The message classes, as the values the registries map to identifiers. */
  datatype MessageType =
    | ErrorResponseType
    | TestRequestType | TestResponseType
    | ResetRequestType | ResetResponseType
    | TrResetRequestType | TrResetResponseType
    | InfoRequestType | InfoResponseType
    | TrInfoRequestType | TrInfoResponseType
    | IndicationRequestType | IndicationResponseType
    | SpiStatusRequestType | SpiStatusResponseType
    | DataSendRequestType | DataSendResponseType
    | DataReceivedReactionType | DataReceivedResponseType
    | SwitchToCustomClassRequestType | SwitchToCustomClassResponseType
    | SwitchToUartRequestType | SwitchToUartResponseType
    | SwitchToSpiRequestType | SwitchToSpiResponseType

  /** The abstract base a class derives from: `CdcRequest`, `CdcResponse` or `CdcReaction`. */
  datatype Category = Request | Response | Reaction

  /** The encoder/decoder pair a class inherits. */
  datatype Shape = NoneShape | StatusShape | InfoShape | TrInfoShape | SpiStatusShape | DataShape

  /** A message object: its class and the fields its constructor stores. */
  datatype Message =
    | ErrorResponse
    | TestRequest | TestResponse
    | ResetRequest | ResetResponse(status: CdcStatus)
    | TrResetRequest | TrResetResponse(status: CdcStatus)
    | InfoRequest | InfoResponse(infoType: seq<byte>, version: seq<byte>, id: seq<byte>)
    | TrInfoRequest | TrInfoResponse(info: seq<byte>)
    | IndicationRequest | IndicationResponse(status: CdcStatus)
    | SpiStatusRequest | SpiStatusResponse(spiStatus: seq<byte>)
    | DataSendRequest(data: seq<byte>) | DataSendResponse(status: CdcStatus)
    | DataReceivedReaction(data: seq<byte>)
    | DataReceivedResponse(data: seq<byte>)
    | SwitchToCustomClassRequest | SwitchToCustomClassResponse(status: CdcStatus)
    | SwitchToUartRequest | SwitchToUartResponse(status: CdcStatus)
    | SwitchToSpiRequest | SwitchToSpiResponse(status: CdcStatus)

  /** `type(message)`. */
  function TypeOf(m: Message): MessageType {
    match m
    case ErrorResponse => ErrorResponseType
    case TestRequest => TestRequestType
    case TestResponse => TestResponseType
    case ResetRequest => ResetRequestType
    case ResetResponse(_) => ResetResponseType
    case TrResetRequest => TrResetRequestType
    case TrResetResponse(_) => TrResetResponseType
    case InfoRequest => InfoRequestType
    case InfoResponse(_, _, _) => InfoResponseType
    case TrInfoRequest => TrInfoRequestType
    case TrInfoResponse(_) => TrInfoResponseType
    case IndicationRequest => IndicationRequestType
    case IndicationResponse(_) => IndicationResponseType
    case SpiStatusRequest => SpiStatusRequestType
    case SpiStatusResponse(_) => SpiStatusResponseType
    case DataSendRequest(_) => DataSendRequestType
    case DataSendResponse(_) => DataSendResponseType
    case DataReceivedReaction(_) => DataReceivedReactionType
    case DataReceivedResponse(_) => DataReceivedResponseType
    case SwitchToCustomClassRequest => SwitchToCustomClassRequestType
    case SwitchToCustomClassResponse(_) => SwitchToCustomClassResponseType
    case SwitchToUartRequest => SwitchToUartRequestType
    case SwitchToUartResponse(_) => SwitchToUartResponseType
    case SwitchToSpiRequest => SwitchToSpiRequestType
    case SwitchToSpiResponse(_) => SwitchToSpiResponseType
  }

  function CategoryOf(t: MessageType): Category {
    match t
    case TestRequestType | ResetRequestType | TrResetRequestType | InfoRequestType | TrInfoRequestType
      | IndicationRequestType | SpiStatusRequestType | DataSendRequestType
      | SwitchToCustomClassRequestType | SwitchToUartRequestType | SwitchToSpiRequestType => Request
    case DataReceivedReactionType => Reaction
    case _ => Response
  }

  function ShapeOf(t: MessageType): Shape {
    match t
    case ErrorResponseType | TestResponseType => NoneShape
    case ResetResponseType | TrResetResponseType | IndicationResponseType | DataSendResponseType
      | SwitchToCustomClassResponseType | SwitchToUartResponseType | SwitchToSpiResponseType => StatusShape
    case InfoResponseType => InfoShape
    case TrInfoResponseType => TrInfoShape
    case SpiStatusResponseType => SpiStatusShape
    case DataSendRequestType | DataReceivedReactionType | DataReceivedResponseType => DataShape
    case _ => NoneShape
  }

  /** The class with no fields of a `NoneShape` type. */
  function Bare(t: MessageType): (m: Message)
    requires ShapeOf(t) == NoneShape
    ensures TypeOf(m) == t
  {
    match t
    case ErrorResponseType => ErrorResponse
    case TestRequestType => TestRequest
    case TestResponseType => TestResponse
    case ResetRequestType => ResetRequest
    case TrResetRequestType => TrResetRequest
    case InfoRequestType => InfoRequest
    case TrInfoRequestType => TrInfoRequest
    case IndicationRequestType => IndicationRequest
    case SpiStatusRequestType => SpiStatusRequest
    case SwitchToCustomClassRequestType => SwitchToCustomClassRequest
    case SwitchToUartRequestType => SwitchToUartRequest
    case SwitchToSpiRequestType => SwitchToSpiRequest
  }

  /** `cls(status)` for a `StatusShape` type. */
  function WithStatus(t: MessageType, s: CdcStatus): (m: Message)
    requires ShapeOf(t) == StatusShape
    ensures TypeOf(m) == t && m.status == s
  {
    match t
    case ResetResponseType => ResetResponse(s)
    case TrResetResponseType => TrResetResponse(s)
    case IndicationResponseType => IndicationResponse(s)
    case DataSendResponseType => DataSendResponse(s)
    case SwitchToCustomClassResponseType => SwitchToCustomClassResponse(s)
    case SwitchToUartResponseType => SwitchToUartResponse(s)
    case SwitchToSpiResponseType => SwitchToSpiResponse(s)
  }

  /** `cls(data)` for a `DataShape` type. */
  function WithData(t: MessageType, d: seq<byte>): (m: Message)
    requires ShapeOf(t) == DataShape
    ensures TypeOf(m) == t && m.data == d
  {
    match t
    case DataSendRequestType => DataSendRequest(d)
    case DataReceivedReactionType => DataReceivedReaction(d)
    case DataReceivedResponseType => DataReceivedResponse(d)
  }

  /** The identifier both codecs register a class under. */
  function Identifier(t: MessageType): seq<byte> {
    match t
    case ErrorResponseType => [0x45, 0x52, 0x52]                                  // "ERR"
    case TestRequestType => []                                                    // ""
    case TestResponseType => [0x4F, 0x4B]                                         // "OK"
    case ResetRequestType | ResetResponseType => [0x52]                           // "R"
    case TrResetRequestType | TrResetResponseType => [0x52, 0x54]                 // "RT"
    case InfoRequestType | InfoResponseType => [0x49]                             // "I"
    case TrInfoRequestType | TrInfoResponseType => [0x49, 0x54]                   // "IT"
    case IndicationRequestType | IndicationResponseType => [0x42]                 // "B"
    case SpiStatusRequestType | SpiStatusResponseType => [0x53]                   // "S"
    case DataSendRequestType | DataSendResponseType => [0x44, 0x53]               // "DS"
    case DataReceivedReactionType | DataReceivedResponseType => [0x44, 0x52]      // "DR"
    case SwitchToCustomClassRequestType | SwitchToCustomClassResponseType => [0x55]          // "U"
    case SwitchToUartRequestType | SwitchToUartResponseType => [0x55, 0x55]       // "UU"
    case SwitchToSpiRequestType | SwitchToSpiResponseType => [0x55, 0x53]         // "US"
  }

  /** Every identifier is one the frame pattern reads back: up to three capitals. */
  lemma IdentifiersValid(t: MessageType)
    ensures ValidIdentifier(Identifier(t))
  {
  }

  /** Within one category no two classes share an identifier. */
  lemma IdentifierInjective(t: MessageType, u: MessageType)
    requires CategoryOf(t) == CategoryOf(u) && Identifier(t) == Identifier(u)
    ensures t == u
  {
  }

  /** A message is rebuilt from its class and fields by the constructor of its shape. */
  lemma BareOf(m: Message)
    requires ShapeOf(TypeOf(m)) == NoneShape
    ensures Bare(TypeOf(m)) == m
  {
  }

  lemma WithStatusOf(m: Message)
    requires ShapeOf(TypeOf(m)) == StatusShape
    ensures WithStatus(TypeOf(m), m.status) == m
  {
  }

  lemma WithDataOf(m: Message)
    requires ShapeOf(TypeOf(m)) == DataShape
    ensures WithData(TypeOf(m), m.data) == m
  {
  }

  /** `StatusEncoder.tokenize`'s value. */
  function StatusToken(s: CdcStatus): seq<byte> {
    match s
    case OK => OK_TOKEN
    case BUSY => BUSY_TOKEN
    case ERROR => ERROR_TOKEN
  }

  /** `StatusDecoder.decode`'s comparison chain; None where it raises "Illegal status token!". */
  function StatusOfToken(v: seq<byte>): Option<CdcStatus> {
    if v == OK_TOKEN then Some(OK)
    else if v == BUSY_TOKEN then Some(BUSY)
    else if v == ERROR_TOKEN then Some(ERROR)
    else None
  }

  /** The status mapping is a bijection between the three statuses and the three tokens. */
  lemma StatusTokenBijection(s: CdcStatus, v: seq<byte>)
    ensures StatusOfToken(v) == Some(s) <==> v == StatusToken(s)
  {
  }

  /**
   * `tokenize()` of each shape: nothing for `NoneShape`; the status token;
   * the three info fields joined by '#'; the raw TR info or SPI status; and
   * for data the single length byte as parameter, which `bytes([n])`
   * refuses with ValueError beyond 255.
   */
  function Tokenize(m: Message): (r: Result<Tokens, CdcError>)
    ensures r.Failure? <==> ShapeOf(TypeOf(m)) == DataShape && |m.data| > 255
    ensures r.Failure? ==> r.error == ValueError
    ensures r.Success? && r.value.value.None? ==> ShapeOf(TypeOf(m)) == NoneShape
  {
    match ShapeOf(TypeOf(m))
    case NoneShape => Success(Tokens(None, None))
    case StatusShape => Success(Tokens(None, Some(StatusToken(m.status))))
    case InfoShape => Success(Tokens(None, Some(JoinInfo(m.infoType, m.version, m.id))))
    case TrInfoShape => Success(Tokens(None, Some(m.info)))
    case SpiStatusShape => Success(Tokens(None, Some(m.spiStatus)))
    case DataShape =>
      if |m.data| > 255 then Failure(ValueError)
      else Success(Tokens(Some([|m.data| as byte]), Some(m.data)))
  }

  /**
   * `type.decode(parameter, value)` for each shape.  The info decoder calls
   * the class with however many fields the value splits into, so anything
   * but exactly three is a TypeError.  The data decoder never compares the
   * parameter with the length of the value.
   */
  function DecodeAs(t: MessageType, tokens: Tokens): (r: Result<Message, CdcError>)
    ensures r.Success? ==> TypeOf(r.value) == t
  {
    var p := tokens.parameter;
    var v := tokens.value;
    match ShapeOf(t)
    case NoneShape =>
      if p.Some? || v.Some? then Failure(DecodeError) else Success(Bare(t))
    case StatusShape =>
      if p.Some? || v.None? then Failure(DecodeError)
      else if StatusOfToken(v.value).None? then Failure(DecodeError)
      else Success(WithStatus(t, StatusOfToken(v.value).value))
    case InfoShape =>
      if p.Some? || v.None? then Failure(DecodeError)
      else
        var fields := Split(v.value, HASH);
        if |fields| != 3 then Failure(TypeError)
        else Success(InfoResponse(fields[0], fields[1], fields[2]))
    case TrInfoShape =>
      if p.Some? || v.None? then Failure(DecodeError) else Success(TrInfoResponse(v.value))
    case SpiStatusShape =>
      if p.Some? || v.None? then Failure(DecodeError) else Success(SpiStatusResponse(v.value))
    case DataShape =>
      if p.None? || v.None? then Failure(DecodeError) else Success(WithData(t, v.value))
  }

  /** The decoders of the shapes without data accept exactly the tokens their encoder produces. */
  lemma DecodeAsNoneShape(t: MessageType, tokens: Tokens)
    requires ShapeOf(t) == NoneShape
    ensures DecodeAs(t, tokens).Success? <==> tokens == Tokens(None, None)
  {
  }

  lemma DecodeAsStatusShape(t: MessageType, tokens: Tokens)
    requires ShapeOf(t) == StatusShape
    ensures DecodeAs(t, tokens).Success? <==>
      tokens.parameter.None? && tokens.value.Some? && tokens.value.value in {OK_TOKEN, BUSY_TOKEN, ERROR_TOKEN}
  {
  }

  /** The info decoder succeeds exactly when the value holds two '#'. */
  lemma DecodeAsInfoShape(tokens: Tokens)
    ensures DecodeAs(InfoResponseType, tokens).Success? <==>
      tokens.parameter.None? && tokens.value.Some? && Count(tokens.value.value, HASH) == 2
  {
    assert ShapeOf(InfoResponseType) == InfoShape;
    if tokens.parameter.None? && tokens.value.Some? {
      var v := tokens.value.value;
      assert DecodeAs(InfoResponseType, tokens).Success? <==> |Split(v, HASH)| == 3;
      SplitCount(v, HASH);
    }
  }

  /** The data decoder takes the value as the data whatever the parameter says. */
  lemma DecodeAsDataShape(t: MessageType, parameter: seq<byte>, value: seq<byte>)
    requires ShapeOf(t) == DataShape
    ensures DecodeAs(t, Tokens(Some(parameter), Some(value))) == Success(WithData(t, value))
    ensures DecodeAs(t, Tokens(None, Some(value))).Failure?
  {
  }

  /** Info fields that `split(b"#")` gives back unchanged. */
  predicate InfoSplittable(m: Message) {
    m.InfoResponse? ==> HASH !in m.infoType && HASH !in m.version && HASH !in m.id
  }

  /** Decoding the tokens of a message gives the message back. */
  lemma DecodeTokenize(m: Message)
    requires Tokenize(m).Success? && InfoSplittable(m)
    ensures DecodeAs(TypeOf(m), Tokenize(m).value) == Success(m)
  {
    var t := TypeOf(m);
    match ShapeOf(t)
    case NoneShape => BareOf(m);
    case StatusShape => WithStatusOf(m);
    case InfoShape => SplitJoinInfo(m.infoType, m.version, m.id);
    case TrInfoShape =>
    case SpiStatusShape =>
    case DataShape => WithDataOf(m);
  }

  /** Tokens whose parameter, if any, is the length byte of the value, as `DataEncoder` writes it. */
  predicate LengthAgrees(tokens: Tokens) {
    tokens.parameter.Some? && tokens.value.Some? ==>
      |tokens.value.value| <= 255 && tokens.parameter == Some([|tokens.value.value| as byte])
  }

  /** Tokenizing a decoded message gives the tokens back, when a data parameter holds the length. */
  lemma TokenizeDecode(t: MessageType, tokens: Tokens)
    requires DecodeAs(t, tokens).Success? && LengthAgrees(tokens)
    ensures Tokenize(DecodeAs(t, tokens).value) == Success(tokens)
  {
    var m := DecodeAs(t, tokens).value;
    if ShapeOf(t) == InfoShape {
      var v := tokens.value.value;
      var fields := Split(v, HASH);
      assert Join(fields, HASH) == v;
      assert fields[1..][1..] == [fields[2]];
      JoinInfoIsJoin(fields[0], fields[1], fields[2]);
      assert [fields[0], fields[1], fields[2]] == fields;
    } else if ShapeOf(t) == StatusShape {
      StatusTokenBijection(m.status, tokens.value.value);
    }
  }

  /** Without that condition the parameter of a data frame is lost. */
  lemma TokenizeDecodeNeedsLength()
    ensures
      var tokens := Tokens(Some([0x05]), Some([0x61, 0x62]));
      DecodeAs(DataSendRequestType, tokens) == Success(DataSendRequest([0x61, 0x62]))
      && Tokenize(DataSendRequest([0x61, 0x62])) == Success(Tokens(Some([0x02]), Some([0x61, 0x62])))
  {
  }

  /**
   * A message the frame can carry intact: the tokenizer succeeds, the info
   * fields hold neither '#' nor '\n', raw values hold no '\n', and a data
   * length byte is neither '\n', ':' nor a capital that the identifier
   * would absorb.
   */
  predicate Transmissible(m: Message) {
    match m
    case InfoResponse(a, b, c) =>
      HASH !in a && HASH !in b && HASH !in c && LF !in a && LF !in b && LF !in c
    case TrInfoResponse(info) => LF !in info
    case SpiStatusResponse(s) => LF !in s
    case DataSendRequest(d) => DataTransmissible(d)
    case DataReceivedReaction(d) => DataTransmissible(d)
    case DataReceivedResponse(d) => DataTransmissible(d)
    case _ => true
  }

  predicate DataTransmissible(d: seq<byte>) {
    |d| <= 255 && LF !in d
    && var n := |d| as byte; n != LF && n != SEPARATOR && !IsUpper(n)
  }

  /** A transmissible message tokenizes into tokens the frame reads back behind any identifier. */
  lemma TransmissibleReadable(m: Message, identifier: seq<byte>)
    requires Transmissible(m)
    ensures Tokenize(m).Success? && InfoSplittable(m)
    ensures Readable(identifier, Tokenize(m).value)
  {
    match ShapeOf(TypeOf(m))
    case NoneShape =>
    case StatusShape => assert LF !in StatusToken(m.status);
    case InfoShape => JoinInfoFree(m.infoType, m.version, m.id, LF);
    case TrInfoShape =>
    case SpiStatusShape =>
    case DataShape =>
      var n := |m.data| as byte;
      assert [n][0] == n;
  }

  /**
   * Encoding a transmissible message behind a valid identifier, then
   * matching the frame and decoding its tokens as the same class, gives the
   * message back.
   */
  lemma FrameRoundTrip(direction: byte, identifier: seq<byte>, m: Message)
    requires direction == REQUEST || direction == RESPONSE
    requires ValidIdentifier(identifier) && Transmissible(m)
    ensures Tokenize(m).Success?
    ensures
      var tokens := Tokenize(m).value;
      MatchFrame(Assemble(direction, identifier, tokens)) == Some(Match(direction, identifier, BodyOf(tokens)))
      && DecodeAs(TypeOf(m), TokenizeBody(BodyOf(tokens))) == Success(m)
  {
    TransmissibleReadable(m, identifier);
    MatchAssemble(direction, identifier, Tokenize(m).value);
    DecodeTokenize(m);
  }

  /**
   * The other way round: a frame ending in a single '\r' whose body is empty
   * or holds a ':', decoded as some class with a data length that agrees,
   * is exactly the encoding of what it decodes to.
   */
  lemma FrameReassembles(b: seq<byte>, t: MessageType)
    requires MatchFrame(b).Some? && b[|b| - 1] == TERMINATOR
    requires var body := MatchFrame(b).value.body; body == [] || SEPARATOR in body
    requires
      var tokens := TokenizeBody(MatchFrame(b).value.body);
      DecodeAs(t, tokens).Success? && LengthAgrees(tokens)
    ensures
      var f := MatchFrame(b).value;
      var tokens := TokenizeBody(f.body);
      Tokenize(DecodeAs(t, tokens).value) == Success(tokens)
      && Assemble(f.direction, f.identifier, tokens) == b
  {
    var f := MatchFrame(b).value;
    TokenizeDecode(t, TokenizeBody(f.body));
    AssembleMatch(b);
  }
}
