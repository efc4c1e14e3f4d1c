/**
 * The CDC codec of src/iqrf/transport/cdc_codec.py: three registries
 * (requests, responses and reactions) filled at import, `CdcEncoder.encode`
 * and `decode_cdc_message`.
 *
 * The codec reads the registries as they stand after the module's
 * registrations (lines 497-532), listed in order by `REGISTRATIONS`;
 * `RegisterAll` performs them on empty registries and ends with exactly
 * these tables.  The module declares every message class except
 * `DataReceivedResponse`, which belongs to iqrf/cdc/iqrf_codec.py.
 */
module TransportCdcCodec {
  import opened Bytes
  import opened Wrappers
  import opened CdcWire
  import opened CdcMessages
  import opened CdcRegistry

  /** A class this module declares. */
  predicate Declared(t: MessageType) {
    t != DataReceivedResponseType
  }

  /** The classes registered at import, in the order of the module's `register_cdc_*` calls. */
  const REGISTRATIONS: seq<MessageType> := [
    ErrorResponseType,
    TestRequestType, TestResponseType,
    ResetRequestType, ResetResponseType,
    TrResetRequestType, TrResetResponseType,
    InfoRequestType, InfoResponseType,
    TrInfoRequestType, TrInfoResponseType,
    IndicationRequestType, IndicationResponseType,
    SpiStatusRequestType, SpiStatusResponseType,
    DataSendRequestType, DataSendResponseType,
    DataReceivedReactionType,
    SwitchToCustomClassRequestType, SwitchToCustomClassResponseType,
    SwitchToUartRequestType, SwitchToUartResponseType,
    SwitchToSpiRequestType, SwitchToSpiResponseType]

  /** REQUESTS, RESPONSES and REACTIONS after the registrations, in registration order. */
  const REQUESTS: Entries := Registrations(REGISTRATIONS, Request)
  const RESPONSES: Entries := Registrations(REGISTRATIONS, Response)
  const REACTIONS: Entries := Registrations(REGISTRATIONS, Reaction)

  function TableOf(c: Category): Entries {
    match c
    case Request => REQUESTS
    case Response => RESPONSES
    case Reaction => REACTIONS
  }

  /** The place of a class in `REGISTRATIONS` (past its end for the one class not registered). */
  function Position(t: MessageType): nat {
    match t
    case ErrorResponseType => 0
    case TestRequestType => 1
    case TestResponseType => 2
    case ResetRequestType => 3
    case ResetResponseType => 4
    case TrResetRequestType => 5
    case TrResetResponseType => 6
    case InfoRequestType => 7
    case InfoResponseType => 8
    case TrInfoRequestType => 9
    case TrInfoResponseType => 10
    case IndicationRequestType => 11
    case IndicationResponseType => 12
    case SpiStatusRequestType => 13
    case SpiStatusResponseType => 14
    case DataSendRequestType => 15
    case DataSendResponseType => 16
    case DataReceivedReactionType => 17
    case SwitchToCustomClassRequestType => 18
    case SwitchToCustomClassResponseType => 19
    case SwitchToUartRequestType => 20
    case SwitchToUartResponseType => 21
    case SwitchToSpiRequestType => 22
    case SwitchToSpiResponseType => 23
    case DataReceivedResponseType => 24
  }

  lemma PositionOf(i: nat)
    requires i < |REGISTRATIONS|
    ensures Position(REGISTRATIONS[i]) == i
  {
    if i < 12 {
      assert i in {0, 1, 2, 3, 4, 5, 6, 7, 8, 9, 10, 11};
    } else {
      assert i in {12, 13, 14, 15, 16, 17, 18, 19, 20, 21, 22, 23};
    }
  }

  /** The registered classes are exactly the declared ones. */
  lemma RegisteredIffDeclared(t: MessageType)
    ensures t in REGISTRATIONS <==> Declared(t)
  {
    if t in REGISTRATIONS {
      var j :| 0 <= j < |REGISTRATIONS| && REGISTRATIONS[j] == t;
      PositionOf(j);
    }
  }

  /** No class is registered twice, so none of the registrations raises "Duplicate". */
  lemma NotRegisteredBefore(i: nat)
    requires i < |REGISTRATIONS|
    ensures REGISTRATIONS[i] !in REGISTRATIONS[..i]
  {
    if REGISTRATIONS[i] in REGISTRATIONS[..i] {
      var j :| 0 <= j < i && REGISTRATIONS[j] == REGISTRATIONS[i];
      PositionOf(i);
      PositionOf(j);
    }
  }

  /** The identifier `get_cdc_*_id` gives for a class of the category it is looked up in. */
  lemma IdForTable(t: MessageType)
    ensures IdFor(TableOf(CategoryOf(t)), t) == if Declared(t) then Some(Identifier(t)) else None
  {
    RegisteredIffDeclared(t);
    IdForRegistrations(REGISTRATIONS, CategoryOf(t), t);
  }

  /** `get_cdc_*_type` finds a declared class of the category, under its identifier. */
  lemma TypeForTable(c: Category, id: seq<byte>)
    requires TypeFor(TableOf(c), id).Some?
    ensures var t := TypeFor(TableOf(c), id).value;
      Declared(t) && CategoryOf(t) == c && Identifier(t) == id
  {
    TypeForRegistrations(REGISTRATIONS, c, id);
    RegisteredIffDeclared(TypeFor(TableOf(c), id).value);
  }

  /** ... and it finds every declared class by its identifier. */
  lemma TypeForTableOf(t: MessageType)
    requires Declared(t)
    ensures TypeFor(TableOf(CategoryOf(t)), Identifier(t)) == Some(t)
  {
    RegisteredIffDeclared(t);
    forall u | u in REGISTRATIONS && CategoryOf(u) == CategoryOf(t) && Identifier(u) == Identifier(t)
      ensures u == t
    {
      IdentifierInjective(u, t);
    }
    TypeForRegistrationsUnique(REGISTRATIONS, CategoryOf(t), t);
  }

  /** For the tables built at import, `get_cdc_*_id` and `get_cdc_*_type` are inverse to each other. */
  lemma LookUpsInverse(c: Category, t: MessageType, id: seq<byte>)
    ensures IdFor(TableOf(c), t) == Some(id) <==> TypeFor(TableOf(c), id) == Some(t)
  {
    RegisteredIffDeclared(t);
    IdForRegistrations(REGISTRATIONS, c, t);
    if IdFor(TableOf(c), t) == Some(id) {
      TypeForTableOf(t);
    }
    if TypeFor(TableOf(c), id) == Some(t) {
      TypeForTable(c, id);
    }
  }

  /**
   * The module's registrations, in source order, on three empty
   * registries: each class goes to the registry of its category, and every
   * registration succeeds.
   */
  method RegisterAll() returns (requests: Registry, responses: Registry, reactions: Registry)
    ensures fresh(requests) && fresh(responses) && fresh(reactions)
    ensures requests.Valid() && responses.Valid() && reactions.Valid()
    ensures requests.entries == REQUESTS && responses.entries == RESPONSES && reactions.entries == REACTIONS
  {
    requests := new Registry(Request);
    responses := new Registry(Response);
    reactions := new Registry(Reaction);
    for i := 0 to |REGISTRATIONS|
      invariant requests.category == Request && responses.category == Response && reactions.category == Reaction
      invariant requests.Valid() && responses.Valid() && reactions.Valid()
      invariant requests.entries == Registrations(REGISTRATIONS[..i], Request)
      invariant responses.entries == Registrations(REGISTRATIONS[..i], Response)
      invariant reactions.entries == Registrations(REGISTRATIONS[..i], Reaction)
    {
      var t := REGISTRATIONS[i];
      var c := CategoryOf(t);
      RegistrationsStep(REGISTRATIONS, i, Request);
      RegistrationsStep(REGISTRATIONS, i, Response);
      RegistrationsStep(REGISTRATIONS, i, Reaction);
      NotRegisteredBefore(i);
      IdForRegistrations(REGISTRATIONS[..i], c, t);
      var r: Result<(), RegisterError>;
      match c
      case Request => r := requests.Register(t, Identifier(t));
      case Response => r := responses.Register(t, Identifier(t));
      case Reaction => r := reactions.Register(t, Identifier(t));
      assert r.Success?;
    }
    assert REGISTRATIONS[..|REGISTRATIONS|] == REGISTRATIONS;
  }

  /** The direction byte of a class's frames: '>' for a request, '<' for a response or reaction. */
  function DirectionOf(c: Category): byte {
    if c == Request then REQUEST else RESPONSE
  }

  /**
   * `CdcEncoder.encode`: tokenize (which may raise ValueError), pick the
   * direction of the class's base class ('>' for a request, '<' otherwise)
   * and the identifier from its registry, "Unknown CDC message type!" when
   * it has none, and join the frame.
   */
  function Encode(m: Message): (r: Result<seq<byte>, CdcError>)
    ensures r.Success? ==> |r.value| >= 2 && r.value[|r.value| - 1] == TERMINATOR
    ensures r.Success? ==> (r.value[0] == REQUEST <==> CategoryOf(TypeOf(m)) == Request)
    ensures r.Success? ==> (r.value[0] == RESPONSE <==> CategoryOf(TypeOf(m)) != Request)
  {
    var tokens :- Tokenize(m);
    var t := TypeOf(m);
    var direction := DirectionOf(CategoryOf(t));
    match IdFor(TableOf(CategoryOf(t)), t)
    case None => Failure(EncodeError)
    case Some(identifier) => Success(Assemble(direction, identifier, tokens))
  }

  /** `encode` fails exactly for an over-long data field (ValueError) and for the class this module does not register. */
  lemma EncodeFailure(m: Message)
    ensures Encode(m).Failure? <==> Tokenize(m).Failure? || !Declared(TypeOf(m))
    ensures Tokenize(m).Failure? ==> Encode(m) == Failure(ValueError)
    ensures Tokenize(m).Success? && !Declared(TypeOf(m)) ==> Encode(m) == Failure(EncodeError)
  {
    IdForTable(TypeOf(m));
  }

  /** The class `decode_cdc_message` reads a frame as: requests for '>', responses then reactions for '<'. */
  function LookUp(direction: byte, identifier: seq<byte>): Option<MessageType> {
    if direction == REQUEST then TypeFor(REQUESTS, identifier)
    else
      match TypeFor(RESPONSES, identifier)
      case Some(t) => Some(t)
      case None => TypeFor(REACTIONS, identifier)
  }

  /** The class looked up is declared, carries the identifier, and is a request exactly for '>'. */
  lemma LookUpFinds(direction: byte, identifier: seq<byte>)
    requires direction == REQUEST || direction == RESPONSE
    requires LookUp(direction, identifier).Some?
    ensures var t := LookUp(direction, identifier).value;
      Declared(t) && Identifier(t) == identifier && (CategoryOf(t) == Request <==> direction == REQUEST)
  {
    if direction == REQUEST {
      TypeForTable(Request, identifier);
    } else if TypeFor(RESPONSES, identifier).Some? {
      TypeForTable(Response, identifier);
    } else {
      TypeForTable(Reaction, identifier);
    }
  }

  /**
   * `decode_cdc_message`: match the frame (DecodeError when the pattern
   * fails), look the class up ("Unknown message!" when there is none) and
   * let the class decode the tokens.
   */
  function Decode(b: seq<byte>): (r: Result<Message, CdcError>)
    ensures r.Success? ==> MatchFrame(b).Some?
  {
    match MatchFrame(b)
    case None => Failure(DecodeError)
    case Some(f) =>
      match LookUp(f.direction, f.identifier)
      case None => Failure(DecodeError)
      case Some(t) => DecodeAs(t, TokenizeBody(f.body))
  }

  /** A decoded message is of a declared class, and a request exactly when the frame starts with '>'. */
  lemma DecodeDeclared(b: seq<byte>)
    requires Decode(b).Success?
    ensures Declared(TypeOf(Decode(b).value))
    ensures CategoryOf(TypeOf(Decode(b).value)) == Request <==> b[0] == REQUEST
  {
    var f := MatchFrame(b).value;
    LookUpFinds(f.direction, f.identifier);
  }

  /** A declared class's messages are framed behind its own identifier. */
  lemma EncodeDeclared(m: Message)
    requires Declared(TypeOf(m)) && Tokenize(m).Success?
    ensures Encode(m) == Success(Assemble(DirectionOf(CategoryOf(TypeOf(m))), Identifier(TypeOf(m)), Tokenize(m).value))
  {
    IdForTable(TypeOf(m));
  }

  /** The frame of a declared class is read back as that class. */
  lemma LookUpDeclared(t: MessageType)
    requires Declared(t)
    ensures LookUp(DirectionOf(CategoryOf(t)), Identifier(t)) == Some(t)
  {
    TypeForTableOf(t);
    if CategoryOf(t) == Reaction && TypeFor(RESPONSES, Identifier(t)).Some? {
      TypeForTable(Response, Identifier(t));
      IdentifierInjective(TypeFor(RESPONSES, Identifier(t)).value, DataReceivedResponseType);
    }
  }

  /** Decoding the encoding of a message the frame can carry gives the message back. */
  lemma DecodeEncode(m: Message)
    requires Declared(TypeOf(m)) && Transmissible(m)
    ensures Encode(m).Success? && Decode(Encode(m).value) == Success(m)
  {
    var t := TypeOf(m);
    IdentifiersValid(t);
    FrameRoundTrip(DirectionOf(CategoryOf(t)), Identifier(t), m);
    EncodeDeclared(m);
    LookUpDeclared(t);
  }

  /**
   * A frame that decodes, ends in a single '\r', has an empty body or one
   * with a ':', and whose data parameter is the length byte of the value.
   */
  predicate Canonical(b: seq<byte>) {
    MatchFrame(b).Some? && b[|b| - 1] == TERMINATOR
    && (var f := MatchFrame(b).value;
        (f.body == [] || SEPARATOR in f.body) && LengthAgrees(TokenizeBody(f.body)))
  }

  /** Encoding what a canonical frame decodes to gives the frame back. */
  lemma EncodeDecode(b: seq<byte>)
    requires Decode(b).Success? && Canonical(b)
    ensures Encode(Decode(b).value) == Success(b)
  {
    var f := MatchFrame(b).value;
    var t := LookUp(f.direction, f.identifier).value;
    LookUpFinds(f.direction, f.identifier);
    FrameReassembles(b, t);
    IdForTable(t);
  }

  /** "DS" is the data-send request's identifier, the frame `decode_cdc_message` looks it up by. */
  lemma LookUpDataSend()
    ensures LookUp(REQUEST, [0x44, 0x53]) == Some(DataSendRequestType)
  {
    LookUpDeclared(DataSendRequestType);
  }

  /** A data-send request is framed as ">DS", its length byte, ':' and its data. */
  lemma EncodeDataSend(d: seq<byte>)
    requires |d| <= 255
    ensures Encode(DataSendRequest(d)) == Success([REQUEST, 0x44, 0x53, |d| as byte, SEPARATOR] + d + [TERMINATOR])
  {
    var m := DataSendRequest(d);
    var n := |d| as byte;
    var t := Tokens(Some([n]), Some(d));
    assert Tokenize(m) == Success(t);
    EncodeDeclared(m);
    assert BodyOf(t) == [n] + [SEPARATOR] + d;
    assert [REQUEST] + [0x44, 0x53] + ([n] + [SEPARATOR] + d) + [TERMINATOR]
        == [REQUEST, 0x44, 0x53, n, SEPARATOR] + d + [TERMINATOR];
  }

  /** `decode_cdc_message` of a frame that matches and whose class is found. */
  lemma DecodeFrame(b: seq<byte>, f: Match, t: MessageType)
    requires MatchFrame(b) == Some(f) && LookUp(f.direction, f.identifier) == Some(t)
    ensures Decode(b) == DecodeAs(t, TokenizeBody(f.body))
  {
  }

  /** A ">DS" frame is decoded as a data-send request from its body's tokens. */
  lemma DecodeDataSend(body: seq<byte>)
    requires LF !in body && (|body| > 0 ==> !IsUpper(body[0]))
    ensures Decode([REQUEST, 0x44, 0x53] + body + [TERMINATOR]) == DecodeAs(DataSendRequestType, TokenizeBody(body))
  {
    var b := [REQUEST, 0x44, 0x53] + body + [TERMINATOR];
    assert b == [REQUEST] + [0x44, 0x53] + body + [TERMINATOR];
    MatchFrameOf(REQUEST, [0x44, 0x53], body);
    LookUpDataSend();
    DecodeFrame(b, Match(REQUEST, [0x44, 0x53], body), DataSendRequestType);
  }

  /** A frame the pattern refuses is a DecodeError. */
  lemma DecodeUnmatched(b: seq<byte>)
    requires MatchFrame(b).None?
    ensures Decode(b) == Failure(DecodeError)
  {
  }

  /**
   * Without a ':' the body's last byte is cut off into the parameter while
   * the value keeps the whole body: such a ">DS" frame decodes, but its
   * message is encoded with a length byte and ':' in front of the data, so
   * not as the frame it came from.
   */
  lemma EncodeDecodeNeedsSeparator(body: seq<byte>)
    requires 0 < |body| <= 255 && SEPARATOR !in body && LF !in body && !IsUpper(body[0])
    ensures var b := [REQUEST, 0x44, 0x53] + body + [TERMINATOR];
      Decode(b) == Success(DataSendRequest(body))
      && Encode(DataSendRequest(body)).Success? && Encode(DataSendRequest(body)) != Success(b)
  {
    TokenizeBodyWithoutSeparator(body);
    DecodeAsDataShape(DataSendRequestType, body[..|body| - 1], body);
    EncodeDataSend(body);
    DecodeDataSend(body);
  }

  /**
   * The length byte is never checked: whatever single byte stands before
   * the ':', the frame decodes to the data after it, and a wrong length
   * byte is not what that message is encoded with.
   */
  lemma EncodeDecodeNeedsLength(p: byte, d: seq<byte>)
    requires p != SEPARATOR && p != LF && !IsUpper(p) && LF !in d && |d| <= 255 && p != |d| as byte
    ensures var b := [REQUEST, 0x44, 0x53, p, SEPARATOR] + d + [TERMINATOR];
      Decode(b) == Success(DataSendRequest(d))
      && Encode(DataSendRequest(d)).Success? && Encode(DataSendRequest(d)) != Success(b)
  {
    var tokens := Tokens(Some([p]), Some(d));
    var body := [p, SEPARATOR] + d;
    assert BodyOf(tokens) == body;
    assert [REQUEST, 0x44, 0x53, p, SEPARATOR] + d + [TERMINATOR] == [REQUEST, 0x44, 0x53] + body + [TERMINATOR];
    assert ([REQUEST, 0x44, 0x53, |d| as byte, SEPARATOR] + d + [TERMINATOR])[3] == |d| as byte;
    TokenizeBodyOf([0x44, 0x53], tokens);
    DecodeAsDataShape(DataSendRequestType, [p], d);
    EncodeDataSend(d);
    DecodeDataSend(body);
  }

  lemma TenBytesLengthByte(d: seq<byte>)
    requires |d| == 10
    ensures |d| as byte == LF
  {
  }

  /**
   * Data of ten bytes gets the length byte '\n', which the frame pattern's
   * `.` does not match: such a message is encoded, but its frame does not
   * decode.
   */
  lemma TenBytesUndecodable(d: seq<byte>)
    requires |d| == 10
    ensures Encode(DataSendRequest(d)).Success? && Decode(Encode(DataSendRequest(d)).value).Failure?
  {
    var b := [REQUEST, 0x44, 0x53, LF, SEPARATOR] + d + [TERMINATOR];
    var body := [LF, SEPARATOR] + d;
    assert b == [REQUEST] + [0x44, 0x53] + body + [TERMINATOR];
    assert body[0] == LF;
    MatchFrameOf(REQUEST, [0x44, 0x53], body);
    DecodeUnmatched(b);
    TenBytesLengthByte(d);
    EncodeDataSend(d);
  }
}
