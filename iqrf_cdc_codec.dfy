/**
 * The CDC codec of iqrf/cdc/iqrf_codec.py: message classes built on the
 * bases of src/iqrf/cdc/base_codec.py, registered at import into its two
 * registries (requests and responses), `BaseCdcEncoder.encode` and
 * `decode_cdc_message`.
 *
 * Its classes are the `BaseClass`es: the data-received message is a
 * response here, registered under "DR" (line 299), and there is no
 * reaction registry, so a '<' frame is looked up among the responses only.
 */
module IqrfCdcCodec {
  import opened Bytes
  import opened Wrappers
  import opened CdcWire
  import opened CdcMessages
  import opened CdcRegistry
  import opened CdcBase

  /** The classes registered at import, in the order of the module's `register_cdc_*` calls. */
  const REGISTRATIONS: seq<MessageType> := [
    ErrorResponseType,
    TestRequestType, TestResponseType,
    ResetRequestType, ResetResponseType,
    TrResetRequestType, TrResetResponseType,
    InfoRequestType, InfoResponseType,
    TrInfoRequestType, TrInfoResponseType,
    IndicationRequestType, IndicationResponseType,
    SpiStatusRequestType, SpiStatusResponseType,
    DataSendRequestType, DataSendResponseType,
    DataReceivedResponseType,
    SwitchToCustomClassRequestType, SwitchToCustomClassResponseType,
    SwitchToUartRequestType, SwitchToUartResponseType,
    SwitchToSpiRequestType, SwitchToSpiResponseType]

  /** `base_codec`'s REQUESTS and RESPONSES after the registrations, in registration order. */
  const REQUESTS: Entries := Registrations(REGISTRATIONS, Request)
  const RESPONSES: Entries := Registrations(REGISTRATIONS, Response)

  /** The registry `encode` and `decode_cdc_message` consult for a class of category `c`. */
  function TableOf(c: Category): Entries {
    if c == Request then REQUESTS else RESPONSES
  }

  /** The place of a class in `REGISTRATIONS` (past its end for the one class not registered). */
  function Position(t: MessageType): nat {
    match t
    case ErrorResponseType => 0
    case TestRequestType => 1
    case TestResponseType => 2
    case ResetRequestType => 3
    case ResetResponseType => 4
    case TrResetRequestType => 5
    case TrResetResponseType => 6
    case InfoRequestType => 7
    case InfoResponseType => 8
    case TrInfoRequestType => 9
    case TrInfoResponseType => 10
    case IndicationRequestType => 11
    case IndicationResponseType => 12
    case SpiStatusRequestType => 13
    case SpiStatusResponseType => 14
    case DataSendRequestType => 15
    case DataSendResponseType => 16
    case DataReceivedResponseType => 17
    case SwitchToCustomClassRequestType => 18
    case SwitchToCustomClassResponseType => 19
    case SwitchToUartRequestType => 20
    case SwitchToUartResponseType => 21
    case SwitchToSpiRequestType => 22
    case SwitchToSpiResponseType => 23
    case DataReceivedReactionType => 24
  }

  lemma PositionOf(i: nat)
    requires i < |REGISTRATIONS|
    ensures Position(REGISTRATIONS[i]) == i
  {
    if i < 12 {
      assert i in {0, 1, 2, 3, 4, 5, 6, 7, 8, 9, 10, 11};
    } else {
      assert i in {12, 13, 14, 15, 16, 17, 18, 19, 20, 21, 22, 23};
    }
  }

  /** The registered classes are exactly the module's classes. */
  lemma RegisteredIffBaseClass(t: MessageType)
    ensures t in REGISTRATIONS <==> BaseClass(t)
  {
    if t in REGISTRATIONS {
      var j :| 0 <= j < |REGISTRATIONS| && REGISTRATIONS[j] == t;
      PositionOf(j);
    }
  }

  /** No class is registered twice, so none of the registrations raises "Duplicate". */
  lemma NotRegisteredBefore(i: nat)
    requires i < |REGISTRATIONS|
    ensures REGISTRATIONS[i] !in REGISTRATIONS[..i]
  {
    if REGISTRATIONS[i] in REGISTRATIONS[..i] {
      var j :| 0 <= j < i && REGISTRATIONS[j] == REGISTRATIONS[i];
      PositionOf(i);
      PositionOf(j);
    }
  }

  /** `get_cdc_*_id` finds every class of the module under its identifier. */
  lemma IdForTable(t: MessageType)
    requires BaseClass(t)
    ensures IdFor(TableOf(CategoryOf(t)), t) == Some(Identifier(t))
  {
    RegisteredIffBaseClass(t);
    IdForRegistrations(REGISTRATIONS, CategoryOf(t), t);
  }

  /** `get_cdc_*_type` finds a class of the module and of the registry's category, under its identifier. */
  lemma TypeForTable(c: Category, id: seq<byte>)
    requires c != Reaction && TypeFor(TableOf(c), id).Some?
    ensures var t := TypeFor(TableOf(c), id).value;
      BaseClass(t) && CategoryOf(t) == c && Identifier(t) == id
  {
    TypeForRegistrations(REGISTRATIONS, c, id);
    RegisteredIffBaseClass(TypeFor(TableOf(c), id).value);
  }

  /** ... and it finds every class of the module by its identifier. */
  lemma TypeForTableOf(t: MessageType)
    requires BaseClass(t)
    ensures TypeFor(TableOf(CategoryOf(t)), Identifier(t)) == Some(t)
  {
    RegisteredIffBaseClass(t);
    forall u | u in REGISTRATIONS && CategoryOf(u) == CategoryOf(t) && Identifier(u) == Identifier(t)
      ensures u == t
    {
      IdentifierInjective(u, t);
    }
    TypeForRegistrationsUnique(REGISTRATIONS, CategoryOf(t), t);
  }

  /** For the registries built at import, `get_cdc_*_id` and `get_cdc_*_type` are inverse to each other. */
  lemma LookUpsInverse(c: Category, t: MessageType, id: seq<byte>)
    requires c != Reaction
    ensures IdFor(TableOf(c), t) == Some(id) <==> TypeFor(TableOf(c), id) == Some(t)
  {
    RegisteredIffBaseClass(t);
    IdForRegistrations(REGISTRATIONS, c, t);
    if IdFor(TableOf(c), t) == Some(id) {
      TypeForTableOf(t);
    }
    if TypeFor(TableOf(c), id) == Some(t) {
      TypeForTable(c, id);
    }
  }

  /**
   * The module's registrations, in source order, on `base_codec`'s two
   * empty registries: every class is a request or a response, goes to the
   * registry of its category, and every registration succeeds.
   */
  method RegisterAll() returns (requests: Registry, responses: Registry)
    ensures fresh(requests) && fresh(responses)
    ensures requests.Valid() && responses.Valid()
    ensures requests.entries == REQUESTS && responses.entries == RESPONSES
  {
    requests := new Registry(Request);
    responses := new Registry(Response);
    for i := 0 to |REGISTRATIONS|
      invariant requests.category == Request && responses.category == Response
      invariant requests.Valid() && responses.Valid()
      invariant requests.entries == Registrations(REGISTRATIONS[..i], Request)
      invariant responses.entries == Registrations(REGISTRATIONS[..i], Response)
    {
      var t := REGISTRATIONS[i];
      var c := CategoryOf(t);
      RegistrationsStep(REGISTRATIONS, i, Request);
      RegistrationsStep(REGISTRATIONS, i, Response);
      RegisteredIffBaseClass(t);
      BaseClassCategory(t);
      NotRegisteredBefore(i);
      IdForRegistrations(REGISTRATIONS[..i], c, t);
      var r: Result<(), RegisterError>;
      if c == Request {
        r := requests.Register(t, Identifier(t));
      } else {
        r := responses.Register(t, Identifier(t));
      }
      assert r.Success?;
    }
    assert REGISTRATIONS[..|REGISTRATIONS|] == REGISTRATIONS;
  }

  /** The direction byte of a class's frames: '>' for a request, '<' for a response. */
  function DirectionOf(c: Category): byte {
    if c == Request then REQUEST else RESPONSE
  }

  /**
   * `BaseCdcEncoder.encode` of a message of the module: tokenize (which may
   * raise ValueError), take the direction and the identifier registered for
   * the class, and join the frame; a class without an identifier would make
   * the join over None raise TypeError.
   */
  function Encode(m: Message): (r: Result<seq<byte>, CdcError>)
    requires BaseClass(TypeOf(m))
    ensures r.Success? ==> |r.value| >= 2 && r.value[|r.value| - 1] == TERMINATOR
    ensures r.Success? ==> (r.value[0] == REQUEST <==> CategoryOf(TypeOf(m)) == Request)
    ensures r.Success? ==> (r.value[0] == RESPONSE <==> CategoryOf(TypeOf(m)) == Response)
  {
    var tokens :- Tokenize(m);
    var t := TypeOf(m);
    match IdFor(TableOf(CategoryOf(t)), t)
    case None => Failure(TypeError)
    case Some(identifier) => Success(Assemble(DirectionOf(CategoryOf(t)), identifier, tokens))
  }

  /** Every class being registered, `encode` fails only for an over-long data field, with ValueError. */
  lemma EncodeFailure(m: Message)
    requires BaseClass(TypeOf(m))
    ensures Encode(m).Failure? <==> Tokenize(m).Failure?
    ensures Encode(m).Failure? ==> Encode(m) == Failure(ValueError)
  {
    IdForTable(TypeOf(m));
  }

  /** The class `decode_cdc_message` reads a frame as: requests for '>', responses for '<'. */
  function LookUp(direction: byte, identifier: seq<byte>): Option<MessageType> {
    if direction == REQUEST then TypeFor(REQUESTS, identifier) else TypeFor(RESPONSES, identifier)
  }

  /** The class looked up is one of the module's, carries the identifier, and is a request exactly for '>'. */
  lemma LookUpFinds(direction: byte, identifier: seq<byte>)
    requires LookUp(direction, identifier).Some?
    ensures var t := LookUp(direction, identifier).value;
      BaseClass(t) && Identifier(t) == identifier
      && (CategoryOf(t) == Request <==> direction == REQUEST)
      && (CategoryOf(t) == Response <==> direction != REQUEST)
  {
    if direction == REQUEST {
      TypeForTable(Request, identifier);
    } else {
      TypeForTable(Response, identifier);
    }
  }

  /**
   * `decode_cdc_message`: tokenize (the base CdcMessageCodecError when the
   * pattern fails), look the class up ("Unknown message!" when there is
   * none) and let the class decode the tokens.
   */
  function Decode(b: seq<byte>): (r: Result<Message, CdcError>)
    ensures r.Success? ==> MatchFrame(b).Some?
    ensures MatchFrame(b).None? ==> r == Failure(CodecError)
  {
    match MatchFrame(b)
    case None => Failure(CodecError)
    case Some(f) =>
      match LookUp(f.direction, f.identifier)
      case None => Failure(DecodeError)
      case Some(t) => DecodeAs(t, TokenizeBody(f.body))
  }

  /** A decoded message is of the module's classes, and a request exactly when the frame starts with '>'. */
  lemma DecodeBaseClass(b: seq<byte>)
    requires Decode(b).Success?
    ensures BaseClass(TypeOf(Decode(b).value))
    ensures CategoryOf(TypeOf(Decode(b).value)) == Request <==> b[0] == REQUEST
  {
    var f := MatchFrame(b).value;
    LookUpFinds(f.direction, f.identifier);
  }

  /** A class's messages are framed behind its own identifier. */
  lemma EncodeBaseClass(m: Message)
    requires BaseClass(TypeOf(m)) && Tokenize(m).Success?
    ensures Encode(m) == Success(Assemble(DirectionOf(CategoryOf(TypeOf(m))), Identifier(TypeOf(m)), Tokenize(m).value))
  {
    IdForTable(TypeOf(m));
  }

  /** The frame of a class is read back as that class. */
  lemma LookUpBaseClass(t: MessageType)
    requires BaseClass(t)
    ensures LookUp(DirectionOf(CategoryOf(t)), Identifier(t)) == Some(t)
  {
    TypeForTableOf(t);
  }

  /** Decoding the encoding of a message the frame can carry gives the message back. */
  lemma DecodeEncode(m: Message)
    requires BaseClass(TypeOf(m)) && Transmissible(m)
    ensures Encode(m).Success? && Decode(Encode(m).value) == Success(m)
  {
    var t := TypeOf(m);
    IdentifiersValid(t);
    FrameRoundTrip(DirectionOf(CategoryOf(t)), Identifier(t), m);
    EncodeBaseClass(m);
    LookUpBaseClass(t);
  }

  /**
   * A frame that decodes, ends in a single '\r', has an empty body or one
   * with a ':', and whose data parameter is the length byte of the value.
   */
  predicate Canonical(b: seq<byte>) {
    MatchFrame(b).Some? && b[|b| - 1] == TERMINATOR
    && (var f := MatchFrame(b).value;
        (f.body == [] || SEPARATOR in f.body) && LengthAgrees(TokenizeBody(f.body)))
  }

  /** Encoding what a canonical frame decodes to gives the frame back. */
  lemma EncodeDecode(b: seq<byte>)
    requires Decode(b).Success? && Canonical(b)
    ensures BaseClass(TypeOf(Decode(b).value)) && Encode(Decode(b).value) == Success(b)
  {
    var f := MatchFrame(b).value;
    var t := LookUp(f.direction, f.identifier).value;
    LookUpFinds(f.direction, f.identifier);
    FrameReassembles(b, t);
    IdForTable(t);
  }

  /**
   * A '<' frame decodes to an asynchronous response exactly when its
   * identifier is "DR": the data-received response, the one class with
   * ASYNC set.
   */
  lemma DecodeAsync(b: seq<byte>)
    requires Decode(b).Success? && b[0] == RESPONSE
    ensures CategoryOf(TypeOf(Decode(b).value)) == Response
    ensures IsAsync(TypeOf(Decode(b).value)) <==> MatchFrame(b).value.identifier == [0x44, 0x52]
  {
    var f := MatchFrame(b).value;
    LookUpFinds(f.direction, f.identifier);
    var t := LookUp(f.direction, f.identifier).value;
    if f.identifier == [0x44, 0x52] {
      IdentifierInjective(t, DataReceivedResponseType);
    }
  }
}
