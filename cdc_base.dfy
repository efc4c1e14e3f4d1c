/**
 * The message bases of src/iqrf/cdc/base_codec.py: equality by class and
 * attribute dictionary, the `status` of a response and the class flag
 * `is_async`.  The registries of that file are `CdcRegistry.Registry`,
 * whose `register_cdc_*` and `get_cdc_*` are the same code as here.
 */
module CdcBase {
  import opened Bytes
  import opened CdcMessages

  /** A class built on `BaseCdcRequest` or `BaseCdcResponse`: every class but the transport codec's reaction. */
  predicate BaseClass(t: MessageType) {
    t != DataReceivedReactionType
  }

  /** The base classes are the requests and the responses. */
  lemma BaseClassCategory(t: MessageType)
    ensures BaseClass(t) <==> CategoryOf(t) != Reaction
  {
  }

  /** A value in an object's `__dict__`. */
  datatype FieldValue = StatusField(status: CdcStatus) | BytesField(bytes: seq<byte>)

  /**
   * `self.__dict__`: `_status` set by a response's constructor, then the
   * attributes the class's own constructor stores.
   */
  function Fields(m: Message): (r: map<string, FieldValue>)
    ensures "_status" in r <==> CategoryOf(TypeOf(m)) == Response
  {
    match m
    case ErrorResponse => map["_status" := StatusField(ERROR)]
    case TestResponse => map["_status" := StatusField(OK)]
    case ResetResponse(s) => map["_status" := StatusField(s)]
    case TrResetResponse(s) => map["_status" := StatusField(s)]
    case InfoResponse(a, v, i) =>
      map["_status" := StatusField(OK), "type" := BytesField(a), "version" := BytesField(v), "id" := BytesField(i)]
    case TrInfoResponse(info) => map["_status" := StatusField(OK), "info" := BytesField(info)]
    case IndicationResponse(s) => map["_status" := StatusField(s)]
    case SpiStatusResponse(s) => map["_status" := StatusField(OK), "spi_status" := BytesField(s)]
    case DataSendRequest(d) => map["data" := BytesField(d)]
    case DataSendResponse(s) => map["_status" := StatusField(s)]
    case DataReceivedReaction(d) => map["data" := BytesField(d)]
    case DataReceivedResponse(d) => map["_status" := StatusField(OK), "data" := BytesField(d)]
    case SwitchToCustomClassResponse(s) => map["_status" := StatusField(s)]
    case SwitchToUartResponse(s) => map["_status" := StatusField(s)]
    case SwitchToSpiResponse(s) => map["_status" := StatusField(s)]
    case _ => map[]
  }

  /** `__eq__`: the other object is an instance of this one's class and has an equal `__dict__`. */
  predicate Equal(a: Message, b: Message) {
    TypeOf(a) == TypeOf(b) && Fields(a) == Fields(b)
  }

  /** `__ne__`. */
  predicate NotEqual(a: Message, b: Message) {
    !Equal(a, b)
  }

  /** Two messages are equal exactly when they are the same class with the same fields. */
  lemma EqualIffSame(a: Message, b: Message)
    ensures Equal(a, b) <==> a == b
  {
    if Equal(a, b) {
      if ShapeOf(TypeOf(a)) == StatusShape {
        EqualStatusSame(a, b);
      } else {
        EqualBytesSame(a, b);
      }
    }
  }

  /** Equal messages of a status class carry the same status. */
  lemma EqualStatusSame(a: Message, b: Message)
    requires Equal(a, b) && ShapeOf(TypeOf(a)) == StatusShape
    ensures a == b
  {
    var s, t := Status(a), Status(b);
    assert StatusField(s) == StatusField(t);
  }

  /** Equal messages of any other class carry the same byte fields. */
  lemma EqualBytesSame(a: Message, b: Message)
    requires Equal(a, b) && ShapeOf(TypeOf(a)) != StatusShape
    ensures a == b
  {
    match ShapeOf(TypeOf(a))
    case InfoShape => EqualInfoSame(a, b);
    case TrInfoShape => EqualTrInfoSame(a, b);
    case SpiStatusShape => EqualSpiStatusSame(a, b);
    case DataShape => EqualDataSame(a, b);
    case NoneShape =>
  }

  /** Equal information responses carry the same three fields. */
  lemma EqualInfoSame(a: Message, b: Message)
    requires Equal(a, b) && ShapeOf(TypeOf(a)) == InfoShape
    ensures a == b
  {
    assert a.InfoResponse? && b.InfoResponse?;
    var fa, fb := Fields(a), Fields(b);
    assert fa["type"] == fb["type"] && fa["version"] == fb["version"] && fa["id"] == fb["id"];
  }

  /** Equal TR information responses carry the same information. */
  lemma EqualTrInfoSame(a: Message, b: Message)
    requires Equal(a, b) && ShapeOf(TypeOf(a)) == TrInfoShape
    ensures a == b
  {
    assert a.TrInfoResponse? && b.TrInfoResponse?;
    assert Fields(a)["info"] == Fields(b)["info"];
  }

  /** Equal SPI status responses carry the same status bytes. */
  lemma EqualSpiStatusSame(a: Message, b: Message)
    requires Equal(a, b) && ShapeOf(TypeOf(a)) == SpiStatusShape
    ensures a == b
  {
    assert a.SpiStatusResponse? && b.SpiStatusResponse?;
    assert Fields(a)["spi_status"] == Fields(b)["spi_status"];
  }

  /** Equal messages of a data class carry the same data. */
  lemma EqualDataSame(a: Message, b: Message)
    requires Equal(a, b) && ShapeOf(TypeOf(a)) == DataShape
    ensures a == b
  {
    assert Fields(a)["data"] == Fields(b)["data"];
  }

  /** `!=` holds exactly between different messages. */
  lemma NotEqualIffDistinct(a: Message, b: Message)
    ensures NotEqual(a, b) <==> a != b
  {
    EqualIffSame(a, b);
  }

  /**
   * The `status` property of a response: the `_status` its constructor
   * stored, which is ERROR for the error response, the given status for the
   * status classes and OK for every other response.
   */
  function Status(m: Message): (s: CdcStatus)
    requires CategoryOf(TypeOf(m)) == Response
    ensures Fields(m)["_status"] == StatusField(s)
    ensures ShapeOf(TypeOf(m)) == StatusShape ==> s == m.status
    ensures m == ErrorResponse ==> s == ERROR
    ensures ShapeOf(TypeOf(m)) != StatusShape && m != ErrorResponse ==> s == OK
  {
    match m
    case ErrorResponse => ERROR
    case ResetResponse(s) => s
    case TrResetResponse(s) => s
    case IndicationResponse(s) => s
    case DataSendResponse(s) => s
    case SwitchToCustomClassResponse(s) => s
    case SwitchToUartResponse(s) => s
    case SwitchToSpiResponse(s) => s
    case _ => OK
  }

  /** `is_async()`: the class attribute ASYNC, False on `BaseCdcResponse` and True only on `DataReceivedResponse`. */
  function IsAsync(t: MessageType): bool
    requires CategoryOf(t) == Response
  {
    match t
    case DataReceivedResponseType => true
    case _ => false
  }
}
