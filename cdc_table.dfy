/**
 * The table-driven CDC codec of iqrf/cdc.py: the `CdcMessage` enumeration,
 * whose every member carries (id, direction, token, parameterizable,
 * valuable), `CdcMessage.get`, `encode_cdc_message`, `decode_cdc_message`
 * and the frame buffer of `CdcIO.read_cdc_message`.
 *
 * A frame is a direction byte, the token, an optional "[parameter]", an
 * optional ":value" and '\r'.
 */
module CdcTable {
  import opened Bytes
  import opened Wrappers

  datatype Direction = RequestDirection | ResponseDirection

  /** `CdcMessageEncodeError` and `CdcMessageDecodeError`. */
  datatype CodecError = EncodeError | DecodeError

  /** The value of an enumeration member: `[id, direction, token, parameterizable, valuable]`. */
  datatype MemberValue = MemberValue(id: nat, direction: Direction, token: seq<byte>, parameterizable: bool, valuable: bool)

  /** The members of `CdcMessage` (the source spells the UART switch "SWICH"). */
  datatype CdcMessage =
    | Error
    | Test | TestResponse
    | Reset | ResetResponse
    | TrReset | TrResetResponse
    | Info | InfoResponse
    | TrInfo | TrInfoResponse
    | Indication | IndicationResponse
    | SpiStatus | SpiStatusResponse
    | SendData | SendDataResponse
    | ReceivedData
    | SwitchToCustomClass | SwitchToCustomClassResponse
    | SwichToUart | SwichToUartResponse
    | SwitchToSpi | SwitchToSpiResponse

  /** `message.value`, as the enumeration lists it. */
  function ValueOf(m: CdcMessage): MemberValue {
    match m
    case Error => MemberValue(0, ResponseDirection, [0x45, 0x52, 0x52], false, false)           // "ERR"
    case Test => MemberValue(1, RequestDirection, [], false, false)                             // ""
    case TestResponse => MemberValue(2, ResponseDirection, [0x4F, 0x4B], false, false)          // "OK"
    case Reset => MemberValue(3, RequestDirection, [0x52], false, false)                        // "R"
    case ResetResponse => MemberValue(4, ResponseDirection, [0x52], false, true)
    case TrReset => MemberValue(5, RequestDirection, [0x52, 0x54], false, false)                // "RT"
    case TrResetResponse => MemberValue(6, ResponseDirection, [0x52, 0x54], false, true)
    case Info => MemberValue(7, RequestDirection, [0x49], false, false)                         // "I"
    case InfoResponse => MemberValue(8, ResponseDirection, [0x49], false, true)
    case TrInfo => MemberValue(9, RequestDirection, [0x49, 0x54], false, false)                 // "IT"
    case TrInfoResponse => MemberValue(10, ResponseDirection, [0x49, 0x54], false, true)
    case Indication => MemberValue(11, RequestDirection, [0x42], false, false)                  // "B"
    case IndicationResponse => MemberValue(12, ResponseDirection, [0x42], false, true)
    case SpiStatus => MemberValue(13, RequestDirection, [0x53], false, false)                   // "S"
    case SpiStatusResponse => MemberValue(14, ResponseDirection, [0x53], false, true)
    case SendData => MemberValue(15, RequestDirection, [0x44, 0x53], true, true)                // "DS"
    case SendDataResponse => MemberValue(16, ResponseDirection, [0x44, 0x53], false, true)
    case ReceivedData => MemberValue(17, ResponseDirection, [0x44, 0x52], true, true)           // "DR"
    case SwitchToCustomClass => MemberValue(18, RequestDirection, [0x55], false, false)         // "U"
    case SwitchToCustomClassResponse => MemberValue(19, ResponseDirection, [0x55], false, true)
    case SwichToUart => MemberValue(20, RequestDirection, [0x55, 0x55], false, false)           // "UU"
    case SwichToUartResponse => MemberValue(21, ResponseDirection, [0x55, 0x55], false, true)
    case SwitchToSpi => MemberValue(22, RequestDirection, [0x55, 0x53], false, false)           // "US"
    case SwitchToSpiResponse => MemberValue(22, ResponseDirection, [0x55, 0x53], false, true)
  }

  /** The members in definition order, the order `for message in cls` visits them in. */
  const MEMBERS: seq<CdcMessage> := [
    Error,
    Test, TestResponse,
    Reset, ResetResponse,
    TrReset, TrResetResponse,
    Info, InfoResponse,
    TrInfo, TrInfoResponse,
    Indication, IndicationResponse,
    SpiStatus, SpiStatusResponse,
    SendData, SendDataResponse,
    ReceivedData,
    SwitchToCustomClass, SwitchToCustomClassResponse,
    SwichToUart, SwichToUartResponse,
    SwitchToSpi, SwitchToSpiResponse]

  /** The place of a member in the definition order. */
  function Position(m: CdcMessage): (i: nat)
    ensures i < |MEMBERS| && MEMBERS[i] == m
  {
    match m
    case Error => 0
    case Test => 1
    case TestResponse => 2
    case Reset => 3
    case ResetResponse => 4
    case TrReset => 5
    case TrResetResponse => 6
    case Info => 7
    case InfoResponse => 8
    case TrInfo => 9
    case TrInfoResponse => 10
    case Indication => 11
    case IndicationResponse => 12
    case SpiStatus => 13
    case SpiStatusResponse => 14
    case SendData => 15
    case SendDataResponse => 16
    case ReceivedData => 17
    case SwitchToCustomClass => 18
    case SwitchToCustomClassResponse => 19
    case SwichToUart => 20
    case SwichToUartResponse => 21
    case SwitchToSpi => 22
    case SwitchToSpiResponse => 23
  }

  /**
   * The enumeration gives SWITCH_TO_SPI_RESPONSE the id 22 of
   * SWITCH_TO_SPI: two members share an id.
   */
  lemma IdsRepeat()
    ensures SwitchToSpi != SwitchToSpiResponse && ValueOf(SwitchToSpi).id == ValueOf(SwitchToSpiResponse).id
  {
  }

  /** The ids as evidently intended: the members numbered 0..23 in definition order. */
  function Id(m: CdcMessage): (id: nat)
    ensures id < |MEMBERS| && MEMBERS[id] == m
  {
    Position(m)
  }

  /** The intended ids identify members, and agree with the enumeration everywhere but on SWITCH_TO_SPI_RESPONSE. */
  lemma IdInjective(a: CdcMessage, b: CdcMessage)
    ensures Id(a) == Id(b) <==> a == b
    ensures a != SwitchToSpiResponse ==> Id(a) == ValueOf(a).id
    ensures Id(SwitchToSpiResponse) == 23
  {
    assert MEMBERS[Id(a)] == a && MEMBERS[Id(b)] == b;
    IdAgrees(a);
  }

  /** Every member but SWITCH_TO_SPI_RESPONSE is numbered by its place. */
  lemma IdAgrees(m: CdcMessage)
    ensures m != SwitchToSpiResponse ==> Position(m) == ValueOf(m).id
  {
  }

  /** No two members share a direction and a token. */
  lemma KeyInjective(a: CdcMessage, b: CdcMessage)
    requires ValueOf(a).direction == ValueOf(b).direction && ValueOf(a).token == ValueOf(b).token
    ensures a == b
  {
  }

  /**
   * A token is capital letters only, and a member takes a parameter only
   * with a value and then has a non-empty token.
   */
  lemma TokenShape(m: CdcMessage)
    ensures forall i :: 0 <= i < |ValueOf(m).token| ==> IsUpper(ValueOf(m).token[i])
    ensures COLON !in ValueOf(m).token && LBRACKET !in ValueOf(m).token && LF !in ValueOf(m).token
    ensures ValueOf(m).parameterizable ==> ValueOf(m).valuable && |ValueOf(m).token| > 0
  {
  }

  /** The member agrees with the observed direction, token and presence of parameter and value. */
  predicate Matches(m: CdcMessage, direction: Direction, token: seq<byte>, parameterizable: bool, valuable: bool) {
    var v := ValueOf(m);
    v.direction == direction && v.token == token && v.parameterizable == parameterizable && v.valuable == valuable
  }

  /** The first of `members` that matches, as the loop of `CdcMessage.get` returns it. */
  function First(members: seq<CdcMessage>, direction: Direction, token: seq<byte>, parameterizable: bool, valuable: bool)
    : (r: Option<CdcMessage>)
    ensures r.None? <==> forall i :: 0 <= i < |members| ==> !Matches(members[i], direction, token, parameterizable, valuable)
    ensures r.Some? ==> exists i :: 0 <= i < |members| && members[i] == r.value
                                    && Matches(r.value, direction, token, parameterizable, valuable)
                                    && forall j :: 0 <= j < i ==> !Matches(members[j], direction, token, parameterizable, valuable)
  {
    if |members| == 0 then None
    else if Matches(members[0], direction, token, parameterizable, valuable) then Some(members[0])
    else
      var r := First(members[1..], direction, token, parameterizable, valuable);
      assert forall i :: 0 < i < |members| ==> members[i] == members[1..][i - 1];
      r
  }

  /** `CdcMessage.get(direction, token, parameterizable, valuable)`. */
  function Get(direction: Direction, token: seq<byte>, parameterizable: bool, valuable: bool): Option<CdcMessage> {
    First(MEMBERS, direction, token, parameterizable, valuable)
  }

  /** `get` returns a member exactly when one matches, and then it is the one with that direction and token. */
  lemma GetIff(m: CdcMessage, direction: Direction, token: seq<byte>, parameterizable: bool, valuable: bool)
    ensures Get(direction, token, parameterizable, valuable) == Some(m) <==> Matches(m, direction, token, parameterizable, valuable)
  {
    if Matches(m, direction, token, parameterizable, valuable) {
      var k := Position(m);
      var r := Get(direction, token, parameterizable, valuable);
      assert r.Some? by { assert Matches(MEMBERS[k], direction, token, parameterizable, valuable); }
      KeyInjective(r.value, m);
    }
  }

  /*
   * The parameter pattern `(.+?)\[(.+)\]$`, matched from the start: a
   * non-empty token, the first '[' after it from which the rest reads as a
   * non-empty parameter and ']' at the end of the text (or before a final
   * '\n', where `$` also matches).  `.` matches anything but '\n'.
   */

  /** `(.+)\]$` at the start of `rest`: the greedy parameter before the closing ']'. */
  function BracketTail(rest: seq<byte>): (r: Option<seq<byte>>)
    ensures r.Some? ==>
      |r.value| > 0 && LF !in r.value && (rest == r.value + [RBRACKET] || rest == r.value + [RBRACKET, LF])
  {
    var n := |rest|;
    if n >= 2 && rest[n - 1] == RBRACKET && LF !in rest[..n - 1] then
      assert rest == rest[..n - 1] + [RBRACKET];
      Some(rest[..n - 1])
    else if n >= 3 && rest[n - 1] == LF && rest[n - 2] == RBRACKET && LF !in rest[..n - 2] then
      assert rest == rest[..n - 2] + [RBRACKET, LF];
      Some(rest[..n - 2])
    else None
  }

  /** A token, '[', a parameter and ']' (or "]\n"), both non-empty and without '\n'. */
  predicate ParameterShape(s: seq<byte>, token: seq<byte>, parameter: seq<byte>) {
    |token| > 0 && |parameter| > 0 && LF !in token && LF !in parameter
    && (s == token + [LBRACKET] + parameter + [RBRACKET] || s == token + [LBRACKET] + parameter + [RBRACKET, LF])
  }

  /** The lazy token: try each '[' from index `i` on, while the token so far has no '\n'. */
  function ParameterMatchFrom(s: seq<byte>, i: nat): (r: Option<(seq<byte>, seq<byte>)>)
    requires 1 <= i <= |s| && LF !in s[..i - 1]
    ensures r.Some? ==> ParameterShape(s, r.value.0, r.value.1)
    decreases |s| - i
  {
    if i == |s| || s[i - 1] == LF then None
    else
      assert s[..i] == s[..i - 1] + [s[i - 1]];
      if s[i] == LBRACKET && BracketTail(s[i + 1..]).Some? then
        assert s == s[..i] + [LBRACKET] + s[i + 1..];
        Some((s[..i], BracketTail(s[i + 1..]).value))
      else ParameterMatchFrom(s, i + 1)
  }

  /** `PARAMETER_PATTERN.match(s)`: Some((group 1, group 2)) or None. */
  function ParameterMatch(s: seq<byte>): (r: Option<(seq<byte>, seq<byte>)>)
    ensures r.Some? ==> ParameterShape(s, r.value.0, r.value.1)
    ensures LBRACKET !in s ==> r.None?
  {
    if |s| == 0 then None else ParameterMatchFrom(s, 1)
  }

  /** The closing ']' (or "]\n") after a parameter without '\n' leaves exactly that parameter. */
  lemma BracketTailOf(parameter: seq<byte>, ending: seq<byte>)
    requires |parameter| > 0 && LF !in parameter
    requires ending == [RBRACKET] || ending == [RBRACKET, LF]
    ensures BracketTail(parameter + ending) == Some(parameter)
  {
    var rest := parameter + ending;
    if ending == [RBRACKET] {
      assert rest[..|rest| - 1] == parameter;
    } else {
      assert rest[|rest| - 1] == LF;
      assert rest[..|rest| - 2] == parameter;
    }
  }

  /** A bracket-free token followed by "[parameter]" (or "[parameter]\n") matches with exactly that token and parameter. */
  lemma {:induction false} ParameterMatchFromOf(token: seq<byte>, parameter: seq<byte>, ending: seq<byte>, i: nat)
    requires 1 <= i <= |token| && LBRACKET !in token && LF !in token
    requires |parameter| > 0 && LF !in parameter
    requires ending == [RBRACKET] || ending == [RBRACKET, LF]
    ensures var s := token + [LBRACKET] + parameter + ending;
      LF !in s[..i - 1] && ParameterMatchFrom(s, i) == Some((token, parameter))
    decreases |token| - i
  {
    var s := token + [LBRACKET] + parameter + ending;
    assert s[..i - 1] == token[..i - 1];
    assert s[i - 1] == token[i - 1];
    if i == |token| {
      assert s[i + 1..] == parameter + ending;
      assert s[..i] == token;
      BracketTailOf(parameter, ending);
    } else {
      assert s[i] == token[i];
      ParameterMatchFromOf(token, parameter, ending, i + 1);
    }
  }

  lemma ParameterMatchOf(token: seq<byte>, parameter: seq<byte>, ending: seq<byte>)
    requires |token| > 0 && LBRACKET !in token && LF !in token
    requires |parameter| > 0 && LF !in parameter
    requires ending == [RBRACKET] || ending == [RBRACKET, LF]
    ensures ParameterMatch(token + [LBRACKET] + parameter + ending) == Some((token, parameter))
  {
    ParameterMatchFromOf(token, parameter, ending, 1);
  }

  /** The direction byte: '>' for a request, '<' for a response. */
  function DirectionByte(d: Direction): byte {
    if d == RequestDirection then GT else LT
  }

  /** "[parameter]", or nothing. */
  function ParameterPart(parameter: Option<seq<byte>>): seq<byte> {
    if parameter.Some? then [LBRACKET] + parameter.value + [RBRACKET] else []
  }

  /** ":value", or nothing. */
  function ValuePart(value: Option<seq<byte>>): seq<byte> {
    if value.Some? then [COLON] + value.value else []
  }

  /**
   * `encode_cdc_message(message, parameter, value)`: a value must be given
   * exactly to a valuable member and a parameter exactly to a
   * parameterizable one; then the frame is the direction, the token, the
   * bracketed parameter, the value after ':' and '\r'.
   */
  function Encode(m: CdcMessage, parameter: Option<seq<byte>>, value: Option<seq<byte>>): (r: Result<seq<byte>, CodecError>)
    ensures r.Success? <==> value.Some? == ValueOf(m).valuable && parameter.Some? == ValueOf(m).parameterizable
    ensures r.Failure? ==> r.error == EncodeError
    ensures r.Success? ==> |r.value| >= 2 && r.value[0] == DirectionByte(ValueOf(m).direction) && r.value[|r.value| - 1] == CR
  {
    var v := ValueOf(m);
    if value.Some? && !v.valuable then Failure(EncodeError)
    else if value.None? && v.valuable then Failure(EncodeError)
    else if parameter.Some? && !v.parameterizable then Failure(EncodeError)
    else if parameter.None? && v.parameterizable then Failure(EncodeError)
    else Success([DirectionByte(v.direction)] + v.token + ParameterPart(parameter) + ValuePart(value) + [CR])
  }

  /** What `decode_cdc_message` returns: the member, the parameter and the value. */
  type Decoded = (CdcMessage, Option<seq<byte>>, Option<seq<byte>>)

  /** The parts a frame body is read as. */
  datatype Parts = Parts(token: seq<byte>, parameter: Option<seq<byte>>, value: Option<seq<byte>>)

  /**
   * Demand and strip the final '\r' when checking the terminator, then take
   * the direction from the first byte ("Invalid direction!" for anything
   * but '>' and '<'); the rest is the body.
   */
  function Frame(data: seq<byte>, checkTerminator: bool): (r: Result<(Direction, seq<byte>), CodecError>)
    ensures r.Failure? ==> r.error == DecodeError
    ensures r.Success? && checkTerminator ==> data == [DirectionByte(r.value.0)] + r.value.1 + [CR]
    ensures r.Success? && !checkTerminator ==> data == [DirectionByte(r.value.0)] + r.value.1
  {
    if checkTerminator && (|data| == 0 || data[|data| - 1] != CR) then Failure(DecodeError)
    else
      var rest := if checkTerminator then data[..|data| - 1] else data;
      assert checkTerminator ==> data == rest + [CR];
      if |rest| > 0 && rest[0] == GT then
        assert rest == [GT] + rest[1..];
        Success((RequestDirection, rest[1..]))
      else if |rest| > 0 && rest[0] == LT then
        assert rest == [LT] + rest[1..];
        Success((ResponseDirection, rest[1..]))
      else Failure(DecodeError)
  }

  /**
   * Split the body on ':': one part is a bare token; two are a token (with
   * a parameter when the parameter pattern matches) and a value; more are
   * "Only one value messages are supported!".
   */
  function SplitBody(body: seq<byte>): (r: Result<Parts, CodecError>)
    ensures r.Failure? ==> r.error == DecodeError
  {
    PartsOf(Split(body, COLON))
  }

  /** The parts read from the pieces of a body split on ':'. */
  function PartsOf(keyed: seq<seq<byte>>): (r: Result<Parts, CodecError>)
    requires |keyed| >= 1
    ensures r.Failure? <==> |keyed| > 2
  {
    if |keyed| == 1 then Success(Parts(keyed[0], None, None))
    else if |keyed| == 2 then
      match ParameterMatch(keyed[0])
      case Some((token, parameter)) => Success(Parts(token, Some(parameter), Some(keyed[1])))
      case None => Success(Parts(keyed[0], None, Some(keyed[1])))
    else Failure(DecodeError)
  }

  /** The member for the observed parts, "No such message!" when none matches. */
  function LookUp(direction: Direction, parts: Parts): (r: Result<Decoded, CodecError>)
    ensures r.Success? <==> Get(direction, parts.token, parts.parameter.Some?, parts.value.Some?).Some?
    ensures r.Success? ==> r.value.1 == parts.parameter && r.value.2 == parts.value
                           && Matches(r.value.0, direction, parts.token, parts.parameter.Some?, parts.value.Some?)
    ensures r.Failure? ==> r.error == DecodeError
  {
    match Get(direction, parts.token, parts.parameter.Some?, parts.value.Some?)
    case None => Failure(DecodeError)
    case Some(m) => Success((m, parts.parameter, parts.value))
  }

  /** `decode_cdc_message(data, check_terminator)`. */
  function Decode(data: seq<byte>, checkTerminator: bool): (r: Result<Decoded, CodecError>)
    ensures r.Failure? ==> r.error == DecodeError
  {
    var frame :- Frame(data, checkTerminator);
    var parts :- SplitBody(frame.1);
    LookUp(frame.0, parts)
  }

  /** Two parts joined by ':' split back into them. */
  lemma SplitTwo(x: seq<byte>, y: seq<byte>)
    requires COLON !in x && COLON !in y
    ensures Split(x + [COLON] + y, COLON) == [x, y]
  {
    assert [x, y][1..] == [y];
    assert Join([x, y], COLON) == x + [COLON] + y;
    SplitJoin([x, y], COLON);
  }

  /** A part without ':' is not split. */
  lemma SplitOne(x: seq<byte>)
    requires COLON !in x
    ensures Split(x, COLON) == [x]
  {
    SplitJoin([x], COLON);
  }

  /** A terminated frame with a direction byte is read as that direction and its body. */
  lemma FrameOf(d: Direction, body: seq<byte>)
    ensures Frame([DirectionByte(d)] + body + [CR], true) == Success((d, body))
  {
    var data := [DirectionByte(d)] + body + [CR];
    assert data[..|data| - 1] == [DirectionByte(d)] + body;
    assert ([DirectionByte(d)] + body)[1..] == body;
  }

  /** A bare token is read as the token alone. */
  lemma SplitBodyBare(token: seq<byte>)
    requires COLON !in token
    ensures SplitBody(token) == Success(Parts(token, None, None))
  {
    SplitOne(token);
  }

  /** A bracket-free head and a value are read as a token and a value. */
  lemma SplitBodyValue(head: seq<byte>, value: seq<byte>)
    requires COLON !in head && LBRACKET !in head && COLON !in value
    ensures SplitBody(head + [COLON] + value) == Success(Parts(head, None, Some(value)))
  {
    SplitTwo(head, value);
  }

  /** A token, a bracketed parameter (its ']' possibly followed by '\n') and a value are read as exactly those three. */
  lemma SplitBodyParameter(token: seq<byte>, parameter: seq<byte>, ending: seq<byte>, value: seq<byte>)
    requires |token| > 0 && COLON !in token && LBRACKET !in token && LF !in token
    requires |parameter| > 0 && COLON !in parameter && LF !in parameter && COLON !in value
    requires ending == [RBRACKET] || ending == [RBRACKET, LF]
    ensures SplitBody(token + [LBRACKET] + parameter + ending + [COLON] + value)
      == Success(Parts(token, Some(parameter), Some(value)))
  {
    SplitTwo(token + [LBRACKET] + parameter + ending, value);
    ParameterMatchOf(token, parameter, ending);
  }

  /** A body built from a token, a parameter and a value is read back as exactly those parts. */
  lemma SplitBodyOf(token: seq<byte>, parameter: Option<seq<byte>>, value: Option<seq<byte>>)
    requires COLON !in token && LBRACKET !in token && LF !in token
    requires parameter.Some? ==> value.Some? && |token| > 0
    requires parameter.Some? ==> |parameter.value| > 0 && COLON !in parameter.value && LF !in parameter.value
    requires value.Some? ==> COLON !in value.value
    ensures SplitBody(token + ParameterPart(parameter) + ValuePart(value)) == Success(Parts(token, parameter, value))
  {
    if value.None? {
      assert token + ParameterPart(parameter) + ValuePart(value) == token;
      SplitBodyBare(token);
    } else if parameter.None? {
      assert token + ParameterPart(parameter) + ValuePart(value) == token + [COLON] + value.value;
      SplitBodyValue(token, value.value);
    } else {
      assert token + ParameterPart(parameter) + ValuePart(value)
        == token + [LBRACKET] + parameter.value + [RBRACKET] + [COLON] + value.value;
      SplitBodyParameter(token, parameter.value, [RBRACKET], value.value);
    }
  }

  /** Two parts of a split are the text around its one ':'. */
  lemma JoinTwo(parts: seq<seq<byte>>)
    requires |parts| == 2
    ensures Join(parts, COLON) == parts[0] + [COLON] + parts[1]
  {
    assert parts[1..] == [parts[1]];
  }

  /** A token the parameter pattern matches, without '\n', is the token and its bracketed parameter. */
  lemma ParameterMatchParts(head: seq<byte>)
    requires ParameterMatch(head).Some? && LF !in head
    ensures var (token, parameter) := ParameterMatch(head).value;
      head == token + ParameterPart(Some(parameter))
  {
    var (token, parameter) := ParameterMatch(head).value;
    assert head != token + [LBRACKET] + parameter + [RBRACKET, LF] by {
      assert (token + [LBRACKET] + parameter + [RBRACKET, LF])[|token| + |parameter| + 2] == LF;
    }
  }

  /** Two pieces whose first the parameter pattern matches, without '\n', join back from the parts read from them. */
  lemma PartsOfParameter(keyed: seq<seq<byte>>)
    requires |keyed| == 2 && ParameterMatch(keyed[0]).Some? && LF !in keyed[0]
    ensures var parts := PartsOf(keyed).value;
      Join(keyed, COLON) == parts.token + ParameterPart(parts.parameter) + ValuePart(parts.value)
  {
    var matched := ParameterMatch(keyed[0]).value;
    assert PartsOf(keyed) == Success(Parts(matched.0, Some(matched.1), Some(keyed[1])));
    ParameterMatchParts(keyed[0]);
    JoinTwo(keyed);
  }

  /** A body without '\n' is its token, its parameter part and its value part. */
  lemma SplitBodyParts(body: seq<byte>)
    requires SplitBody(body).Success? && LF !in body
    ensures var parts := SplitBody(body).value;
      body == parts.token + ParameterPart(parts.parameter) + ValuePart(parts.value)
  {
    var keyed := Split(body, COLON);
    if |keyed| == 2 {
      JoinTwo(keyed);
      if ParameterMatch(keyed[0]).Some? {
        assert LF !in keyed[0];
        PartsOfParameter(keyed);
      }
    }
  }

  /** Decoding is the look-up of the parts read from the body of the frame. */
  lemma DecodeSteps(data: seq<byte>, d: Direction, body: seq<byte>, parts: Parts)
    requires Frame(data, true) == Success((d, body)) && SplitBody(body) == Success(parts)
    ensures Decode(data, true) == LookUp(d, parts)
  {
  }

  /** The parts of a member's own frame look up that member. */
  lemma LookUpOf(m: CdcMessage, parameter: Option<seq<byte>>, value: Option<seq<byte>>)
    requires parameter.Some? == ValueOf(m).parameterizable && value.Some? == ValueOf(m).valuable
    ensures LookUp(ValueOf(m).direction, Parts(ValueOf(m).token, parameter, value)) == Success((m, parameter, value))
  {
    var v := ValueOf(m);
    GetIff(m, v.direction, v.token, parameter.Some?, value.Some?);
  }

  /** An encoded frame is the direction byte, the body and '\r'. */
  lemma EncodeLayout(m: CdcMessage, parameter: Option<seq<byte>>, value: Option<seq<byte>>)
    requires Encode(m, parameter, value).Success?
    ensures Encode(m, parameter, value).value
      == [DirectionByte(ValueOf(m).direction)] + (ValueOf(m).token + ParameterPart(parameter) + ValuePart(value)) + [CR]
  {
  }

  /** The body of a member's own frame is read as its token, parameter and value. */
  lemma EncodeBody(m: CdcMessage, parameter: Option<seq<byte>>, value: Option<seq<byte>>)
    requires Encode(m, parameter, value).Success?
    requires parameter.Some? ==> |parameter.value| > 0 && COLON !in parameter.value && LF !in parameter.value
    requires value.Some? ==> COLON !in value.value
    ensures SplitBody(ValueOf(m).token + ParameterPart(parameter) + ValuePart(value))
      == Success(Parts(ValueOf(m).token, parameter, value))
  {
    TokenShape(m);
    SplitBodyOf(ValueOf(m).token, parameter, value);
  }

  /**
   * A frame `encode_cdc_message` builds decodes to the member, parameter
   * and value it was built from, when neither the parameter nor the value
   * holds a ':' and the parameter is non-empty without '\n'.
   */
  lemma DecodeEncode(m: CdcMessage, parameter: Option<seq<byte>>, value: Option<seq<byte>>)
    requires Encode(m, parameter, value).Success?
    requires parameter.Some? ==> |parameter.value| > 0 && COLON !in parameter.value && LF !in parameter.value
    requires value.Some? ==> COLON !in value.value
    ensures Decode(Encode(m, parameter, value).value, true) == Success((m, parameter, value))
  {
    var v := ValueOf(m);
    var body := v.token + ParameterPart(parameter) + ValuePart(value);
    EncodeLayout(m, parameter, value);
    FrameOf(v.direction, body);
    EncodeBody(m, parameter, value);
    LookUpOf(m, parameter, value);
    DecodeSteps(Encode(m, parameter, value).value, v.direction, body, Parts(v.token, parameter, value));
  }

  /**
   * Encoding what a frame without '\n' decodes to gives the frame back:
   * the split and the parameter pattern lose nothing of such a frame.
   */
  lemma EncodeDecode(data: seq<byte>)
    requires Decode(data, true).Success? && LF !in data
    ensures var d := Decode(data, true).value; Encode(d.0, d.1, d.2) == Success(data)
  {
    var frame := Frame(data, true).value;
    var parts := SplitBody(frame.1).value;
    DecodeSteps(data, frame.0, frame.1, parts);
    var d := Decode(data, true).value;
    assert Matches(d.0, frame.0, parts.token, parts.parameter.Some?, parts.value.Some?);
    assert LF !in frame.1;
    SplitBodyParts(frame.1);
    EncodeLayout(d.0, d.1, d.2);
  }

  /**
   * A '\n' after the closing ']' is lost on decoding, since `$` also
   * matches before a final '\n': the frame decodes like the one without it,
   * and encoding the result does not give it back.
   */
  lemma EncodeDecodeNeedsNoLineFeed(m: CdcMessage, parameter: seq<byte>, value: seq<byte>)
    requires ValueOf(m).parameterizable
    requires |parameter| > 0 && COLON !in parameter && LF !in parameter && COLON !in value
    ensures var v := ValueOf(m);
      var b := [DirectionByte(v.direction)] + (v.token + [LBRACKET] + parameter + [RBRACKET, LF] + [COLON] + value) + [CR];
      Decode(b, true) == Success((m, Some(parameter), Some(value)))
      && Encode(m, Some(parameter), Some(value)) != Success(b)
  {
    var v := ValueOf(m);
    var body := v.token + [LBRACKET] + parameter + [RBRACKET, LF] + [COLON] + value;
    TokenShape(m);
    FrameOf(v.direction, body);
    SplitBodyParameter(v.token, parameter, [RBRACKET, LF], value);
    LookUpOf(m, Some(parameter), Some(value));
    DecodeSteps([DirectionByte(v.direction)] + body + [CR], v.direction, body, Parts(v.token, Some(parameter), Some(value)));
    EncodeLayout(m, Some(parameter), Some(value));
  }
}
