/**
 * The decoder of iqrf/cdc/codec.py: the same frames as iqrf/cdc.py, with
 * the enumeration members renamed (COMMUNICATION_ERROR, DEVICE_RESET_REQUEST
 * and so on) and without an encoder.  Its members carry the same values as
 * those of iqrf/cdc.py, and `decode_cdc_message` decodes every input
 * exactly as the `check_terminator` decoder of iqrf/cdc.py does.
 */
module CdcTableDecoder {
  import opened Bytes
  import opened Wrappers
  import CdcTable

  /** The members of `CdcMessage`, in definition order. */
  datatype CdcMessage =
    | CommunicationError
    | CommunicationRequest | CommunicationResponse
    | DeviceResetRequest | DeviceResetResponse
    | ModuleResetRequest | ModuleResetResponse
    | DeviceInfoRequest | DeviceInfoResponse
    | ModuleInfoRequest | ModuleInfoResponse
    | ConnectivityIndicationRequest | ConnectivityIndicationResponse
    | SpiStatusRequest | SpiStatusResponse
    | SendDataRequest | SendDataResponse
    | ReceivedDataResponse
    | SwitchToCustomClassRequest | SwitchToCustomClassResponse
    | SwitchToUartRequest | SwitchToUartResponse
    | SwitchToSpiRequest | SwitchToSpiResponse

  /** `message.value`: `[id, direction, token, supports parameter, supports value]`. */
  function ValueOf(m: CdcMessage): CdcTable.MemberValue {
    var request := CdcTable.RequestDirection;
    var response := CdcTable.ResponseDirection;
    match m
    case CommunicationError => CdcTable.MemberValue(0, response, [0x45, 0x52, 0x52], false, false)         // "ERR"
    case CommunicationRequest => CdcTable.MemberValue(1, request, [], false, false)                        // ""
    case CommunicationResponse => CdcTable.MemberValue(2, response, [0x4F, 0x4B], false, false)            // "OK"
    case DeviceResetRequest => CdcTable.MemberValue(3, request, [0x52], false, false)                      // "R"
    case DeviceResetResponse => CdcTable.MemberValue(4, response, [0x52], false, true)
    case ModuleResetRequest => CdcTable.MemberValue(5, request, [0x52, 0x54], false, false)                // "RT"
    case ModuleResetResponse => CdcTable.MemberValue(6, response, [0x52, 0x54], false, true)
    case DeviceInfoRequest => CdcTable.MemberValue(7, request, [0x49], false, false)                       // "I"
    case DeviceInfoResponse => CdcTable.MemberValue(8, response, [0x49], false, true)
    case ModuleInfoRequest => CdcTable.MemberValue(9, request, [0x49, 0x54], false, false)                 // "IT"
    case ModuleInfoResponse => CdcTable.MemberValue(10, response, [0x49, 0x54], false, true)
    case ConnectivityIndicationRequest => CdcTable.MemberValue(11, request, [0x42], false, false)          // "B"
    case ConnectivityIndicationResponse => CdcTable.MemberValue(12, response, [0x42], false, true)
    case SpiStatusRequest => CdcTable.MemberValue(13, request, [0x53], false, false)                       // "S"
    case SpiStatusResponse => CdcTable.MemberValue(14, response, [0x53], false, true)
    case SendDataRequest => CdcTable.MemberValue(15, request, [0x44, 0x53], true, true)                    // "DS"
    case SendDataResponse => CdcTable.MemberValue(16, response, [0x44, 0x53], false, true)
    case ReceivedDataResponse => CdcTable.MemberValue(17, response, [0x44, 0x52], true, true)              // "DR"
    case SwitchToCustomClassRequest => CdcTable.MemberValue(18, request, [0x55], false, false)             // "U"
    case SwitchToCustomClassResponse => CdcTable.MemberValue(19, response, [0x55], false, true)
    case SwitchToUartRequest => CdcTable.MemberValue(20, request, [0x55, 0x55], false, false)              // "UU"
    case SwitchToUartResponse => CdcTable.MemberValue(21, response, [0x55, 0x55], false, true)
    case SwitchToSpiRequest => CdcTable.MemberValue(22, request, [0x55, 0x53], false, false)               // "US"
    case SwitchToSpiResponse => CdcTable.MemberValue(22, response, [0x55, 0x53], false, true)
  }

  /** The members in definition order, the order `for message in CdcMessage` visits them in. */
  const MEMBERS: seq<CdcMessage> := [
    CommunicationError,
    CommunicationRequest, CommunicationResponse,
    DeviceResetRequest, DeviceResetResponse,
    ModuleResetRequest, ModuleResetResponse,
    DeviceInfoRequest, DeviceInfoResponse,
    ModuleInfoRequest, ModuleInfoResponse,
    ConnectivityIndicationRequest, ConnectivityIndicationResponse,
    SpiStatusRequest, SpiStatusResponse,
    SendDataRequest, SendDataResponse,
    ReceivedDataResponse,
    SwitchToCustomClassRequest, SwitchToCustomClassResponse,
    SwitchToUartRequest, SwitchToUartResponse,
    SwitchToSpiRequest, SwitchToSpiResponse]

  /** This enumeration repeats the id 22 of iqrf/cdc.py as well. */
  lemma IdsRepeat()
    ensures SwitchToSpiRequest != SwitchToSpiResponse && ValueOf(SwitchToSpiRequest).id == ValueOf(SwitchToSpiResponse).id
  {
  }

  /** The member of this enumeration that stands where `m` stands in the enumeration of iqrf/cdc.py. */
  function Renamed(m: CdcTable.CdcMessage): CdcMessage {
    match m
    case Error => CommunicationError
    case Test => CommunicationRequest
    case TestResponse => CommunicationResponse
    case Reset => DeviceResetRequest
    case ResetResponse => DeviceResetResponse
    case TrReset => ModuleResetRequest
    case TrResetResponse => ModuleResetResponse
    case Info => DeviceInfoRequest
    case InfoResponse => DeviceInfoResponse
    case TrInfo => ModuleInfoRequest
    case TrInfoResponse => ModuleInfoResponse
    case Indication => ConnectivityIndicationRequest
    case IndicationResponse => ConnectivityIndicationResponse
    case SpiStatus => SpiStatusRequest
    case SpiStatusResponse => SpiStatusResponse
    case SendData => SendDataRequest
    case SendDataResponse => SendDataResponse
    case ReceivedData => ReceivedDataResponse
    case SwitchToCustomClass => SwitchToCustomClassRequest
    case SwitchToCustomClassResponse => SwitchToCustomClassResponse
    case SwichToUart => SwitchToUartRequest
    case SwichToUartResponse => SwitchToUartResponse
    case SwitchToSpi => SwitchToSpiRequest
    case SwitchToSpiResponse => SwitchToSpiResponse
  }

  /** The member of iqrf/cdc.py a member of this enumeration was renamed from. */
  function Original(t: CdcMessage): (m: CdcTable.CdcMessage)
    ensures Renamed(m) == t
  {
    match t
    case CommunicationError => CdcTable.Error
    case CommunicationRequest => CdcTable.Test
    case CommunicationResponse => CdcTable.TestResponse
    case DeviceResetRequest => CdcTable.Reset
    case DeviceResetResponse => CdcTable.ResetResponse
    case ModuleResetRequest => CdcTable.TrReset
    case ModuleResetResponse => CdcTable.TrResetResponse
    case DeviceInfoRequest => CdcTable.Info
    case DeviceInfoResponse => CdcTable.InfoResponse
    case ModuleInfoRequest => CdcTable.TrInfo
    case ModuleInfoResponse => CdcTable.TrInfoResponse
    case ConnectivityIndicationRequest => CdcTable.Indication
    case ConnectivityIndicationResponse => CdcTable.IndicationResponse
    case SpiStatusRequest => CdcTable.SpiStatus
    case SpiStatusResponse => CdcTable.SpiStatusResponse
    case SendDataRequest => CdcTable.SendData
    case SendDataResponse => CdcTable.SendDataResponse
    case ReceivedDataResponse => CdcTable.ReceivedData
    case SwitchToCustomClassRequest => CdcTable.SwitchToCustomClass
    case SwitchToCustomClassResponse => CdcTable.SwitchToCustomClassResponse
    case SwitchToUartRequest => CdcTable.SwichToUart
    case SwitchToUartResponse => CdcTable.SwichToUartResponse
    case SwitchToSpiRequest => CdcTable.SwitchToSpi
    case SwitchToSpiResponse => CdcTable.SwitchToSpiResponse
  }

  /** A renamed member carries the value of the member of iqrf/cdc.py it was renamed from. */
  lemma RenamedValue(m: CdcTable.CdcMessage)
    ensures ValueOf(Renamed(m)) == CdcTable.ValueOf(m)
  {
  }

  /** The renaming is one to one. */
  lemma RenamedInjective(a: CdcTable.CdcMessage, b: CdcTable.CdcMessage)
    ensures Renamed(a) == Renamed(b) <==> a == b
  {
    OriginalRenamed(a);
    OriginalRenamed(b);
  }

  /** Renaming a member of iqrf/cdc.py and taking the original back gives that member. */
  lemma OriginalRenamed(m: CdcTable.CdcMessage)
    ensures Original(Renamed(m)) == m
  {
  }

  /** The renaming keeps the definition order. */
  lemma RenamedMembers()
    ensures |MEMBERS| == |CdcTable.MEMBERS|
    ensures forall i :: 0 <= i < |MEMBERS| ==> MEMBERS[i] == Renamed(CdcTable.MEMBERS[i])
  {
    RenamedFirstHalf();
    RenamedSecondHalf();
  }

  /** The first twelve members are renamed in order. */
  lemma RenamedFirstHalf()
    ensures forall i :: 0 <= i < 12 ==> MEMBERS[i] == Renamed(CdcTable.MEMBERS[i])
  {
    forall i | 0 <= i < 12
      ensures MEMBERS[i] == Renamed(CdcTable.MEMBERS[i])
    {
      assert CdcTable.Position(CdcTable.MEMBERS[i]) == i;
    }
  }

  /** The last twelve members are renamed in order. */
  lemma RenamedSecondHalf()
    ensures forall i :: 12 <= i < 24 ==> MEMBERS[i] == Renamed(CdcTable.MEMBERS[i])
  {
    forall i | 12 <= i < 24
      ensures MEMBERS[i] == Renamed(CdcTable.MEMBERS[i])
    {
      assert CdcTable.Position(CdcTable.MEMBERS[i]) == i;
    }
  }

  /** The member agrees with the observed direction, token and presence of parameter and value. */
  predicate Matches(m: CdcMessage, direction: CdcTable.Direction, token: seq<byte>, parameter: bool, value: bool) {
    var v := ValueOf(m);
    v.direction == direction && v.token == token && v.parameterizable == parameter && v.valuable == value
  }

  /** The first of `members` that matches: the loop of `_get_message_type_by_parameters`. */
  function FirstMatch(members: seq<CdcMessage>, direction: CdcTable.Direction, token: seq<byte>, parameter: bool, value: bool)
    : (r: Option<CdcMessage>)
    ensures r.None? <==> forall i :: 0 <= i < |members| ==> !Matches(members[i], direction, token, parameter, value)
    ensures r.Some? ==> exists i :: 0 <= i < |members| && members[i] == r.value
                                    && Matches(r.value, direction, token, parameter, value)
                                    && forall j :: 0 <= j < i ==> !Matches(members[j], direction, token, parameter, value)
  {
    if |members| == 0 then None
    else if Matches(members[0], direction, token, parameter, value) then Some(members[0])
    else
      var r := FirstMatch(members[1..], direction, token, parameter, value);
      assert forall i :: 0 < i < |members| ==> members[i] == members[1..][i - 1];
      r
  }

  /** `_get_message_type_by_parameters(direction, token, parameter, value)`. */
  function MessageTypeByParameters(direction: CdcTable.Direction, token: seq<byte>, parameter: bool, value: bool)
    : Option<CdcMessage>
  {
    FirstMatch(MEMBERS, direction, token, parameter, value)
  }

  /** What `decode_cdc_message` returns: the member, the parameter and the value. */
  type Decoded = (CdcMessage, Option<seq<byte>>, Option<seq<byte>>)

  /**
   * `decode_cdc_message(data)`: demand the final '\r', take the direction
   * from the first byte and the body from between it and the '\r', read the
   * body as iqrf/cdc.py does, and look the member up.
   */
  function Decode(data: seq<byte>): (r: Result<Decoded, CdcTable.CodecError>)
    ensures r.Failure? ==> r.error == CdcTable.DecodeError
    ensures r.Success? ==> |data| >= 2 && data[|data| - 1] == CR && (data[0] == GT || data[0] == LT)
  {
    if |data| == 0 || data[|data| - 1] != CR then Failure(CdcTable.DecodeError)
    else if data[0] != GT && data[0] != LT then Failure(CdcTable.DecodeError)
    else
      var direction := if data[0] == GT then CdcTable.RequestDirection else CdcTable.ResponseDirection;
      var parts :- CdcTable.SplitBody(data[1..|data| - 1]);
      match MessageTypeByParameters(direction, parts.token, parts.parameter.Some?, parts.value.Some?)
      case None => Failure(CdcTable.DecodeError)
      case Some(m) => Success((m, parts.parameter, parts.value))
  }

  /** A result of iqrf/cdc.py with its member renamed. */
  function Translate(r: Result<CdcTable.Decoded, CdcTable.CodecError>): Result<Decoded, CdcTable.CodecError> {
    match r
    case Success(d) => Success((Renamed(d.0), d.1, d.2))
    case Failure(e) => Failure(e)
  }

  /** Over renamed members, the first match is the renamed first match of iqrf/cdc.py. */
  lemma {:induction false} FirstMatchRenamed(members: seq<CdcTable.CdcMessage>, renamed: seq<CdcMessage>,
                                             direction: CdcTable.Direction, token: seq<byte>, parameter: bool, value: bool)
    requires |renamed| == |members| && forall i :: 0 <= i < |members| ==> renamed[i] == Renamed(members[i])
    ensures var r := CdcTable.First(members, direction, token, parameter, value);
      FirstMatch(renamed, direction, token, parameter, value) == if r.Some? then Some(Renamed(r.value)) else None
  {
    if |members| > 0 {
      RenamedValue(members[0]);
      FirstMatchRenamed(members[1..], renamed[1..], direction, token, parameter, value);
    }
  }

  /** `_get_message_type_by_parameters` finds the renamed member `CdcMessage.get` of iqrf/cdc.py finds. */
  lemma MessageTypeByParametersRenamed(direction: CdcTable.Direction, token: seq<byte>, parameter: bool, value: bool)
    ensures var r := CdcTable.Get(direction, token, parameter, value);
      MessageTypeByParameters(direction, token, parameter, value) == if r.Some? then Some(Renamed(r.value)) else None
  {
    RenamedMembers();
    FirstMatchRenamed(CdcTable.MEMBERS, MEMBERS, direction, token, parameter, value);
  }

  /** Both revisions strip the same direction byte and '\r' and keep the same body. */
  lemma FrameAgrees(data: seq<byte>)
    requires |data| > 0 && data[|data| - 1] == CR
    ensures CdcTable.Frame(data, true).Success? <==> data[0] == GT || data[0] == LT
    ensures CdcTable.Frame(data, true).Success? ==>
      CdcTable.Frame(data, true).value.1 == data[1..|data| - 1]
      && (CdcTable.Frame(data, true).value.0 == CdcTable.RequestDirection <==> data[0] == GT)
  {
    if data[0] == GT || data[0] == LT {
      assert |data| >= 2;
      assert data[..|data| - 1][1..] == data[1..|data| - 1];
    }
  }

  /**
   * `decode_cdc_message` of iqrf/cdc/codec.py accepts exactly the frames
   * `decode_cdc_message(data, True)` of iqrf/cdc.py accepts, and decodes
   * them to the renamed member, the same parameter and the same value.
   */
  lemma DecodeAgrees(data: seq<byte>)
    ensures Decode(data) == Translate(CdcTable.Decode(data, true))
  {
    if |data| > 0 && data[|data| - 1] == CR {
      FrameAgrees(data);
      if data[0] == GT || data[0] == LT {
        var frame := CdcTable.Frame(data, true).value;
        var split := CdcTable.SplitBody(frame.1);
        if split.Success? {
          var parts := split.value;
          CdcTable.DecodeSteps(data, frame.0, frame.1, parts);
          MessageTypeByParametersRenamed(frame.0, parts.token, parts.parameter.Some?, parts.value.Some?);
        }
      }
    }
  }

  /**
   * A frame encoded by iqrf/cdc.py decodes here to the renamed member, when
   * neither the parameter nor the value holds a ':' and the parameter is
   * non-empty without '\n'.
   */
  lemma DecodeEncoded(m: CdcTable.CdcMessage, parameter: Option<seq<byte>>, value: Option<seq<byte>>)
    requires CdcTable.Encode(m, parameter, value).Success?
    requires parameter.Some? ==> |parameter.value| > 0 && COLON !in parameter.value && LF !in parameter.value
    requires value.Some? ==> COLON !in value.value
    ensures Decode(CdcTable.Encode(m, parameter, value).value) == Success((Renamed(m), parameter, value))
  {
    CdcTable.DecodeEncode(m, parameter, value);
    DecodeAgrees(CdcTable.Encode(m, parameter, value).value);
  }

  /** A frame without '\n' that decodes here is the frame iqrf/cdc.py encodes from the decoded parts. */
  lemma EncodeDecoded(data: seq<byte>)
    requires Decode(data).Success? && LF !in data
    ensures var d := Decode(data).value;
      CdcTable.Encode(Original(d.0), d.1, d.2) == Success(data)
  {
    DecodeAgrees(data);
    CdcTable.EncodeDecode(data);
    var d := CdcTable.Decode(data, true).value;
    RenamedInjective(Original(Renamed(d.0)), d.0);
  }
}
