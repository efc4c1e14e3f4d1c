/**
 * The binary SPI frame codec of the IQRF transceiver link
 * (src/iqrf/transport/spi_codec.py).
 *
 * A request frame is: command byte, command-type byte (a direction bit
 * over a 7-bit length), the payload, an XOR checksum seeded with 0x5F
 * over everything before it, and a trailing 0x00 "check" byte.  The frame
 * clocked back by the transceiver has the same length; its payload sits
 * at indices 2 .. len-3, its checksum at len-2 and its status 0x3F
 * ("CRC OK") at len-1.
 *
 * Values the Python code keeps as `int` (the command-type byte, whose
 * length part is not masked) are `nat` here; `bytes(...)` rejecting a
 * value of 256 or more is the `ValueError` outcome.
 */
module SpiCodec {
  import opened Bytes
  import opened Wrappers

  // SpiToken
  const COMMAND_CHECK: byte := 0x00
  const COMMAND_READ_WRITE: byte := 0xF0
  const COMMAND_TR_INFO: byte := 0xF5

  const STATUS_INACTIVE: byte := 0x00
  const STATUS_SUSPENDED: byte := 0x07
  const STATUS_CRC_OK: byte := 0x3F
  const STATUS_CRC_ERROR: byte := 0x3E
  const STATUS_COMMUNICATION_MODE: byte := 0x80
  const STATUS_PROGRAMMING_MODE: byte := 0x81
  const STATUS_DEBUG_MODE: byte := 0x82
  const STATUS_HW_ERROR: byte := 0xFF

  const DATA_READY_MIN: byte := 0x40
  const DATA_READY_MAX: byte := 0x7F

  /** The length of the payload of a TR info exchange. */
  const TR_INFO_LENGTH: nat := 16

  /** The exceptions the codec (and `bytes`, and indexing) can raise. */
  datatype SpiError =
    | SpiDecodeError
    | SpiCodecError
    | ValueError       // `bytes([...])` given a value of 256 or more
    | IndexError       // `data[-1]` or `data[-2]` of a too short frame
    | NotImplemented   // `Message.encode` of a class that does not override it

  /*
   * Checksum
   */

  /** The XOR of all bytes of `s` (0 for the empty sequence). */
  function XorAll(s: seq<byte>): byte {
    if s == [] then 0 else XorAll(s[..|s| - 1]) ^ s[|s| - 1]
  }

  /** The IQRF SPI checksum of a run of bytes: 0x5F XOR every byte. */
  function CrcOf(s: seq<byte>): byte {
    0x5F ^ XorAll(s)
  }

  /**
   * `calculate_crc(data, offset, length)`: the third argument is an END
   * index; `range(offset, length)` is empty when `length <= offset`, so such
   * a call yields the seed 0x5F without touching `data`.  Otherwise every
   * index visited must exist.
   */
  function RangeCrc(data: seq<byte>, offset: int, end: int): byte
    requires end <= offset || (0 <= offset && end <= |data|)
  {
    if end <= offset then 0x5F else CrcOf(data[offset..end])
  }

  method CalculateCrc(data: seq<byte>, offset: int, end: int) returns (crc: byte)
    requires end <= offset || (0 <= offset && end <= |data|)
    ensures crc == RangeCrc(data, offset, end)
  {
    crc := 0x5F;
    if end <= offset {
      return;
    }
    var i := offset;
    while i < end
      invariant offset <= i <= end
      invariant crc == CrcOf(data[offset..i])
    {
      assert data[offset..i + 1][..i - offset] == data[offset..i];
      crc := crc ^ data[i];
      i := i + 1;
    }
  }

  lemma {:induction false} XorAllConcat(a: seq<byte>, b: seq<byte>)
    ensures XorAll(a + b) == XorAll(a) ^ XorAll(b)
    decreases |b|
  {
    if b == [] {
      assert a + b == a;
    } else {
      var b' := b[..|b| - 1];
      assert (a + b)[..|a + b| - 1] == a + b';
      XorAllConcat(a, b');
    }
  }

  lemma {:induction false} XorAllZeros(n: nat)
    ensures XorAll(Zeros(n)) == 0
  {
    if n > 0 {
      assert Zeros(n)[..n - 1] == Zeros(n - 1);
      XorAllZeros(n - 1);
    }
  }

  /**
   * Replacing one byte changes the XOR by exactly the difference of the two
   * bytes.
   */
  lemma XorAllUpdate(s: seq<byte>, k: nat, v: byte)
    requires k < |s|
    ensures XorAll(s[k := v]) == XorAll(s) ^ s[k] ^ v
  {
    var a, t := s[..k], s[k + 1..];
    assert s == (a + [s[k]]) + t;
    assert s[k := v] == (a + [v]) + t;
    var x, y, z := XorAll(a), XorAll(t), s[k];
    XorAllSnoc(a, z);
    XorAllSnoc(a, v);
    XorAllConcat(a + [z], t);
    XorAllConcat(a + [v], t);
    XorSwap(x, y, z, v);
  }

  /** Hence the checksum detects every single-byte change. */
  lemma CrcDetectsUpdate(s: seq<byte>, k: nat, v: byte)
    requires k < |s| && v != s[k]
    ensures CrcOf(s[k := v]) != CrcOf(s)
  {
    XorAllUpdate(s, k, v);
    var x, z := XorAll(s), s[k];
    XorChanged(x, z, v);
  }

  lemma XorChanged(x: byte, z: byte, v: byte)
    requires z != v
    ensures 0x5F ^ (x ^ z ^ v) != 0x5F ^ x
  {
  }

  lemma XorAllSnoc(a: seq<byte>, z: byte)
    ensures XorAll(a + [z]) == XorAll(a) ^ z
  {
    assert (a + [z])[..|a|] == a;
  }

  lemma XorSwap(x: byte, y: byte, z: byte, v: byte)
    ensures (x ^ v) ^ y == ((x ^ z) ^ y) ^ z ^ v
  {
  }

  /*
   * Command type
   */

  /**
   * `encode_command_type(direction, length)`: `(direction << 7 & 0x80) | length`
   * for a non-negative length, written out on integers.  The length is not
   * masked: a length with bit 7 set absorbs the direction bit, and a length
   * of 256 or more gives a value `bytes` rejects.
   */
  function EncodeCommandType(direction: nat, length: nat): (r: nat)
    ensures r < 256 <==> length < 256
    ensures length < 128 ==> r == (direction % 2) * 128 + length
  {
    if direction % 2 == 1 && (length / 128) % 2 == 0 then length + 128 else length
  }

  /**
   * `decode_command_type(byte)`: `((byte & 0x80) >> 7, byte & 0x7F)`, which
   * for a value under 256 is its bit 7 and its low seven bits.
   */
  function DecodeCommandType(b: byte): (nat, nat) {
    (b as nat / 128, b as nat % 128)
  }

  /** A direction bit and a 7-bit length survive encoding and decoding. */
  lemma CommandTypeRoundTrip(direction: nat, length: nat)
    requires direction <= 1 && length < 128
    ensures EncodeCommandType(direction, length) < 256
    ensures DecodeCommandType(EncodeCommandType(direction, length) as byte) == (direction, length)
  {
    var r := EncodeCommandType(direction, length);
    assert r == direction * 128 + length;
    ByteNat(r);
    assert r / 128 == direction && r % 128 == length by {
      if direction == 0 { assert r == length; } else { assert r == 128 + length; }
    }
  }

  /** Every byte is the encoding of its decoded direction and length. */
  lemma CommandTypeDecodeEncode(b: byte)
    ensures EncodeCommandType(DecodeCommandType(b).0, DecodeCommandType(b).1) == b as nat
  {
  }

  /*
   * Request encoders
   */

  /** `generate_clock_data(n)`: the zero bytes clocked out while reading. */
  function Zeros(n: nat): (r: seq<byte>)
    ensures |r| == n && forall i :: 0 <= i < n ==> r[i] == 0
  {
    seq(n, _ => 0)
  }

  /**
   * What the transceiver makes of a request frame: the command, the
   * direction bit and the payload, once it has checked that the frame ends
   * in the check byte, that the checksum covers everything before it and
   * that the 7-bit length agrees with the payload.  Independent of the
   * encoders, this is the reference they are proved against.
   */
  function ParseRequestFrame(f: seq<byte>): Option<(byte, nat, seq<byte>)> {
    if |f| < 4 || f[|f| - 1] != COMMAND_CHECK || f[|f| - 2] != CrcOf(f[..|f| - 2]) then None
    else
      var (direction, length) := DecodeCommandType(f[1]);
      if length != |f| - 4 then None else Some((f[0], direction, f[2..|f| - 2]))
  }

  /**
   * The layout every request encoder produces: `command`, the command-type
   * value, the payload, the checksum of all of them, the check byte.
   */
  predicate IsRequestFrame(f: seq<byte>, command: byte, direction: nat, payload: seq<byte>) {
    |f| == |payload| + 4 && f[0] == command
    && f[1] as nat == EncodeCommandType(direction, |payload|)
    && f[2..|f| - 2] == payload
    && f[|f| - 2] == CrcOf(f[..|f| - 2]) && f[|f| - 1] == COMMAND_CHECK
  }

  /**
   * The frame the request encoders build by appending to a list.  A
   * command-type value of 256 or more makes `bytes(data)` raise.
   */
  method BuildFrame(command: byte, direction: nat, payload: seq<byte>)
    returns (r: Result<seq<byte>, SpiError>)
    requires direction <= 1
    ensures r.Failure? <==> |payload| >= 256
    ensures r.Failure? ==> r.error == ValueError
    ensures r.Success? ==> IsRequestFrame(r.value, command, direction, payload)
    ensures r.Success? && |payload| < 128 ==>
      ParseRequestFrame(r.value) == Some((command, direction, payload))
  {
    var commandType := EncodeCommandType(direction, |payload|);
    if commandType >= 256 {
      // the checksum is computed first, but `bytes(data)` then rejects the
      // command-type value: the outcome is the same ValueError
      return Failure(ValueError);
    }
    var data: seq<byte> := [];
    data := data + [command];
    data := data + [commandType as byte];
    data := data + payload;
    var crc := CalculateCrc(data, 0, |data|);
    assert data[0..|data|] == data;
    assert data == [command, commandType as byte] + payload;
    FrameOf(command, direction, payload, crc);
    data := data + [crc];
    data := data + [COMMAND_CHECK];
    r := Success(data);
  }

  /** The appended pieces form a request frame, which parses back when the length fits 7 bits. */
  lemma FrameOf(command: byte, direction: nat, payload: seq<byte>, crc: byte)
    requires direction <= 1 && |payload| < 256
    requires crc == CrcOf([command, EncodeCommandType(direction, |payload|) as byte] + payload)
    ensures IsRequestFrame([command, EncodeCommandType(direction, |payload|) as byte] + payload + [crc] + [COMMAND_CHECK],
      command, direction, payload)
    ensures |payload| < 128 ==>
      ParseRequestFrame([command, EncodeCommandType(direction, |payload|) as byte] + payload + [crc] + [COMMAND_CHECK])
        == Some((command, direction, payload))
  {
    var body := [command, EncodeCommandType(direction, |payload|) as byte] + payload;
    var f := body + [crc] + [COMMAND_CHECK];
    ByteNat(EncodeCommandType(direction, |payload|));
    assert f[..|f| - 2] == body;
    assert f[2..|f| - 2] == payload;
    if |payload| < 128 {
      CommandTypeRoundTrip(direction, |payload|);
    }
  }

  /** `TrInfoRequest.encode()`: F5 10, sixteen clock bytes, checksum, 00. */
  method EncodeTrInfoRequest() returns (f: seq<byte>)
    ensures |f| == 20 && f[0] == COMMAND_TR_INFO && f[1] == 0x10
    ensures f[2..18] == Zeros(TR_INFO_LENGTH)
    ensures f[18] == CrcOf(f[..18]) && f[19] == COMMAND_CHECK
    ensures IsRequestFrame(f, COMMAND_TR_INFO, 0, Zeros(TR_INFO_LENGTH))
    ensures ParseRequestFrame(f) == Some((COMMAND_TR_INFO, 0, Zeros(TR_INFO_LENGTH)))
  {
    var r := BuildFrame(COMMAND_TR_INFO, 0, Zeros(TR_INFO_LENGTH));
    f := r.value;
  }

  /**
   * `DataSendRequest(data).encode()`: F0, the length with the direction bit
   * set, the payload, checksum, 00.  A payload of 256 bytes or more makes
   * `bytes` raise; one of 128..255 bytes is encoded with a length byte that
   * does not describe it (bit 7 of the length absorbs the direction bit),
   * so only payloads under 128 bytes parse back.
   */
  method EncodeDataSendRequest(payload: seq<byte>) returns (r: Result<seq<byte>, SpiError>)
    ensures r.Failure? <==> |payload| >= 256
    ensures r.Failure? ==> r.error == ValueError
    ensures r.Success? ==> IsRequestFrame(r.value, COMMAND_READ_WRITE, 1, payload)
    ensures r.Success? && |payload| < 128 ==>
      ParseRequestFrame(r.value) == Some((COMMAND_READ_WRITE, 1, payload))
  {
    r := BuildFrame(COMMAND_READ_WRITE, 1, payload);
  }

  /**
   * `_DataReceiveRequest(n).encode()`: F0, n (direction bit clear), n clock
   * bytes, checksum, 00.
   */
  method EncodeDataReceiveRequest(length: nat) returns (r: Result<seq<byte>, SpiError>)
    ensures r.Failure? <==> length >= 256
    ensures r.Failure? ==> r.error == ValueError
    ensures r.Success? ==> IsRequestFrame(r.value, COMMAND_READ_WRITE, 0, Zeros(length))
    ensures r.Success? ==> r.value[1] as nat == length
    ensures r.Success? && length < 128 ==>
      ParseRequestFrame(r.value) == Some((COMMAND_READ_WRITE, 0, Zeros(length)))
  {
    r := BuildFrame(COMMAND_READ_WRITE, 0, Zeros(length));
  }

  /*
   * Response decoders
   */

  /**
   * `TrInfoResponse.decode(f)`: exactly 20 bytes, status 0x3F last, and the
   * checksum byte at 18 equal to the checksum of bytes 2..17 XOR 0x10;
   * the result is the 16 payload bytes.
   */
  function DecodeTrInfoResponse(f: seq<byte>): (r: Result<seq<byte>, SpiError>)
    ensures r.Failure? ==> r.error == SpiDecodeError
    ensures |f| != 20 || f[|f| - 1] != STATUS_CRC_OK ==> r.Failure?
  {
    if |f| != 20 then Failure(SpiDecodeError)
    else if f[19] != STATUS_CRC_OK then Failure(SpiDecodeError)
    else if RangeCrc(f, 2, 18) ^ (EncodeCommandType(0, 16) as byte) != f[18] then Failure(SpiDecodeError)
    else Success(f[2..18])
  }

  /**
   * The check shared by `DataSendResponse.decode` and
   * `_DataReceiveResponse.decode`, with the direction bit they use (1 and
   * 0).  Python evaluates `data[-1]` first (an empty frame raises
   * IndexError), then the checksum expression, then `data[-2]` (a one-byte
   * frame raises IndexError there).  For frames of two or three bytes the
   * command-type value is negative, so the comparison fails; from four bytes
   * on, a command-type value of 256 or more can never equal a byte.
   */
  function CheckReadWriteResponse(f: seq<byte>, direction: nat): Result<(), SpiError> {
    if |f| == 0 then Failure(IndexError)
    else if f[|f| - 1] != STATUS_CRC_OK then Failure(SpiDecodeError)
    else if |f| == 1 then Failure(IndexError)
    else if |f| < 4 then Failure(SpiDecodeError)
    else
      var commandType := EncodeCommandType(direction, |f| - 4);
      if commandType >= 256 then Failure(SpiDecodeError)
      else if RangeCrc(f, 2, |f| - 2) ^ (commandType as byte) != f[|f| - 2] then Failure(SpiDecodeError)
      else Success(())
  }

  /** `DataSendResponse.decode(f)`: the check with direction bit 1. */
  function DecodeDataSendResponse(f: seq<byte>): Result<(), SpiError> {
    CheckReadWriteResponse(f, 1)
  }

  /** `_DataReceiveResponse.decode(f)`: the check with direction bit 0, then f[2:-2]. */
  function DecodeDataReceiveResponse(f: seq<byte>): (r: Result<seq<byte>, SpiError>)
    ensures r.Success? ==> |f| >= 4 && r.value == f[2..|f| - 2]
  {
    var _ :- CheckReadWriteResponse(f, 0);
    Success(f[2..|f| - 2])
  }

  /**
   * The frame a transceiver clocks back for a read/write of `payload` in
   * `direction`: two status bytes it is free to choose, the payload, the
   * payload's checksum folded with the command type, and 0x3F.
   */
  function ReplyFrame(s0: byte, s1: byte, direction: nat, payload: seq<byte>): seq<byte>
    requires EncodeCommandType(direction, |payload|) < 256
  {
    [s0, s1] + payload
      + [CrcOf(payload) ^ (EncodeCommandType(direction, |payload|) as byte), STATUS_CRC_OK]
  }

  /** Every well-formed reply passes the check, and only well-formed replies do. */
  lemma ReadWriteResponseExact(f: seq<byte>, direction: nat)
    ensures CheckReadWriteResponse(f, direction).Success? <==>
      |f| >= 4 && EncodeCommandType(direction, |f| - 4) < 256
      && f == ReplyFrame(f[0], f[1], direction, f[2..|f| - 2])
  {
    if |f| >= 4 && EncodeCommandType(direction, |f| - 4) < 256 {
      var p := f[2..|f| - 2];
      assert f[2..|f| - 2] == p;
      var g := ReplyFrame(f[0], f[1], direction, p);
      assert |g| == |f|;
      if f == g {
        assert f[|f| - 2] == g[|g| - 2];
      }
      if CheckReadWriteResponse(f, direction).Success? {
        assert forall i :: 0 <= i < |f| ==> f[i] == g[i];
      }
    }
  }

  /** A transceiver reply to a receive request decodes to the payload it carries. */
  lemma DataReceiveResponseComplete(s0: byte, s1: byte, payload: seq<byte>)
    requires |payload| < 256
    ensures DecodeDataReceiveResponse(ReplyFrame(s0, s1, 0, payload)) == Success(payload)
  {
    var f := ReplyFrame(s0, s1, 0, payload);
    ReadWriteResponseExact(f, 0);
    assert f[2..|f| - 2] == payload;
  }

  /** A transceiver reply to a send request of under 128 bytes is accepted. */
  lemma DataSendResponseComplete(s0: byte, s1: byte, payload: seq<byte>)
    requires |payload| < 128
    ensures DecodeDataSendResponse(ReplyFrame(s0, s1, 1, payload)).Success?
  {
    var f := ReplyFrame(s0, s1, 1, payload);
    ReadWriteResponseExact(f, 1);
    assert f[2..|f| - 2] == payload;
  }

  /**
   * `TrInfoResponse.decode` succeeds exactly on 20-byte transceiver replies
   * to a direction-0 request of 16 bytes, and returns their payload.
   */
  lemma TrInfoResponseExact(f: seq<byte>)
    ensures DecodeTrInfoResponse(f).Success? <==> |f| == 20 && f == ReplyFrame(f[0], f[1], 0, f[2..18])
    ensures DecodeTrInfoResponse(f).Success? ==> DecodeTrInfoResponse(f).value == f[2..18]
  {
    if |f| == 20 {
      ReadWriteResponseExact(f, 0);
      assert f[2..|f| - 2] == f[2..18];
    }
  }

  /**
   * On 20-byte frames the TR info decoder and the receive-response decoder
   * agree: the dedicated decoder is the generic check for 16 bytes.
   */
  lemma TrInfoIsDataReceive(f: seq<byte>)
    requires |f| == 20
    ensures DecodeTrInfoResponse(f) == DecodeDataReceiveResponse(f)
  {
  }

  /**
   * Changing any one payload byte of an accepted TR info reply, checksum
   * byte kept, makes the decoder reject it.
   */
  lemma TrInfoTamperDetected(f: seq<byte>, k: nat, v: byte)
    requires DecodeTrInfoResponse(f).Success?
    requires 2 <= k < 18 && v != f[k]
    ensures DecodeTrInfoResponse(f[k := v]).Failure?
  {
    var g := f[k := v];
    assert g[2..18] == f[2..18][k - 2 := v];
    CrcDetectsUpdate(f[2..18], k - 2, v);
  }

  /** The same for the payload of any read/write reply. */
  lemma ReadWriteTamperDetected(f: seq<byte>, direction: nat, k: nat, v: byte)
    requires CheckReadWriteResponse(f, direction).Success?
    requires 2 <= k < |f| - 2 && v != f[k]
    ensures CheckReadWriteResponse(f[k := v], direction).Failure?
  {
    var g := f[k := v];
    assert g[2..|g| - 2] == f[2..|f| - 2][k - 2 := v];
    CrcDetectsUpdate(f[2..|f| - 2], k - 2, v);
  }

  /*
   * Messages
   */

  /**
   * The SPI message classes.  `_DataReceiveResponse` derives from
   * `SpiRequest` in the source (not from `SpiResponse`), which `IsRequest`
   * keeps.
   */
  datatype SpiMessage =
    | TrInfoRequest
    | DataSendRequest(data: seq<byte>)
    | DataReceiveRequest(length: nat)
    | DataReceiveResponse(data: seq<byte>)
    | TrInfoResponse(data: seq<byte>)
    | DataSendResponse
    | DataReceivedReaction(data: seq<byte>)

  /** `isinstance(m, SpiRequest)`. */
  predicate IsRequest(m: SpiMessage) {
    m.TrInfoRequest? || m.DataSendRequest? || m.DataReceiveRequest? || m.DataReceiveResponse?
  }

  /**
   * `m.encode()` for a request: `_DataReceiveResponse` inherits the
   * abstract `Message.encode`, which raises NotImplementedError.
   */
  method Encode(m: SpiMessage) returns (r: Result<seq<byte>, SpiError>)
    requires IsRequest(m)
    ensures m.DataReceiveResponse? ==> r == Failure(NotImplemented)
    ensures !m.DataReceiveResponse? && r.Failure? ==> r.error == ValueError
    ensures m.TrInfoRequest? ==> r.Success? && IsRequestFrame(r.value, COMMAND_TR_INFO, 0, Zeros(TR_INFO_LENGTH))
    ensures m.DataSendRequest? && r.Success? ==> IsRequestFrame(r.value, COMMAND_READ_WRITE, 1, m.data)
    ensures m.DataReceiveRequest? && r.Success? ==> IsRequestFrame(r.value, COMMAND_READ_WRITE, 0, Zeros(m.length))
    ensures m.TrInfoRequest? ==> r.Success? && ParseRequestFrame(r.value) == Some((COMMAND_TR_INFO, 0, Zeros(TR_INFO_LENGTH)))
    ensures m.DataSendRequest? ==> (r.Success? <==> |m.data| < 256)
    ensures m.DataSendRequest? && |m.data| < 128 ==>
      r.Success? && ParseRequestFrame(r.value) == Some((COMMAND_READ_WRITE, 1, m.data))
    ensures m.DataReceiveRequest? ==> (r.Success? <==> m.length < 256)
    ensures m.DataReceiveRequest? && r.Success? ==> |r.value| == m.length + 4
    ensures m.DataReceiveRequest? && m.length < 128 ==>
      r.Success? && ParseRequestFrame(r.value) == Some((COMMAND_READ_WRITE, 0, Zeros(m.length)))
  {
    match m
    case TrInfoRequest =>
      var f := EncodeTrInfoRequest();
      r := Success(f);
    case DataSendRequest(data) =>
      r := EncodeDataSendRequest(data);
    case DataReceiveRequest(length) =>
      r := EncodeDataReceiveRequest(length);
    case DataReceiveResponse(_) =>
      r := Failure(NotImplemented);
  }
}
