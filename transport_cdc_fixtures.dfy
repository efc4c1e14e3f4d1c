/**
 * The frames of the transport codec's test suite
 * (tests/cdc/iqrf_codec_test.py:5-28), each encoded from its message and
 * decoded back to it.
 */
module TransportCdcFixtures {
  import opened Bytes
  import opened Wrappers
  import opened CdcWire
  import opened CdcMessages
  import opened TransportCdcCodec

  /** A declared, transmissible message and the frame its tokens assemble into encode to and decode from each other. */
  lemma FrameOf(m: Message, b: seq<byte>)
    requires Declared(TypeOf(m)) && Transmissible(m) && Tokenize(m).Success?
    requires Assemble(DirectionOf(CategoryOf(TypeOf(m))), Identifier(TypeOf(m)), Tokenize(m).value) == b
    ensures Encode(m) == Success(b) && Decode(b) == Success(m)
  {
    EncodeDeclared(m);
    DecodeEncode(m);
  }

  /** The info response frame: the three fields joined by '#' after "<I:". */
  lemma InfoFrame(infoType: seq<byte>, version: seq<byte>, id: seq<byte>)
    requires HASH !in infoType && HASH !in version && HASH !in id
    requires LF !in infoType && LF !in version && LF !in id
    ensures var b := [RESPONSE, 0x49, SEPARATOR] + infoType + [HASH] + version + [HASH] + id + [TERMINATOR];
      Encode(InfoResponse(infoType, version, id)) == Success(b) && Decode(b) == Success(InfoResponse(infoType, version, id))
  {
    var m := InfoResponse(infoType, version, id);
    var value := JoinInfo(infoType, version, id);
    assert Tokenize(m) == Success(Tokens(None, Some(value)));
    assert [RESPONSE] + [0x49] + ([SEPARATOR] + value) + [TERMINATOR]
        == [RESPONSE, 0x49, SEPARATOR] + infoType + [HASH] + version + [HASH] + id + [TERMINATOR];
    FrameOf(m, [RESPONSE] + [0x49] + ([SEPARATOR] + value) + [TERMINATOR]);
  }

  /** SIMPLE_MESSAGES: "<ERR\r", ">\r", "<OK\r", ">R\r", ">RT\r", ">I\r", ">B\r", ">S\r". */
  const SIMPLE_MESSAGES: seq<(seq<byte>, Message)> := [
    ([0x3C, 0x45, 0x52, 0x52, 0x0D], ErrorResponse),
    ([0x3E, 0x0D], TestRequest),
    ([0x3C, 0x4F, 0x4B, 0x0D], TestResponse),
    ([0x3E, 0x52, 0x0D], ResetRequest),
    ([0x3E, 0x52, 0x54, 0x0D], TrResetRequest),
    ([0x3E, 0x49, 0x0D], InfoRequest),
    ([0x3E, 0x42, 0x0D], IndicationRequest),
    ([0x3E, 0x53, 0x0D], SpiStatusRequest)
  ]

  /** The status messages of VALUE_MESSAGES: "<R:OK\r", "<B:OK\r", "<DS:OK\r", "<DS:BUSY\r", "<DS:ERR\r". */
  const STATUS_MESSAGES: seq<(seq<byte>, Message)> := [
    ([0x3C, 0x52, 0x3A, 0x4F, 0x4B, 0x0D], ResetResponse(OK)),
    ([0x3C, 0x42, 0x3A, 0x4F, 0x4B, 0x0D], IndicationResponse(OK)),
    ([0x3C, 0x44, 0x53, 0x3A, 0x4F, 0x4B, 0x0D], DataSendResponse(OK)),
    ([0x3C, 0x44, 0x53, 0x3A, 0x42, 0x55, 0x53, 0x59, 0x0D], DataSendResponse(BUSY)),
    ([0x3C, 0x44, 0x53, 0x3A, 0x45, 0x52, 0x52, 0x0D], DataSendResponse(ERROR))
  ]

  /** Every simple message encodes to its frame, and the frame decodes to it. */
  lemma SimpleMessages(b: seq<byte>, m: Message)
    requires (b, m) in SIMPLE_MESSAGES
    ensures Encode(m) == Success(b) && Decode(b) == Success(m)
  {
    var i :| 0 <= i < |SIMPLE_MESSAGES| && SIMPLE_MESSAGES[i] == (b, m);
    if i == 0 {
      SimpleMessage0();
    } else if i == 1 {
      SimpleMessage1();
    } else if i == 2 {
      SimpleMessage2();
    } else if i == 3 {
      SimpleMessage3();
    } else if i == 4 {
      SimpleMessage4();
    } else if i == 5 {
      SimpleMessage5();
    } else if i == 6 {
      SimpleMessage6();
    } else {
      SimpleMessage7();
    }
  }

  /** Entry 0 of SIMPLE_MESSAGES. */
  lemma SimpleMessage0()
    ensures var (b, m) := SIMPLE_MESSAGES[0];
      Encode(m) == Success(b) && Decode(b) == Success(m)
  {
    var (b, m) := SIMPLE_MESSAGES[0];
    FrameOf(m, b);
  }

  /** Entry 1 of SIMPLE_MESSAGES. */
  lemma SimpleMessage1()
    ensures var (b, m) := SIMPLE_MESSAGES[1];
      Encode(m) == Success(b) && Decode(b) == Success(m)
  {
    var (b, m) := SIMPLE_MESSAGES[1];
    FrameOf(m, b);
  }

  /** Entry 2 of SIMPLE_MESSAGES. */
  lemma SimpleMessage2()
    ensures var (b, m) := SIMPLE_MESSAGES[2];
      Encode(m) == Success(b) && Decode(b) == Success(m)
  {
    var (b, m) := SIMPLE_MESSAGES[2];
    FrameOf(m, b);
  }

  /** Entry 3 of SIMPLE_MESSAGES. */
  lemma SimpleMessage3()
    ensures var (b, m) := SIMPLE_MESSAGES[3];
      Encode(m) == Success(b) && Decode(b) == Success(m)
  {
    var (b, m) := SIMPLE_MESSAGES[3];
    FrameOf(m, b);
  }

  /** Entry 4 of SIMPLE_MESSAGES. */
  lemma SimpleMessage4()
    ensures var (b, m) := SIMPLE_MESSAGES[4];
      Encode(m) == Success(b) && Decode(b) == Success(m)
  {
    var (b, m) := SIMPLE_MESSAGES[4];
    FrameOf(m, b);
  }

  /** Entry 5 of SIMPLE_MESSAGES. */
  lemma SimpleMessage5()
    ensures var (b, m) := SIMPLE_MESSAGES[5];
      Encode(m) == Success(b) && Decode(b) == Success(m)
  {
    var (b, m) := SIMPLE_MESSAGES[5];
    FrameOf(m, b);
  }

  /** Entry 6 of SIMPLE_MESSAGES. */
  lemma SimpleMessage6()
    ensures var (b, m) := SIMPLE_MESSAGES[6];
      Encode(m) == Success(b) && Decode(b) == Success(m)
  {
    var (b, m) := SIMPLE_MESSAGES[6];
    FrameOf(m, b);
  }

  /** Entry 7 of SIMPLE_MESSAGES. */
  lemma SimpleMessage7()
    ensures var (b, m) := SIMPLE_MESSAGES[7];
      Encode(m) == Success(b) && Decode(b) == Success(m)
  {
    var (b, m) := SIMPLE_MESSAGES[7];
    FrameOf(m, b);
  }

  /** Every status message encodes to its frame, and the frame decodes to it. */
  lemma StatusMessages(b: seq<byte>, m: Message)
    requires (b, m) in STATUS_MESSAGES
    ensures Encode(m) == Success(b) && Decode(b) == Success(m)
  {
    var i :| 0 <= i < |STATUS_MESSAGES| && STATUS_MESSAGES[i] == (b, m);
    if i == 0 {
      StatusMessage0();
    } else if i == 1 {
      StatusMessage1();
    } else if i == 2 {
      StatusMessage2();
    } else if i == 3 {
      StatusMessage3();
    } else {
      StatusMessage4();
    }
  }

  /** Entry 0 of STATUS_MESSAGES. */
  lemma StatusMessage0()
    ensures var (b, m) := STATUS_MESSAGES[0];
      Encode(m) == Success(b) && Decode(b) == Success(m)
  {
    var (b, m) := STATUS_MESSAGES[0];
    FrameOf(m, b);
  }

  /** Entry 1 of STATUS_MESSAGES. */
  lemma StatusMessage1()
    ensures var (b, m) := STATUS_MESSAGES[1];
      Encode(m) == Success(b) && Decode(b) == Success(m)
  {
    var (b, m) := STATUS_MESSAGES[1];
    FrameOf(m, b);
  }

  /** Entry 2 of STATUS_MESSAGES. */
  lemma StatusMessage2()
    ensures var (b, m) := STATUS_MESSAGES[2];
      Encode(m) == Success(b) && Decode(b) == Success(m)
  {
    var (b, m) := STATUS_MESSAGES[2];
    FrameOf(m, b);
  }

  /** Entry 3 of STATUS_MESSAGES. */
  lemma StatusMessage3()
    ensures var (b, m) := STATUS_MESSAGES[3];
      Encode(m) == Success(b) && Decode(b) == Success(m)
  {
    var (b, m) := STATUS_MESSAGES[3];
    FrameOf(m, b);
  }

  /** Entry 4 of STATUS_MESSAGES. */
  lemma StatusMessage4()
    ensures var (b, m) := STATUS_MESSAGES[4];
      Encode(m) == Success(b) && Decode(b) == Success(m)
  {
    var (b, m) := STATUS_MESSAGES[4];
    FrameOf(m, b);
  }

  /** "<IT:\x81\x00\x02:8$y\x08\r": a separator inside the value is read as part of it. */
  lemma TrInfoMessage()
    ensures var info: seq<byte> := [0x81, 0x00, 0x02, 0x3A, 0x38, 0x24, 0x79, 0x08];
      var b: seq<byte> := [0x3C, 0x49, 0x54, 0x3A, 0x81, 0x00, 0x02, 0x3A, 0x38, 0x24, 0x79, 0x08, 0x0D];
      Encode(TrInfoResponse(info)) == Success(b) && Decode(b) == Success(TrInfoResponse(info))
  {
    var info: seq<byte> := [0x81, 0x00, 0x02, 0x3A, 0x38, 0x24, 0x79, 0x08];
    assert Tokenize(TrInfoResponse(info)) == Success(Tokens(None, Some(info)));
    assert Assemble(RESPONSE, [0x49, 0x54], Tokens(None, Some(info))) == [RESPONSE] + [0x49, 0x54] + ([SEPARATOR] + info) + [TERMINATOR];
    FrameOf(TrInfoResponse(info), [0x3C, 0x49, 0x54, 0x3A, 0x81, 0x00, 0x02, 0x3A, 0x38, 0x24, 0x79, 0x08, 0x0D]);
  }

  /** ">DS\x06:Hello.\r": the length byte precedes the separator. */
  lemma DataSendMessage()
    ensures var d: seq<byte> := [0x48, 0x65, 0x6C, 0x6C, 0x6F, 0x2E];
      var b: seq<byte> := [0x3E, 0x44, 0x53, 0x06, 0x3A, 0x48, 0x65, 0x6C, 0x6C, 0x6F, 0x2E, 0x0D];
      Encode(DataSendRequest(d)) == Success(b) && Decode(b) == Success(DataSendRequest(d))
  {
    var d: seq<byte> := [0x48, 0x65, 0x6C, 0x6C, 0x6F, 0x2E];
    assert |d| as byte == 0x06;
    assert Tokenize(DataSendRequest(d)) == Success(Tokens(Some([0x06]), Some(d)));
    assert Transmissible(DataSendRequest(d));
    assert Assemble(REQUEST, [0x44, 0x53], Tokens(Some([0x06]), Some(d))) == [REQUEST] + [0x44, 0x53] + ([0x06] + [SEPARATOR] + d) + [TERMINATOR];
    FrameOf(DataSendRequest(d), [0x3E, 0x44, 0x53, 0x06, 0x3A, 0x48, 0x65, 0x6C, 0x6C, 0x6F, 0x2E, 0x0D]);
  }

  /** "<DR\x03:Hi!\r": an asynchronous reaction. */
  lemma DataReceivedMessage()
    ensures var d: seq<byte> := [0x48, 0x69, 0x21];
      var b: seq<byte> := [0x3C, 0x44, 0x52, 0x03, 0x3A, 0x48, 0x69, 0x21, 0x0D];
      Encode(DataReceivedReaction(d)) == Success(b) && Decode(b) == Success(DataReceivedReaction(d))
  {
    var d: seq<byte> := [0x48, 0x69, 0x21];
    assert |d| as byte == 0x03;
    assert Tokenize(DataReceivedReaction(d)) == Success(Tokens(Some([0x03]), Some(d)));
    assert Transmissible(DataReceivedReaction(d));
    assert Assemble(RESPONSE, [0x44, 0x52], Tokens(Some([0x03]), Some(d))) == [RESPONSE] + [0x44, 0x52] + ([0x03] + [SEPARATOR] + d) + [TERMINATOR];
    FrameOf(DataReceivedReaction(d), [0x3C, 0x44, 0x52, 0x03, 0x3A, 0x48, 0x69, 0x21, 0x0D]);
  }
}
