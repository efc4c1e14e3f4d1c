/**
 * The frames of the table-driven codec's test suite
 * (tests/cdc_codec_test.py:4-27), each encoded from its member, parameter
 * and value and decoded back to them.
 */
module CdcTableFixtures {
  import opened Bytes
  import opened Wrappers
  import opened CdcTable

  /** A frame `encode_cdc_message` builds from parts it can read back decodes to those parts. */
  lemma FrameOf(d: Decoded, b: seq<byte>)
    requires Encode(d.0, d.1, d.2).Success? && Encode(d.0, d.1, d.2).value == b
    requires d.1.Some? ==> |d.1.value| > 0 && COLON !in d.1.value && LF !in d.1.value
    requires d.2.Some? ==> COLON !in d.2.value
    ensures Decode(b, true) == Success(d)
  {
    DecodeEncode(d.0, d.1, d.2);
  }

  /** SIMPLE_MESSAGES: "<ERR\r", ">\r", "<OK\r", ">R\r", ">RT\r", ">I\r", ">B\r", ">S\r". */
  const SIMPLE_MESSAGES: seq<(seq<byte>, Decoded)> := [
    ([0x3C, 0x45, 0x52, 0x52, 0x0D], (Error, None, None)),
    ([0x3E, 0x0D], (Test, None, None)),
    ([0x3C, 0x4F, 0x4B, 0x0D], (TestResponse, None, None)),
    ([0x3E, 0x52, 0x0D], (Reset, None, None)),
    ([0x3E, 0x52, 0x54, 0x0D], (TrReset, None, None)),
    ([0x3E, 0x49, 0x0D], (Info, None, None)),
    ([0x3E, 0x42, 0x0D], (Indication, None, None)),
    ([0x3E, 0x53, 0x0D], (SpiStatus, None, None))
  ]

  /** VALUE_MESSAGES: "<R:OK\r", "<B:OK\r", "<DS:OK\r", "<DS:ERR\r", "<DS:BUSY\r". */
  const VALUE_MESSAGES: seq<(seq<byte>, Decoded)> := [
    ([0x3C, 0x52, 0x3A, 0x4F, 0x4B, 0x0D], (ResetResponse, None, Some([0x4F, 0x4B]))),
    ([0x3C, 0x42, 0x3A, 0x4F, 0x4B, 0x0D], (IndicationResponse, None, Some([0x4F, 0x4B]))),
    ([0x3C, 0x44, 0x53, 0x3A, 0x4F, 0x4B, 0x0D], (SendDataResponse, None, Some([0x4F, 0x4B]))),
    ([0x3C, 0x44, 0x53, 0x3A, 0x45, 0x52, 0x52, 0x0D], (SendDataResponse, None, Some([0x45, 0x52, 0x52]))),
    ([0x3C, 0x44, 0x53, 0x3A, 0x42, 0x55, 0x53, 0x59, 0x0D], (SendDataResponse, None, Some([0x42, 0x55, 0x53, 0x59])))
  ]

  /** PARAMETER_MESSAGES: ">DS[0x05]:Hello\r", "<DR[0x02]:Hi\r". */
  const PARAMETER_MESSAGES: seq<(seq<byte>, Decoded)> := [
    ([0x3E, 0x44, 0x53, 0x5B, 0x30, 0x78, 0x30, 0x35, 0x5D, 0x3A, 0x48, 0x65, 0x6C, 0x6C, 0x6F, 0x0D],
     (SendData, Some([0x30, 0x78, 0x30, 0x35]), Some([0x48, 0x65, 0x6C, 0x6C, 0x6F]))),
    ([0x3C, 0x44, 0x52, 0x5B, 0x30, 0x78, 0x30, 0x32, 0x5D, 0x3A, 0x48, 0x69, 0x0D],
     (ReceivedData, Some([0x30, 0x78, 0x30, 0x32]), Some([0x48, 0x69])))
  ]

  /** Every simple message encodes to its frame, and the frame decodes to it. */
  lemma SimpleMessages(b: seq<byte>, d: Decoded)
    requires (b, d) in SIMPLE_MESSAGES
    ensures Encode(d.0, d.1, d.2).Success? && Encode(d.0, d.1, d.2).value == b && Decode(b, true) == Success(d)
  {
    var i :| 0 <= i < |SIMPLE_MESSAGES| && SIMPLE_MESSAGES[i] == (b, d);
    if i == 0 {
      SimpleMessage0();
    } else if i == 1 {
      SimpleMessage1();
    } else if i == 2 {
      SimpleMessage2();
    } else if i == 3 {
      SimpleMessage3();
    } else if i == 4 {
      SimpleMessage4();
    } else if i == 5 {
      SimpleMessage5();
    } else if i == 6 {
      SimpleMessage6();
    } else {
      SimpleMessage7();
    }
  }

  /** Entry 0 of SIMPLE_MESSAGES. */
  lemma SimpleMessage0()
    ensures var (b, d) := SIMPLE_MESSAGES[0];
      Encode(d.0, d.1, d.2) == Success(b) && Decode(b, true) == Success(d)
  {
    var (b, d) := SIMPLE_MESSAGES[0];
    EncodeLayout(d.0, d.1, d.2);
    FrameOf(d, b);
  }

  /** Entry 1 of SIMPLE_MESSAGES. */
  lemma SimpleMessage1()
    ensures var (b, d) := SIMPLE_MESSAGES[1];
      Encode(d.0, d.1, d.2) == Success(b) && Decode(b, true) == Success(d)
  {
    var (b, d) := SIMPLE_MESSAGES[1];
    EncodeLayout(d.0, d.1, d.2);
    FrameOf(d, b);
  }

  /** Entry 2 of SIMPLE_MESSAGES. */
  lemma SimpleMessage2()
    ensures var (b, d) := SIMPLE_MESSAGES[2];
      Encode(d.0, d.1, d.2) == Success(b) && Decode(b, true) == Success(d)
  {
    var (b, d) := SIMPLE_MESSAGES[2];
    EncodeLayout(d.0, d.1, d.2);
    FrameOf(d, b);
  }

  /** Entry 3 of SIMPLE_MESSAGES. */
  lemma SimpleMessage3()
    ensures var (b, d) := SIMPLE_MESSAGES[3];
      Encode(d.0, d.1, d.2) == Success(b) && Decode(b, true) == Success(d)
  {
    var (b, d) := SIMPLE_MESSAGES[3];
    EncodeLayout(d.0, d.1, d.2);
    FrameOf(d, b);
  }

  /** Entry 4 of SIMPLE_MESSAGES. */
  lemma SimpleMessage4()
    ensures var (b, d) := SIMPLE_MESSAGES[4];
      Encode(d.0, d.1, d.2) == Success(b) && Decode(b, true) == Success(d)
  {
    var (b, d) := SIMPLE_MESSAGES[4];
    EncodeLayout(d.0, d.1, d.2);
    FrameOf(d, b);
  }

  /** Entry 5 of SIMPLE_MESSAGES. */
  lemma SimpleMessage5()
    ensures var (b, d) := SIMPLE_MESSAGES[5];
      Encode(d.0, d.1, d.2) == Success(b) && Decode(b, true) == Success(d)
  {
    var (b, d) := SIMPLE_MESSAGES[5];
    EncodeLayout(d.0, d.1, d.2);
    FrameOf(d, b);
  }

  /** Entry 6 of SIMPLE_MESSAGES. */
  lemma SimpleMessage6()
    ensures var (b, d) := SIMPLE_MESSAGES[6];
      Encode(d.0, d.1, d.2) == Success(b) && Decode(b, true) == Success(d)
  {
    var (b, d) := SIMPLE_MESSAGES[6];
    EncodeLayout(d.0, d.1, d.2);
    FrameOf(d, b);
  }

  /** Entry 7 of SIMPLE_MESSAGES. */
  lemma SimpleMessage7()
    ensures var (b, d) := SIMPLE_MESSAGES[7];
      Encode(d.0, d.1, d.2) == Success(b) && Decode(b, true) == Success(d)
  {
    var (b, d) := SIMPLE_MESSAGES[7];
    EncodeLayout(d.0, d.1, d.2);
    FrameOf(d, b);
  }

  /** Every value message encodes to its frame, and the frame decodes to it. */
  lemma ValueMessages(b: seq<byte>, d: Decoded)
    requires (b, d) in VALUE_MESSAGES
    ensures Encode(d.0, d.1, d.2).Success? && Encode(d.0, d.1, d.2).value == b && Decode(b, true) == Success(d)
  {
    var i :| 0 <= i < |VALUE_MESSAGES| && VALUE_MESSAGES[i] == (b, d);
    if i == 0 {
      ValueMessage0();
    } else if i == 1 {
      ValueMessage1();
    } else if i == 2 {
      ValueMessage2();
    } else if i == 3 {
      ValueMessage3();
    } else {
      ValueMessage4();
    }
  }

  /** Entry 0 of VALUE_MESSAGES. */
  lemma ValueMessage0()
    ensures var (b, d) := VALUE_MESSAGES[0];
      Encode(d.0, d.1, d.2) == Success(b) && Decode(b, true) == Success(d)
  {
    var (b, d) := VALUE_MESSAGES[0];
    EncodeLayout(d.0, d.1, d.2);
    FrameOf(d, b);
  }

  /** Entry 1 of VALUE_MESSAGES. */
  lemma ValueMessage1()
    ensures var (b, d) := VALUE_MESSAGES[1];
      Encode(d.0, d.1, d.2) == Success(b) && Decode(b, true) == Success(d)
  {
    var (b, d) := VALUE_MESSAGES[1];
    EncodeLayout(d.0, d.1, d.2);
    FrameOf(d, b);
  }

  /** Entry 2 of VALUE_MESSAGES. */
  lemma ValueMessage2()
    ensures var (b, d) := VALUE_MESSAGES[2];
      Encode(d.0, d.1, d.2) == Success(b) && Decode(b, true) == Success(d)
  {
    var (b, d) := VALUE_MESSAGES[2];
    EncodeLayout(d.0, d.1, d.2);
    FrameOf(d, b);
  }

  /** Entry 3 of VALUE_MESSAGES. */
  lemma ValueMessage3()
    ensures var (b, d) := VALUE_MESSAGES[3];
      Encode(d.0, d.1, d.2) == Success(b) && Decode(b, true) == Success(d)
  {
    var (b, d) := VALUE_MESSAGES[3];
    EncodeLayout(d.0, d.1, d.2);
    FrameOf(d, b);
  }

  /** Entry 4 of VALUE_MESSAGES. */
  lemma ValueMessage4()
    ensures var (b, d) := VALUE_MESSAGES[4];
      Encode(d.0, d.1, d.2) == Success(b) && Decode(b, true) == Success(d)
  {
    var (b, d) := VALUE_MESSAGES[4];
    EncodeLayout(d.0, d.1, d.2);
    FrameOf(d, b);
  }

  /** Every parameter message encodes to its frame, and the frame decodes to it. */
  lemma ParameterMessages(b: seq<byte>, d: Decoded)
    requires (b, d) in PARAMETER_MESSAGES
    ensures Encode(d.0, d.1, d.2).Success? && Encode(d.0, d.1, d.2).value == b && Decode(b, true) == Success(d)
  {
    var i :| 0 <= i < |PARAMETER_MESSAGES| && PARAMETER_MESSAGES[i] == (b, d);
    if i == 0 {
      ParameterMessage0();
    } else {
      ParameterMessage1();
    }
  }

  /** Entry 0 of PARAMETER_MESSAGES. */
  lemma ParameterMessage0()
    ensures var (b, d) := PARAMETER_MESSAGES[0];
      Encode(d.0, d.1, d.2) == Success(b) && Decode(b, true) == Success(d)
  {
    var (b, d) := PARAMETER_MESSAGES[0];
    EncodeLayout(d.0, d.1, d.2);
    FrameOf(d, b);
  }

  /** Entry 1 of PARAMETER_MESSAGES. */
  lemma ParameterMessage1()
    ensures var (b, d) := PARAMETER_MESSAGES[1];
      Encode(d.0, d.1, d.2) == Success(b) && Decode(b, true) == Success(d)
  {
    var (b, d) := PARAMETER_MESSAGES[1];
    EncodeLayout(d.0, d.1, d.2);
    FrameOf(d, b);
  }

  /** "<I:GW-USB-03#02.01#03010000\r": the device information is one value. */
  lemma InfoMessage()
    ensures var value: seq<byte> := [0x47, 0x57, 0x2D, 0x55, 0x53, 0x42, 0x2D, 0x30, 0x33, 0x23, 0x30, 0x32,
                                     0x2E, 0x30, 0x31, 0x23, 0x30, 0x33, 0x30, 0x31, 0x30, 0x30, 0x30, 0x30];
      var b := [LT, 0x49, COLON] + value + [CR];
      Encode(InfoResponse, None, Some(value)) == Success(b) && Decode(b, true) == Success((InfoResponse, None, Some(value)))
  {
    var value: seq<byte> := [0x47, 0x57, 0x2D, 0x55, 0x53, 0x42, 0x2D, 0x30, 0x33, 0x23, 0x30, 0x32,
                             0x2E, 0x30, 0x31, 0x23, 0x30, 0x33, 0x30, 0x31, 0x30, 0x30, 0x30, 0x30];
    assert COLON !in value;
    assert [LT] + [0x49] + [] + ([COLON] + value) + [CR] == [LT, 0x49, COLON] + value + [CR];
    FrameOf((InfoResponse, None, Some(value)), [LT, 0x49, COLON] + value + [CR]);
  }
}
