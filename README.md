# IQRF host-side protocol stack, modelled in Dafny

This project models the host side of the IQRF gateway protocol stack. It covers:

- the binary **SPI frame codec**: XOR checksum seeded with 0x5F, a command-type byte that packs a direction bit with a 7-bit length, request encoders and response decoders;
- the ASCII **CDC frame codec** in its three coexisting revisions:
  - the class-and-registry codec of `src/iqrf/transport/cdc_codec.py`, with request, response and reaction registries;
  - the class codec of `iqrf/cdc/iqrf_codec.py`, over the request and response registries of `src/iqrf/cdc/base_codec.py`;
  - the table-driven codec of `iqrf/cdc.py` (encoder and decoder) and its decoder-only twin `iqrf/cdc/codec.py`;
- the budgeted polling primitive `wait` of `src/iqrf/util/io.py`;
- the **buffered channels**:
  - the two `BufferedCdcIO` classes: they slice '\r'-terminated frames off the front of a byte buffer, classify each one and keep a FIFO of the asynchronous messages met on the way;
  - the frame buffer of `CdcIO` in `iqrf/cdc.py`;
  - `BufferedSpiIo`: it polls the transceiver's status, drains data-ready reports into a FIFO of reactions, then exchanges the request.

Each module keeps the form of its source:

- **Values.** Codecs and message classes are datatypes and functions.
- **Registries.** The registries are `Registry` objects whose `Register` method appends to a sequence of (class, identifier) pairs. Their look-ups are loops proved against the functions `TypeFor` and `IdFor`.
- **Loops.** The CRC loop, `wait`, the read loops of the channels and the drain loop of `send` are methods with `while` loops. Each is proved equal to a recursive specification function, and the properties are proved as lemmas about that function.
- **Channels.** The channels are classes whose methods update the buffer, the queue and the record of written frames, each stated in full.
- **Oracles.** The device is an oracle. For CDC, it is the sequence of chunks the successive reads return: bytes, or a read timeout. For SPI, it is the status polls, each with the time its steps took, and the replies of the transfers. For `wait`, it is the probe results with their costs.
- **Bytes.** Bytes are `bv8`.
- **Regular expressions.** These are explicit functions: the CDC frame pattern `(>|<)([A-Z]{0,3})(.*?)\r$` and the parameter pattern `(.+?)\[(.+)\]$`. Two of Python's quirks are kept: `$` also matches before a final '\n', and `.` does not match '\n'.

Where the code and its evident intent differ, the model keeps the code as written in one member and the evidently intended behaviour in another. The rest of the model uses the intended one. See "## Findings".

## Model

| member | source | states |
|---|---|---|
| Bytes.Find | src/iqrf/transport/cdc_codec.py:549 | `find` gives -1 exactly when the byte is absent; otherwise the byte is at that index and at no earlier one |
| Bytes.Split | iqrf/cdc.py:159 | `split` on one byte gives at least one part, no part holds the separator, and joining the parts with it gives the input back |
| Bytes.SplitJoin | iqrf/cdc.py:159 | splitting the join of separator-free parts gives exactly those parts |
| Bytes.SplitCount | iqrf/cdc.py:159-186 | `split` gives one more part than there are separators, which decides between the no-value, one-value and "Only one value" branches |
| Bytes.FindAfterFree | src/iqrf/transport/cdc_codec.py:549 | in `s + [b] + t` with no `b` in `s`, `find` gives the `b` right after `s` |
| Bytes.Ascii | tests/cdc/iqrf_codec_test.py:5-28 | the bytes of a `b"..."` literal of the fixtures: one byte per character, each with the character's code |
| Bytes.SliceFrame | src/iqrf/transport/cdc_io.py:80-84 | no frame exactly when the buffer holds no '\r'; otherwise the frame and the rest concatenate to the buffer, and the frame ends in its only '\r' |
| IoUtil.ToIoTime | src/iqrf/util/io.py:10-14 | None becomes `sys.maxsize`; any other timeout is kept |
| IoUtil.WaitFrom | src/iqrf/util/io.py:21-43 | each iteration entered with budget left consumes a probe, and the loop never consumes more probes than the oracle holds |
| IoUtil.Wait | src/iqrf/util/io.py:16-43 | the `while` loop of `wait` ends with the outcome of the specification `WaitSpec` |
| IoUtil.ElapsedMonotone | src/iqrf/util/io.py:21-41 | with non-negative step costs, the elapsed time `delta` never decreases |
| IoUtil.WaitFromSatisfied | src/iqrf/util/io.py:22-38 | a return from iteration `i` on gives the last probe's result; the condition holds for it and for no earlier probe; `delta` is the earlier iterations' time plus this probe and condition, and stays within the timeout |
| IoUtil.WaitSatisfied | src/iqrf/util/io.py:22-38 | `wait` returns only a result that satisfies the condition, the first probe result that does, with `delta <= timeout` |
| IoUtil.WaitFromReaches | src/iqrf/util/io.py:22-38 | conversely, the first satisfying probe reached within budget, whose probe and condition fit, is returned with exactly its elapsed time |
| IoUtil.WaitReaches | src/iqrf/util/io.py:16-43 | the same for a whole `wait` |
| IoUtil.WaitNoBudget | src/iqrf/util/io.py:19-21 | with a timeout of 0 or less the loop is never entered: IoTimeoutError with no probe made |
| IoUtil.WaitFromTimedOut | src/iqrf/util/io.py:21-43 | an IoTimeoutError means every probe before the last one failed the condition, and the last one overran the budget or failed and used it up sleeping; with no probe made, the budget was already spent on entry |
| SpiCodec.CalculateCrc | src/iqrf/transport/spi_codec.py:69-74 | the loop gives 0x5F XOR the bytes from `offset` to the end index, and 0x5F for an empty range |
| SpiCodec.XorAllConcat | src/iqrf/transport/spi_codec.py:69-74 | the XOR of a concatenation is the XOR of the XORs of its parts |
| SpiCodec.XorAllZeros | src/iqrf/transport/spi_codec.py:85-86 | the clock bytes contribute nothing to the checksum |
| SpiCodec.XorAllUpdate | src/iqrf/transport/spi_codec.py:69-74 | replacing one byte changes the XOR by exactly the old and the new byte |
| SpiCodec.CrcDetectsUpdate | src/iqrf/transport/spi_codec.py:69-74 | every single-byte change changes the checksum |
| SpiCodec.EncodeCommandType | src/iqrf/transport/spi_codec.py:77-78 | the value fits a byte exactly when the length does; for a 7-bit length it is the direction bit times 128 plus the length |
| SpiCodec.CommandTypeRoundTrip | src/iqrf/transport/spi_codec.py:77-82 | a direction bit and a length under 128 survive `encode_command_type` then `decode_command_type` |
| SpiCodec.CommandTypeDecodeEncode | src/iqrf/transport/spi_codec.py:77-82 | every byte is the encoding of its decoded direction and length |
| SpiCodec.Zeros | src/iqrf/transport/spi_codec.py:85-86 | `generate_clock_data(n)` is `n` zero bytes |
| SpiCodec.BuildFrame | src/iqrf/transport/spi_codec.py:175-183 | the append-built frame is command, command type, payload, checksum of all before, 0x00; `bytes` raises ValueError exactly for 256 or more payload bytes; under 128 bytes the frame parses back to its parts |
| SpiCodec.FrameOf | src/iqrf/transport/spi_codec.py:207-215 | the pieces appended form a request frame, which parses back to command, direction and payload when the length fits 7 bits |
| SpiCodec.EncodeTrInfoRequest | src/iqrf/transport/spi_codec.py:136-144 | the TR info request is exactly 20 bytes: F5, 10, sixteen 00, the checksum of the first 18 bytes, 00; it parses back |
| SpiCodec.EncodeDataSendRequest | src/iqrf/transport/spi_codec.py:175-183 | F0, the length with the direction bit, the data, checksum, 00; ValueError exactly from 256 bytes; parses back under 128 bytes |
| SpiCodec.EncodeDataReceiveRequest | src/iqrf/transport/spi_codec.py:207-215 | F0, `n` with the direction bit clear, `n` clock bytes, checksum, 00; ValueError exactly from 256; parses back under 128 |
| SpiCodec.DecodeTrInfoResponse | src/iqrf/transport/spi_codec.py:153-167 | a length other than 20 or a last byte other than 0x3F raises SpiDecodeError |
| SpiCodec.DecodeDataReceiveResponse | src/iqrf/transport/spi_codec.py:224-234 | a decoded reply is at least 4 bytes and its payload is `f[2:-2]` |
| SpiCodec.ReadWriteResponseExact | src/iqrf/transport/spi_codec.py:188-199 | the read/write reply check accepts exactly the replies the transceiver builds: status bytes, payload, checksum XOR command type, 0x3F |
| SpiCodec.DataReceiveResponseComplete | src/iqrf/transport/spi_codec.py:224-234 | a transceiver reply to a receive request decodes to the payload it carries |
| SpiCodec.DataSendResponseComplete | src/iqrf/transport/spi_codec.py:188-199 | a transceiver reply to a send of under 128 bytes is accepted |
| SpiCodec.TrInfoResponseExact | src/iqrf/transport/spi_codec.py:153-167 | `TrInfoResponse.decode` succeeds exactly on 20-byte transceiver replies with a 16-byte payload, and returns `f[2:18]` |
| SpiCodec.TrInfoIsDataReceive | src/iqrf/transport/spi_codec.py:153-167 | on 20-byte frames the TR info decoder agrees with the generic receive-reply decoder |
| SpiCodec.TrInfoTamperDetected | src/iqrf/transport/spi_codec.py:162-163 | changing any payload byte of an accepted TR info reply, checksum kept, makes the decoder reject it |
| SpiCodec.ReadWriteTamperDetected | src/iqrf/transport/spi_codec.py:195-197 | the same for the payload of any accepted read/write reply |
| SpiCodec.Encode | src/iqrf/transport/spi_codec.py:134-234 | `encode()` of each request: the TR info frame; the data-send frame, which succeeds exactly under 256 bytes; the receive frame of `length + 4` bytes; the frames parse back when the length fits 7 bits; `_DataReceiveResponse` has no encoder and raises NotImplementedError |
| SpiIo.Readable | src/iqrf/transport/spi_io.py:162 | the count a data-ready status reports is 1..64 |
| SpiIo.ReadyStatus | src/iqrf/transport/spi_io.py:162 | each count 1..64 has a data-ready status |
| SpiIo.ReadyStatusOfReadable | src/iqrf/transport/spi_io.py:162 | every status of the band 0x40..0x7F is the one that reports its own count |
| SpiIo.ReadableOfReadyStatus | src/iqrf/transport/spi_io.py:146 | every count 1..64 is reported by exactly one status of the band |
| SpiIo.ReadyBandAsWritten | src/iqrf/transport/spi_io.py:144 | as written, `range(0x40, 0x7f)` leaves out exactly 0x7F, so the count 63 is never read |
| SpiIo.SixtyThreeBytesWaiting | src/iqrf/transport/spi_io.py:154 | a device reporting 0x7F is polled past as written; with the whole band, `wait` stops on it |
| SpiIo.AsWrittenNeverStopsOnSixtyThree | src/iqrf/transport/spi_io.py:154 | as written, `wait` never returns the status 0x7F |
| SpiIo.DrainSpec | src/iqrf/transport/spi_io.py:152-167 | the loop of `send` as a function; it never consumes more polls or replies than the oracle holds |
| SpiIo.Reactions | src/iqrf/transport/spi_io.py:167 | one `DataReceivedReaction` per drained payload, in order |
| SpiIo.ReactionsSnoc | src/iqrf/transport/spi_io.py:167 | draining one more payload appends one more reaction at the back of the queue |
| SpiIo.DrainStep | src/iqrf/transport/spi_io.py:156-167 | after a data-ready poll with a decoded reply, the loop goes on with the rest of the oracle and with the budget less the wait's `delta` |
| SpiIo.DrainExchangeFailed | src/iqrf/transport/spi_io.py:164-165 | a receive exchange with no reply or an undecodable one ends `send` with that error |
| SpiIo.DrainDecoded | src/iqrf/transport/spi_io.py:164-167 | every queued payload is what its reply decoded to, in the order the replies came |
| SpiIo.DrainCounts | src/iqrf/transport/spi_io.py:162-165 | every receive exchange was for 1..64 bytes; all but a last failed one delivered a payload |
| SpiIo.DrainEndsInCommunication | src/iqrf/transport/spi_io.py:159-160 | the loop ends normally only after a poll that saw 0x80, communication mode |
| SpiIo.DrainNoBudget | src/iqrf/transport/spi_io.py:153-156 | with no budget the loop makes no poll and raises IoTimeoutError |
| SpiIo.Exchange | src/iqrf/transport/spi_io.py:169-176 | a TR info request yields only a TR info response, and a data send only a data-send response |
| SpiIo.ExchangeReplies | src/iqrf/transport/spi_io.py:171-174 | a transceiver's reply to a TR info request gives its 16 bytes; a reply to a short data send is accepted |
| SpiIo.ExchangeRejectsReceive | src/iqrf/transport/spi_io.py:169-176 | a receive request of under 256 bytes is clocked out and then raises SpiCodecError (a longer one fails in `bytes` with ValueError, and `_DataReceiveResponse` in `encode` with NotImplementedError, both before any transfer, as `SpiIo.Exchange` states) |
| SpiIo.FetchSpec | src/iqrf/transport/spi_io.py:182-186 | `receive` with an empty queue as a function; bounded by the oracle |
| SpiIo.FetchReaction | src/iqrf/transport/spi_io.py:143-146 | a fetched reaction carries the decoded reply to a receive request, sized by the count of the poll that stopped the wait |
| SpiIo.DrainLoop | src/iqrf/transport/spi_io.py:152-167 | the `while True` loop computes `DrainSpec` and clocks out exactly one receive request per data-ready report, for its count |
| SpiIo.BufferedSpiIo.constructor | src/iqrf/transport/spi_io.py:138-141 | an empty reaction queue |
| SpiIo.BufferedSpiIo.Send | src/iqrf/transport/spi_io.py:148-176 | TypeError for a non-request, touching nothing; otherwise the drained reactions are appended in order, the receive requests and then the request's frame are recorded, and the result is the loop's error or the exchange |
| SpiIo.BufferedSpiIo.ExchangeRequest | src/iqrf/transport/spi_io.py:169-176 | encode, clock out and decode by kind; the queue is untouched |
| SpiIo.BufferedSpiIo.Fetch | src/iqrf/transport/spi_io.py:182-185 | the wait and the receive exchange of `receive`, recording the receive request for the reported count |
| SpiIo.BufferedSpiIo.Receive | src/iqrf/transport/spi_io.py:178-186 | the oldest queued reaction is popped with no poll; otherwise a fresh reaction is fetched and not queued, the frames sent before are kept, and the one receive request for the reported count is recorded after them |
| CdcWire.IdentifierLength | src/iqrf/transport/cdc_codec.py:198 | `[A-Z]{0,3}` takes at most three capitals, greedily |
| CdcWire.TerminatorIndex | src/iqrf/transport/cdc_codec.py:198 | `\r$` finds the '\r' at the very end or just before a final '\n' |
| CdcWire.MatchFrame | src/iqrf/transport/cdc_codec.py:535-543 | a match has direction '>' or '<' and a body without '\n' |
| CdcWire.TokenizeBody | src/iqrf/transport/cdc_codec.py:545-558 | an empty body has neither parameter nor value; a body with no value has no parameter |
| CdcWire.MatchFrameShape | src/iqrf/transport/cdc_codec.py:198 | a matched frame that ends in '\r' is direction, identifier, body and '\r' |
| CdcWire.MatchFrameOf | src/iqrf/transport/cdc_codec.py:536-543 | the pattern reads an assembled frame back into its parts, unless the body holds a '\n' |
| CdcWire.TokenizeBodyOf | src/iqrf/transport/cdc_codec.py:545-558 | tokenizing the body `encode` produced gives the tokens back |
| CdcWire.TokenizeBodyWithoutSeparator | src/iqrf/transport/cdc_codec.py:549-556 | with no ':', `find` gives -1: the parameter is the body less its last byte and the value the whole body |
| CdcWire.BodyOfTokenize | src/iqrf/transport/cdc_codec.py:545-558 | an empty or ':'-holding body is rebuilt from its tokens |
| CdcWire.MatchAssemble | src/iqrf/transport/cdc_codec.py:234-243 | matching and tokenizing a frame `encode` joined recovers direction, identifier and tokens |
| CdcWire.AssembleMatch | src/iqrf/transport/cdc_codec.py:535-558 | a frame ending in one '\r', with an empty or ':'-holding body, is the assembly of its own tokens |
| CdcWire.AssembleMatchNeedsConditions | src/iqrf/transport/cdc_codec.py:198 | ">R\r\n" matches but is not reassembled, and neither is a body without ':' |
| CdcWire.JoinInfoIsJoin | src/iqrf/transport/cdc_codec.py:306-308 | the info value is the three fields joined by '#' |
| CdcWire.SplitJoinInfo | src/iqrf/transport/cdc_codec.py:318 | splitting a joined info value on '#' gives the three fields back |
| CdcMessages.Bare | src/iqrf/transport/cdc_codec.py:369-494 | the fieldless constructor of a NoneShape class builds a message of that class |
| CdcMessages.WithStatus | src/iqrf/transport/cdc_codec.py:369-494 | `cls(status)` builds a message of that class with that status |
| CdcMessages.WithData | src/iqrf/transport/cdc_codec.py:369-494 | `cls(data)` builds a message of that class with that data |
| CdcMessages.IdentifiersValid | src/iqrf/transport/cdc_codec.py:497-532 | every registered identifier is up to three capitals, so the frame pattern reads it back |
| CdcMessages.IdentifierInjective | src/iqrf/transport/cdc_codec.py:497-532 | within one category no two classes share an identifier |
| CdcMessages.BareOf | src/iqrf/transport/cdc_codec.py:254-267 | a NoneShape message is rebuilt from its class alone |
| CdcMessages.WithStatusOf | src/iqrf/transport/cdc_codec.py:270-301 | a status message is rebuilt from its class and status |
| CdcMessages.WithDataOf | src/iqrf/transport/cdc_codec.py:353-366 | a data message is rebuilt from its class and data |
| CdcMessages.StatusTokenBijection | src/iqrf/transport/cdc_codec.py:270-301 | OK, BUSY and ERROR map to and from "OK", "BUSY" and "ERR" and nothing else |
| CdcMessages.Tokenize | src/iqrf/transport/cdc_codec.py:254-356 | `tokenize()` fails exactly for data over 255 bytes (ValueError from `bytes([n])`); no value only for the NoneShape classes |
| CdcMessages.DecodeAs | src/iqrf/transport/cdc_codec.py:260-366 | a successful `decode(parameter, value)` builds a message of the class it was called on |
| CdcMessages.DecodeAsNoneShape | src/iqrf/transport/cdc_codec.py:260-267 | NoneDecoder accepts exactly no parameter and no value |
| CdcMessages.DecodeAsStatusShape | src/iqrf/transport/cdc_codec.py:285-301 | StatusDecoder accepts exactly no parameter and a value of "OK", "BUSY" or "ERR" |
| CdcMessages.DecodeAsInfoShape | src/iqrf/transport/cdc_codec.py:311-318 | InfoDecoder succeeds exactly when there is no parameter and the value holds two '#' |
| CdcMessages.DecodeAsDataShape | src/iqrf/transport/cdc_codec.py:359-366 | DataDecoder needs a parameter and takes the value as the data, whatever the parameter says |
| CdcMessages.DecodeTokenize | src/iqrf/transport/cdc_codec.py:254-366 | decoding the tokens of a message gives the message back |
| CdcMessages.TokenizeDecode | src/iqrf/transport/cdc_codec.py:254-366 | tokenizing a decoded message gives the tokens back when a data parameter is the length byte |
| CdcMessages.TokenizeDecodeNeedsLength | src/iqrf/transport/cdc_codec.py:362-366 | otherwise the parameter is lost: a length byte 5 on two bytes of data decodes, and re-tokenizes with 2 |
| CdcMessages.TransmissibleReadable | src/iqrf/transport/cdc_codec.py:353-356 | a message without '\n', with info fields free of '#' and with a length byte that is neither a capital, ':' nor '\n', tokenizes into tokens the frame reads back |
| CdcMessages.FrameRoundTrip | src/iqrf/transport/cdc_codec.py:215-247 | such a message, framed behind a valid identifier, matches and decodes back to itself |
| CdcMessages.FrameReassembles | src/iqrf/transport/cdc_codec.py:535-558 | a frame with one final '\r' and an empty or ':'-holding body, decoded with a consistent length byte, is the encoding of what it decodes to |
| CdcBase.BaseClassCategory | src/iqrf/cdc/base_codec.py:43-61 | the base classes are exactly the requests and the responses |
| CdcBase.Fields | src/iqrf/cdc/base_codec.py:19-34 | the attribute dictionary has `_status` exactly for a response |
| CdcBase.EqualIffSame | src/iqrf/cdc/base_codec.py:13-14 | `__eq__` holds exactly for the same class with the same fields |
| CdcBase.NotEqualIffDistinct | src/iqrf/cdc/base_codec.py:16-17 | `__ne__` holds exactly between different messages |
| CdcBase.Status | src/iqrf/cdc/base_codec.py:32-34 | the `status` of a response is its stored `_status`: ERROR for the error response, the given status for status classes, OK otherwise |
| CdcRegistry.TypeFor | src/iqrf/transport/cdc_codec.py:145-150 | `get_cdc_*_type(id)` is None exactly when no entry has that identifier; otherwise it is the first class registered with it |
| CdcRegistry.IdFor | src/iqrf/transport/cdc_codec.py:165-170 | `get_cdc_*_id(type)` is None exactly for an unregistered class; otherwise it is the identifier of the class's entry |
| CdcRegistry.TypeForIdFor | src/iqrf/transport/cdc_codec.py:145-190 | with no repeated class, the identifier of the class found by identifier is that identifier |
| CdcRegistry.IdForTypeFor | src/iqrf/transport/cdc_codec.py:145-190 | with no repeated identifier either, the class found by a class's identifier is that class |
| CdcRegistry.IdForAppend | src/iqrf/cdc/base_codec.py:50 | an appended entry is found by `get_cdc_*_id` only for its own class, and only when that class had no entry before; the others are unchanged |
| CdcRegistry.TypeForShadowed | src/iqrf/cdc/base_codec.py:47-50 | identifiers are not checked for repeats: a class registered later under an identifier in use is never found by identifier |
| CdcRegistry.AppendUnique | src/iqrf/cdc/base_codec.py:47-50 | adding a class not yet present keeps the classes distinct |
| CdcRegistry.RegistrationsStep | src/iqrf/transport/cdc_codec.py:497-532 | each registration appends its class to the registry of its category only |
| CdcRegistry.RegistrationsEntries | src/iqrf/transport/cdc_codec.py:497-532 | every entry is a listed class of the category, under its identifier |
| CdcRegistry.IdForRegistrations | src/iqrf/transport/cdc_codec.py:497-532 | after the registrations, `get_cdc_*_id` gives each listed class of the category its identifier, and None otherwise |
| CdcRegistry.TypeForRegistrations | src/iqrf/transport/cdc_codec.py:497-532 | after the registrations, `get_cdc_*_type` finds only listed classes of the category, by their identifiers |
| CdcRegistry.TypeForRegistrationsUnique | src/iqrf/transport/cdc_codec.py:497-532 | it finds a listed class whose identifier no other listed class of the category shares |
| CdcRegistry.Registry.constructor | src/iqrf/transport/cdc_codec.py:107-109 | an empty registry of one category |
| CdcRegistry.Registry.Register | src/iqrf/transport/cdc_codec.py:112-142 | ValueError for a class of another category or one already registered, with no change; otherwise exactly `cls -> id` is added at the end |
| CdcRegistry.Registry.GetType | src/iqrf/transport/cdc_codec.py:145-150 | the loop over the items returns `TypeFor`, the first class with the identifier |
| CdcRegistry.Registry.GetId | src/iqrf/transport/cdc_codec.py:165-170 | the loop over the items returns `IdFor`, the identifier of the class |
| TransportCdcCodec.RegisteredIffDeclared | src/iqrf/transport/cdc_codec.py:497-532 | the registered classes are exactly the module's classes |
| TransportCdcCodec.NotRegisteredBefore | src/iqrf/transport/cdc_codec.py:497-532 | no class is registered twice, so no registration raises |
| TransportCdcCodec.IdForTable | src/iqrf/transport/cdc_codec.py:175-190 | `get_cdc_*_id` gives a declared class its identifier, and None for any other class |
| TransportCdcCodec.TypeForTable | src/iqrf/transport/cdc_codec.py:145-160 | `get_cdc_*_type` finds only a declared class of the registry's category, under its identifier |
| TransportCdcCodec.TypeForTableOf | src/iqrf/transport/cdc_codec.py:145-160 | it finds every declared class by its identifier |
| TransportCdcCodec.LookUpsInverse | src/iqrf/transport/cdc_codec.py:145-190 | for the tables built at import, `get_cdc_*_id` and `get_cdc_*_type` are inverse to each other |
| TransportCdcCodec.RegisterAll | src/iqrf/transport/cdc_codec.py:497-532 | the module's registrations fill the three registries with exactly their tables, and every registration succeeds |
| TransportCdcCodec.Encode | src/iqrf/transport/cdc_codec.py:215-247 | an encoded frame ends in '\r' and starts with '>' exactly for a request, '<' for a response or a reaction |
| TransportCdcCodec.EncodeFailure | src/iqrf/transport/cdc_codec.py:215-232 | `encode` fails exactly for over-long data (ValueError) or an unregistered class ("Unknown CDC message type!") |
| TransportCdcCodec.LookUpFinds | src/iqrf/transport/cdc_codec.py:564-575 | the class looked up is declared, has the identifier, and is a request exactly for '>' |
| TransportCdcCodec.Decode | src/iqrf/transport/cdc_codec.py:561-581 | a decoded frame matches the frame pattern |
| TransportCdcCodec.DecodeDeclared | src/iqrf/transport/cdc_codec.py:561-581 | a decoded message is of a declared class, and a request exactly when the frame starts with '>' |
| TransportCdcCodec.EncodeDeclared | src/iqrf/transport/cdc_codec.py:234-243 | a declared class's message is framed as direction, identifier, tokens and '\r' |
| TransportCdcCodec.LookUpDeclared | src/iqrf/transport/cdc_codec.py:564-570 | a declared class's direction and identifier look that class up; for '<' the responses come before the reactions |
| TransportCdcCodec.DecodeEncode | src/iqrf/transport/cdc_codec.py:215-247 | `decode_cdc_message(m.encode()) == m` for every transmissible message |
| TransportCdcCodec.EncodeDecode | src/iqrf/transport/cdc_codec.py:561-581 | `decode_cdc_message(b).encode() == b` for every canonical frame that decodes |
| TransportCdcCodec.EncodeDataSend | src/iqrf/transport/cdc_codec.py:355-356 | a data-send request is ">DS", its length byte, ':', its data and '\r' |
| TransportCdcCodec.DecodeFrame | src/iqrf/transport/cdc_codec.py:577 | a matched frame whose class is found decodes as that class from the body's tokens |
| TransportCdcCodec.DecodeDataSend | src/iqrf/transport/cdc_codec.py:561-577 | a ">DS" frame decodes as a data-send request from its body's tokens |
| TransportCdcCodec.DecodeUnmatched | src/iqrf/transport/cdc_codec.py:538-539 | a frame the pattern refuses raises CdcDecodeError |
| TransportCdcCodec.EncodeDecodeNeedsSeparator | src/iqrf/transport/cdc_codec.py:549-556 | a ">DS" body without ':' decodes, but the result encodes to a different frame |
| TransportCdcCodec.EncodeDecodeNeedsLength | src/iqrf/transport/cdc_codec.py:362-366 | the length byte is never checked: any non-capital byte other than ':' and '\n' decodes, and a wrong one is not re-encoded |
| TransportCdcCodec.TenBytesUndecodable | src/iqrf/transport/cdc_codec.py:356 | ten bytes of data get the length byte '\n', which `.` does not match: the message encodes, but its frame does not decode |
| TransportCdcFixtures.InfoFrame | tests/cdc/iqrf_codec_test.py:18 | the info response is "<I:" and the three '#'-joined fields; it encodes to that frame and decodes back |
| TransportCdcFixtures.SimpleMessages | tests/cdc/iqrf_codec_test.py:5-14 | every SIMPLE_MESSAGES entry encodes to its frame, and the frame decodes to it |
| TransportCdcFixtures.StatusMessages | tests/cdc/iqrf_codec_test.py:16-22 | the same for the status entries of VALUE_MESSAGES |
| TransportCdcFixtures.TrInfoMessage | tests/cdc/iqrf_codec_test.py:23 | "<IT:\x81\x00\x02:8$y\x08\r" encodes and decodes, the ':' inside the value included |
| TransportCdcFixtures.DataSendMessage | tests/cdc/iqrf_codec_test.py:27 | ">DS\x06:Hello.\r" encodes and decodes |
| TransportCdcFixtures.DataReceivedMessage | tests/cdc/iqrf_codec_test.py:28 | "<DR\x03:Hi!\r" encodes and decodes as a reaction |
| IqrfCdcCodec.RegisteredIffBaseClass | iqrf/cdc/iqrf_codec.py:273-308 | the registered classes are exactly the module's request and response classes |
| IqrfCdcCodec.NotRegisteredBefore | iqrf/cdc/iqrf_codec.py:273-308 | no class is registered twice, so no registration raises |
| IqrfCdcCodec.IdForTable | src/iqrf/cdc/base_codec.py:70-89 | `get_cdc_*_id` finds every class of the module under its identifier |
| IqrfCdcCodec.TypeForTable | src/iqrf/cdc/base_codec.py:63-82 | `get_cdc_*_type` finds only a class of the module and of the registry's category, under its identifier |
| IqrfCdcCodec.TypeForTableOf | src/iqrf/cdc/base_codec.py:63-82 | it finds every class of the module by its identifier |
| IqrfCdcCodec.LookUpsInverse | src/iqrf/cdc/base_codec.py:63-89 | for the registries built at import, the two look-ups are inverse to each other |
| IqrfCdcCodec.RegisterAll | iqrf/cdc/iqrf_codec.py:273-308 | the registrations fill the two registries of base_codec with exactly their tables, and every one succeeds |
| IqrfCdcCodec.Encode | iqrf/cdc/iqrf_codec.py:37-58 | an encoded frame ends in '\r' and starts with '>' exactly for a request, '<' exactly for a response |
| IqrfCdcCodec.EncodeFailure | iqrf/cdc/iqrf_codec.py:37-58 | every class being registered, `encode` fails only for over-long data, with ValueError |
| IqrfCdcCodec.LookUpFinds | iqrf/cdc/iqrf_codec.py:335-346 | the class looked up is the module's, has the identifier, and is a request exactly for '>' and a response otherwise |
| IqrfCdcCodec.Decode | iqrf/cdc/iqrf_codec.py:310-352 | a frame the pattern refuses raises the base CdcMessageCodecError; a decoded frame matches |
| IqrfCdcCodec.DecodeBaseClass | iqrf/cdc/iqrf_codec.py:335-352 | a decoded message is of the module's classes, and a request exactly for '>' |
| IqrfCdcCodec.EncodeBaseClass | iqrf/cdc/iqrf_codec.py:37-58 | a class's message is framed behind its own identifier |
| IqrfCdcCodec.LookUpBaseClass | iqrf/cdc/iqrf_codec.py:335-346 | the frame of a class is read back as that class; '<' looks among the responses only |
| IqrfCdcCodec.DecodeEncode | iqrf/cdc/iqrf_codec.py:37-58 | decoding the encoding of a transmissible message gives the message back |
| IqrfCdcCodec.EncodeDecode | iqrf/cdc/iqrf_codec.py:335-352 | encoding what a canonical frame decodes to gives the frame back |
| IqrfCdcCodec.DecodeAsync | iqrf/cdc/iqrf_codec.py:241-247 | a '<' frame decodes to a response, and to an asynchronous one exactly when its identifier is "DR" |
| CdcChannel.ReadLoop | src/iqrf/transport/cdc_io.py:76-101 | the read loop as a function of buffer and oracle; bounded by the oracle |
| CdcChannel.LoopUnframed | src/iqrf/transport/cdc_io.py:96-98 | with no '\r' buffered, a pass goes straight to reading |
| CdcChannel.LoopQueued | src/iqrf/transport/cdc_io.py:86-91 | a queued frame is taken off the front and the pass goes on reading |
| CdcChannel.LoopHandled | src/iqrf/transport/cdc_io.py:86-93 | a returned or raised frame ends the call with that frame alone, the rest kept buffered |
| CdcChannel.MoreEnds | src/iqrf/transport/cdc_io.py:95-101 | no more reading after the one read a zero timeout allows, or at a read timeout |
| CdcChannel.MoreRead | src/iqrf/transport/cdc_io.py:98 | read bytes are appended to the back of the buffer |
| CdcChannel.ReadFrames | src/iqrf/transport/cdc_io.py:76-101 | the `while True` loop computes `ReadLoop` |
| CdcChannel.LoopConserves | src/iqrf/transport/cdc_io.py:80-98 | nothing is lost or reordered: the frames taken and the buffer left are the old buffer and every byte read, and each frame ends in its only '\r' |
| CdcChannel.LoopInOrder | src/iqrf/transport/cdc_io.py:86-93 | every frame but the last was queued, in arrival order; the last ended the call or was queued before the final read |
| CdcChannel.LoopStops | src/iqrf/transport/cdc_io.py:95-101 | a zero timeout allows one read and then gives None; no other timeout gives None |
| CdcChannel.SliceFramed | src/iqrf/transport/cdc_io.py:80-84 | a frame at the front of the buffer is exactly the frame sliced off |
| CdcChannel.QueuedThenReads | src/iqrf/transport/cdc_io.py:90-98 | after queuing the loop reads before it looks at the buffer again: a response buffered behind a reaction stays buffered when that read times out |
| TransportCdcIo.HandleResponseAsWritten | src/iqrf/transport/cdc_io.py:86-93 | as written: a decode failure raises it, and a request raises NameError through the undefined `cdc` |
| TransportCdcIo.HandleResponse | src/iqrf/transport/cdc_io.py:86-93 | returned exactly for a response, queued exactly for a reaction, and CdcCodecError for a request |
| TransportCdcIo.HandleReaction | src/iqrf/transport/cdc_io.py:111-118 | only a reaction is returned; anything else raises CdcCodecError; nothing is queued |
| TransportCdcIo.HandleResponseDiffers | src/iqrf/transport/cdc_io.py:92-93 | as written and as intended differ exactly on a frame that decodes to a request |
| TransportCdcIo.TestRequestEcho | src/iqrf/transport/cdc_io.py:93 | ">\r" read while awaiting a response raises NameError as written, CdcCodecError as intended |
| TransportCdcIo.ResponseQueuesReactions | src/iqrf/transport/cdc_io.py:86-91 | the reactions queued are the frames that decoded to reactions, in wire order; a returned message is a response |
| TransportCdcIo.ReactionQueuesNothing | src/iqrf/transport/cdc_io.py:103-126 | waiting for a reaction queues nothing and returns only a reaction |
| TransportCdcIo.BufferedCdcIO.constructor | src/iqrf/transport/cdc_io.py:70-74 | an empty buffer and an empty reaction queue |
| TransportCdcIo.BufferedCdcIO.ReadCdcResponse | src/iqrf/transport/cdc_io.py:76-101 | the result and the buffer left are the read loop's; its reactions are appended to the queue |
| TransportCdcIo.BufferedCdcIO.ReadCdcReaction | src/iqrf/transport/cdc_io.py:103-126 | the same for one reaction; the queue is untouched |
| TransportCdcIo.BufferedCdcIO.WriteCdcRequest | src/iqrf/transport/cdc_io.py:128-132 | CdcCodecError and nothing written for a non-request; otherwise exactly its encoding is written |
| TransportCdcIo.BufferedCdcIO.Send | src/iqrf/transport/cdc_io.py:128-139 | NotImplementedError for a non-blocking call, with nothing touched; CdcCodecError for a non-request and the encoder's own error for a failed encoding, nothing written or read; otherwise write, then await the response |
| TransportCdcIo.BufferedCdcIO.Receive | src/iqrf/transport/cdc_io.py:141-148 | NotImplementedError for a non-blocking call; the oldest queued reaction with no read; otherwise a read reaction |
| IqrfCdcIo.HandleResponseAsWritten | iqrf/cdc/io.py:74-82 | as written: an asynchronous response raises AttributeError on the misspelt queue, and nothing is ever queued |
| IqrfCdcIo.HandleResponse | iqrf/cdc/io.py:74-82 | an asynchronous response is queued, another response returned, and anything else raises IOError |
| IqrfCdcIo.HandleAsyncResponse | iqrf/cdc/io.py:102-110 | only an asynchronous response is returned; anything else raises IOError |
| IqrfCdcIo.HandleResponseDiffers | iqrf/cdc/io.py:80 | as written and as intended differ exactly on an asynchronous response |
| IqrfCdcIo.AsyncFrame | iqrf/cdc/io.py:80 | such a frame raises AttributeError as written and is queued as intended |
| IqrfCdcIo.DataReceivedWhileAwaiting | iqrf/cdc/io.py:80 | every data-received frame read while a response is awaited is such a frame |
| IqrfCdcIo.DataReceivedHi | iqrf/cdc/io.py:80 | "<DR\x02:Hi\r" is one |
| IqrfCdcIo.ResponseQueuesAsync | iqrf/cdc/io.py:74-82 | the queued messages are the asynchronous responses, in wire order; a returned message is a synchronous response |
| IqrfCdcIo.ResponseAsWrittenQueuesNothing | iqrf/cdc/io.py:74-82 | as written nothing is ever queued, and the call stops at the first frame |
| IqrfCdcIo.AsyncReadQueuesNothing | iqrf/cdc/io.py:92-118 | waiting for an asynchronous response queues nothing and returns only one |
| IqrfCdcIo.ReceiveAsWritten | iqrf/cdc/io.py:133-140 | as written `receive` always fails: NotImplementedError exactly for a non-blocking call, AttributeError otherwise |
| IqrfCdcIo.BufferedCdcIO.constructor | iqrf/cdc/io.py:57-62 | empty buffers and an empty asynchronous-response queue |
| IqrfCdcIo.BufferedCdcIO.ReadCdcResponse | iqrf/cdc/io.py:64-90 | the read loop on `_buffer`; its asynchronous responses are appended to the queue |
| IqrfCdcIo.BufferedCdcIO.ReadAsyncCdcResponse | iqrf/cdc/io.py:92-118 | the read loop on `_async_buffer` for one asynchronous response; the other buffer and the queue are untouched |
| IqrfCdcIo.BufferedCdcIO.WriteCdcRequest | iqrf/cdc/io.py:120-124 | IOError and nothing written for a non-request; otherwise exactly its encoding is written |
| IqrfCdcIo.BufferedCdcIO.Send | iqrf/cdc/io.py:120-131 | NotImplementedError for a non-blocking call; IOError for a non-request and the encoder's own error for a failed encoding, nothing written or read; otherwise write, then await the response on `_buffer` |
| IqrfCdcIo.BufferedCdcIO.Receive | iqrf/cdc/io.py:133-140 | on the queue created at line 62: NotImplementedError for a non-blocking call; the oldest queued response; otherwise one read from `_async_buffer` |
| CdcTable.IdsRepeat | iqrf/cdc.py:105-106 | SWITCH_TO_SPI and SWITCH_TO_SPI_RESPONSE are different members with the same id 22 |
| CdcTable.Id | iqrf/cdc.py:71-106 | the intended id of each member is its place in definition order |
| CdcTable.IdInjective | iqrf/cdc.py:71-106 | the intended ids identify members and agree with the enumeration everywhere except SWITCH_TO_SPI_RESPONSE, which gets 23 |
| CdcTable.KeyInjective | iqrf/cdc.py:71-106 | no two members share a direction and a token |
| CdcTable.TokenShape | iqrf/cdc.py:71-106 | tokens are capitals only, and a parameterizable member is valuable and has a token |
| CdcTable.First | iqrf/cdc.py:112-118 | None exactly when no member matches; otherwise the first member that matches |
| CdcTable.GetIff | iqrf/cdc.py:111-118 | `CdcMessage.get` returns a member exactly when that member matches all four attributes |
| CdcTable.BracketTail | iqrf/cdc.py:129-131 | `(.+)\]$` takes a non-empty parameter without '\n' before the final ']' or "]\n" |
| CdcTable.ParameterMatch | iqrf/cdc.py:129-131 | a match is a non-empty token, '[', a non-empty parameter and ']'; text without '[' never matches |
| CdcTable.ParameterMatchOf | iqrf/cdc.py:129-131 | a bracket-free token followed by "[parameter]" matches with exactly that token and parameter |
| CdcTable.Encode | iqrf/cdc.py:197-236 | encoding succeeds exactly when the value's and the parameter's presence agree with the member's flags, else EncodeError; the frame starts with the direction byte and ends in '\r' |
| CdcTable.Frame | iqrf/cdc.py:139-154 | the frame is the direction byte, the body and '\r', which must be present when checked; anything else raises |
| CdcTable.SplitBody | iqrf/cdc.py:159-186 | a body split on ':' fails only with a decode error |
| CdcTable.PartsOf | iqrf/cdc.py:161-186 | the split fails exactly for more than two parts |
| CdcTable.LookUp | iqrf/cdc.py:190-195 | the result is the matching member with the observed parameter and value, and DecodeError exactly when none matches |
| CdcTable.Decode | iqrf/cdc.py:133-195 | every failure is CdcMessageDecodeError |
| CdcTable.SplitBodyOf | iqrf/cdc.py:159-183 | a body built from a token, a parameter and a value reads back as exactly those parts |
| CdcTable.SplitBodyParts | iqrf/cdc.py:159-183 | a body without '\n' is its token, its bracketed parameter and its ':value' |
| CdcTable.DecodeEncode | iqrf/cdc.py:133-236 | `decode_cdc_message(encode_cdc_message(m, p, v)) == (m, p, v)` when neither p nor v holds ':' and p is non-empty without '\n' |
| CdcTable.EncodeDecode | iqrf/cdc.py:133-236 | encoding what a '\n'-free frame decodes to gives the frame back |
| CdcTable.EncodeDecodeNeedsNoLineFeed | iqrf/cdc.py:129-131 | a '\n' after the closing ']' is dropped by decoding, so the frame is not re-encoded |
| CdcTableIo.Lift | iqrf/cdc.py:289 | a decoding failure propagates unchanged from `read_cdc_message` |
| CdcTableIo.ReadSpec | iqrf/cdc.py:282-291 | the read loop as a function; bounded by the oracle |
| CdcTableIo.ReadSpecFrame | iqrf/cdc.py:283-287 | the frame is the prefix of everything buffered and read up to and including the first '\r', and exactly the rest stays buffered |
| CdcTableIo.ReadSpecNoFrame | iqrf/cdc.py:259-291 | with no frame, everything read stays buffered; a timeout comes from an empty read with a positive timeout |
| CdcTableIo.CdcIO.constructor | iqrf/cdc.py:244-248 | an empty buffer and the given timeout |
| CdcTableIo.CdcIO.ReadCdcMessage | iqrf/cdc.py:272-291 | the `while True` loop computes `ReadSpec`, then decodes the frame |
| CdcTableFixtures.SimpleMessages | tests/cdc_codec_test.py:4-13 | every SIMPLE_MESSAGES entry encodes to its frame and decodes back |
| CdcTableFixtures.ValueMessages | tests/cdc_codec_test.py:15-22 | the same for VALUE_MESSAGES |
| CdcTableFixtures.ParameterMessages | tests/cdc_codec_test.py:24-27 | the same for PARAMETER_MESSAGES |
| CdcTableFixtures.InfoMessage | tests/cdc_codec_test.py:17 | "<I:GW-USB-03#02.01#03010000\r" encodes and decodes with the whole info as one value |
| CdcTableDecoder.IdsRepeat | iqrf/cdc/codec.py:56-57 | this enumeration repeats the id 22 too |
| CdcTableDecoder.Original | iqrf/cdc/codec.py:21-57 | each renamed member comes from a member of iqrf/cdc.py |
| CdcTableDecoder.RenamedValue | iqrf/cdc/codec.py:21-57 | a renamed member carries the same value as its original |
| CdcTableDecoder.RenamedInjective | iqrf/cdc/codec.py:21-57 | the renaming is one to one |
| CdcTableDecoder.RenamedMembers | iqrf/cdc/codec.py:21-57 | the renaming keeps the definition order |
| CdcTableDecoder.FirstMatch | iqrf/cdc/codec.py:74-82 | None exactly when no member matches; otherwise the first member that matches |
| CdcTableDecoder.MessageTypeByParametersRenamed | iqrf/cdc/codec.py:74-82 | `_get_message_type_by_parameters` finds the renamed member `CdcMessage.get` of iqrf/cdc.py finds |
| CdcTableDecoder.Decode | iqrf/cdc/codec.py:100-155 | every failure is CdcMessageDecodeError; a decoded frame has a direction byte and a final '\r' |
| CdcTableDecoder.FrameAgrees | iqrf/cdc/codec.py:101-113 | both revisions strip the same direction byte and '\r' and keep the same body |
| CdcTableDecoder.DecodeAgrees | iqrf/cdc/codec.py:100-155 | this decoder decodes every input as the terminator-checking decoder of iqrf/cdc.py does, up to renaming |
| CdcTableDecoder.DecodeEncoded | iqrf/cdc/codec.py:100-155 | a frame iqrf/cdc.py encodes decodes here to the renamed member, parameter and value |
| CdcTableDecoder.EncodeDecoded | iqrf/cdc/codec.py:100-155 | a '\n'-free frame that decodes here is the frame iqrf/cdc.py encodes from the result |
| CdcTableDecoderFixtures.SimpleMessages | test/cdc/codec_test.py:8-17 | every SIMPLE_MESSAGES entry decodes to its member |
| CdcTableDecoderFixtures.ValueMessages | test/cdc/codec_test.py:19-26 | the same for VALUE_MESSAGES |
| CdcTableDecoderFixtures.ParameterMessages | test/cdc/codec_test.py:28-31 | the same for PARAMETER_MESSAGES |
| CdcTableDecoderFixtures.InfoMessage | test/cdc/codec_test.py:21 | the device information frame decodes with the whole info as one value |

## Left out

- The devices. This covers the serial port, the GPIO and ioctl SPI transfer, and `RawCdcIO`/`RawSpiIo`. It also covers `CdcIO.read`, `write`, `write_cdc_message`, `remaining`, `close` and `open` in iqrf/cdc.py. These are foreign calls. Reads, status polls and transfer replies are oracle sequences given to the methods. Written CDC frames and transferred SPI frames are recorded in a sequence field.
- Wall-clock time and `time.sleep`. Each probe, condition evaluation and sleep of `wait` takes a non-negative integer time from the oracle. Floating-point time is not modelled.
- CdcTableIo.ReadSpec: the timeout of `CdcIO` (iqrf/cdc.py:244, 266) is an integer, not a float or None. Only its sign decides whether an empty read raises `CdcReadTimeoutError`. A timeout of None, for which `None > 0` raises TypeError on an empty read, is not modelled.
- The 1024-byte read size of the CDC channels. A chunk of the oracle can have any length.
- Running out of oracle entries. This is the outcome `EndOfInput` (CDC, SPI) or `Exhausted` (`wait`). The source cannot produce it, because the device would be read again.
- `_get_response_type_by_token` (iqrf/cdc/codec.py:84-89). It is dead code that calls an undefined `_is_response`.
- The unreachable error branches. The message kinds are a closed datatype, so some branches cannot be taken: "Not a CDC message!" and "Unknown status token!" of the transport codec, the "Invalid direction!" of `encode_cdc_message`, and the "Unknown direction!" of `decode_cdc_message`. The model leaves them out.
- `str.encode` and `bytes.decode`, which the info messages use for their fields. They are taken as the identity on bytes.
- The abstract bases of src/iqrf/util/codec.py and src/iqrf/cdc/codec.py. They become the message datatypes.
- The handler and pipeline prototype, UDP and asyncio transports, `DpaMessage`, logging and packaging. None of these is part of this model.
- SpiIo.BufferedSpiIo.Send: the drain loop's reactions are appended to the queue after the loop, not one at a time inside it. Nothing reads the queue in between, so the final state is the same.
- SpiIo.BufferedSpiIo.Send: the status polls are not recorded in `transferred`. Only the receive requests and the request frame are.
- SpiIo.Exchange: the reply oracle is not tied to the length of the frame sent. A transfer of the device returns as many bytes as it is given, but here a reply of any length is taken and decoded as the code decodes it.
- CdcTableDecoder.Decode: its own contract states only the error kind and the shape of an accepted frame. Its full behaviour is stated by `CdcTableDecoder.DecodeAgrees`, which equates it with `CdcTable.Decode`.
- The `check_terminator=False` mode of `decode_cdc_message` (iqrf/cdc.py). It is modelled by `CdcTable.Frame` and `CdcTable.Decode`, but no round-trip is proved for it.

## Findings

| source | as written | input that shows it | evidently intended | confidence | as-written member | corrected member |
|---|---|---|---|---|---|---|
| iqrf/cdc.py:106 | SWITCH_TO_SPI_RESPONSE has the id 22 of SWITCH_TO_SPI; iqrf/cdc/codec.py:57 repeats it | the members SWITCH_TO_SPI and SWITCH_TO_SPI_RESPONSE | ids numbered 0..23 in definition order, so the response is 23 | not executed | CdcTable.IdsRepeat | CdcTable.IdInjective |
| src/iqrf/transport/cdc_io.py:93 | a frame that decodes to neither a response nor a reaction raises through `cdc.CdcCodecError`, and `cdc` is undefined, so the error is NameError | ">\r" (a test request) read while awaiting a response | raise `cdc_codec.CdcCodecError`, as `_read_cdc_reaction` does | not executed | TransportCdcIo.TestRequestEcho | TransportCdcIo.HandleResponse |
| iqrf/cdc/io.py:80 | an asynchronous response is appended to `_async_message_queue`, which is never created, so the read raises AttributeError | "<DR\x02:Hi\r" read while awaiting a response | append it to `_async_response_queue`, created at line 62 | not executed | IqrfCdcIo.DataReceivedHi | IqrfCdcIo.HandleResponse |
| iqrf/cdc/io.py:137-138 | `receive` tests `_async_message_queue`, which is never created, so every blocking call raises AttributeError | `receive(None)` | pop the oldest entry of `_async_response_queue`, else read one | not executed | IqrfCdcIo.ReceiveAsWritten | IqrfCdcIo.BufferedCdcIO.Receive |
| src/iqrf/transport/spi_io.py:154 | `range(0x40, 0x7f)` leaves out 0x7F, the data-ready status for 63 bytes; the same range is at line 144 | a poll answering 0x7F: `wait` goes on polling and 63 waiting bytes are never read | the whole band 0x40..0x7F, up to `DATA_READY_MAX` inclusive, every count 1..64 readable | not executed | SpiIo.SixtyThreeBytesWaiting | SpiIo.ReadableOfReadyStatus |
