# Kepler server: J1939 identifier codec and request/reply loop

The Kepler server is a small SocketCAN service. It waits for SAE J1939
request messages (PGN 0xFF14) that carry a raw mean anomaly and a raw
eccentricity. It solves Kepler's equation for them and answers on the global
address with a results message (PGN 0xFF15). That message holds the raw
eccentric anomaly in payload bytes 0-3.

The project models three parts.

- `j1939.dfy`, module `J1939`: the identifier codec. It has three members:
  - `ParseJ1939` splits a 29-bit extended identifier into priority, PGN,
    destination address and source address. An identifier is PDU1 or PDU2
    by its PDU format byte.
  - `GetJ1939Id` puts those fields back together, exactly as the server's C
    code does.
  - `GetJ1939IdCorrected` fixes the encoder's format test (see Findings).

  Identifier words are `bv32`, so the masks, shifts, additions and the
  extended-frame flag (bit 31) are the C code's own. The lemmas cover:
  - the field layout;
  - the round trips in both directions, for the encoder as written and for
    the corrected one;
  - what each format ignores;
  - where the two encoders agree.
- `byte_order.dfy`, module `ByteOrder`: the little-endian packing that the
  server's `memcpy` of `uint32_t`/`uint16_t` relies on, with its round trips.
- `kepler_server.dfy`, module `KeplerServer`: the server loop.
  - `Step` and `Run` specify one pass and a whole trace of reads.
  - The `FrameBuffer` class is the single `struct can_frame` that the loop
    reads into and then overwrites with the reply.
  - `Serve` is the loop itself, proved to write exactly the frames `Run`
    specifies.
  - The lemmas say which frames are answered and what is written.

The floating-point part of a request is a parameter, `solve`. It maps the
raw 32-bit mean anomaly and the raw 16-bit eccentricity to the raw 32-bit
result. This covers the scalings and the Newton solver together.

## Model

| member | source | states |
|---|---|---|
| `J1939.MaskLayout` | AMP-Practice-A-Keplers-Law/BBB/src/kepler_server.h:19-26 | The six field masks tile bits 0-28 without overlap. The PDU1 PGN mask is EDP, DP and PF. The PDU2 PGN mask adds PS. |
| `J1939.ParseJ1939` | AMP-Practice-A-Keplers-Law/BBB/src/kepler_server_source_patch_1.c:49-69 | The decoded priority is at most 7, since it is three bits of the identifier. |
| `J1939.PduFormat` | AMP-Practice-A-Keplers-Law/BBB/src/kepler_server_source_patch_1.c:55 | The PF byte is the field under `PF_MASK`, shifted down by 16. |
| `J1939.PduSpecific` | AMP-Practice-A-Keplers-Law/BBB/src/kepler_server_source_patch_1.c:57 | The PS byte is the field under `PS_MASK`, shifted down by 8. |
| `J1939.ParsePriorityMask` | AMP-Practice-A-Keplers-Law/BBB/src/kepler_server_source_patch_1.c:53 | The decoded priority is the field under `PRIORITY_MASK`, shifted down by 26. |
| `J1939.ParseSaMask` | AMP-Practice-A-Keplers-Law/BBB/src/kepler_server_source_patch_1.c:67 | The decoded source address is the field under `SA_MASK`. |
| `J1939.ParsePgnMasks` | AMP-Practice-A-Keplers-Law/BBB/src/kepler_server_source_patch_1.c:59-66 | The decoded PGN is the field under `PDU2_PGN_MASK` when PF >= 0xF0 and under `PDU1_PGN_MASK` otherwise, shifted down by 8. |
| `J1939.ParseJ1939Fields` | AMP-Practice-A-Keplers-Law/BBB/src/kepler_server_source_patch_1.c:53-68 | Decoding reads priority from bits 26-28 and source address from bits 0-7. PF >= 0xF0 gives destination 255 and an 18-bit PGN holding PS as group extension. PF < 0xF0 gives destination PS and a PGN whose low byte is 0. |
| `J1939.ParseIgnoresTopBits` | AMP-Practice-A-Keplers-Law/BBB/src/kepler_server_source_patch_1.c:53-68 | Bits 29-31, including the extended-frame flag, never change the decoded header. |
| `J1939.ParseFormatBoundary` | AMP-Practice-A-Keplers-Law/BBB/src/kepler_server_source_patch_1.c:59-66 | PF 0xF0 is already PDU2 (destination 255). PF 0xEF is still PDU1 (destination PS, PGN low byte 0). |
| `J1939.GetJ1939Id` | AMP-Practice-A-Keplers-Law/BBB/src/kepler_server_source_patch_1.c:80-92 | Every identifier it builds has the extended-frame flag, bit 31, set. |
| `J1939.GetJ1939IdFields` | AMP-Practice-A-Keplers-Law/BBB/src/kepler_server_source_patch_1.c:81-90 | The built identifier carries the priority in bits 26-28 and the source address in bits 0-7. For PGN >= 0xF000 bits 8-25 hold the low 18 PGN bits. Below 0xF000 they hold the PGN's data pages and PF plus the destination as PS. |
| `J1939.GetJ1939IdIgnoresDaInPdu2` | AMP-Practice-A-Keplers-Law/BBB/src/kepler_server_source_patch_1.c:82-84 | When the encoder picks PDU2, the destination address has no effect on the identifier. |
| `J1939.GetJ1939IdIgnoresPgnLowByteInPdu1` | AMP-Practice-A-Keplers-Law/BBB/src/kepler_server_source_patch_1.c:85-87 | When the encoder picks PDU1, the PGN's low byte has no effect on the identifier. |
| `J1939.ParseAfterGetJ1939Id` | AMP-Practice-A-Keplers-Law/BBB/src/kepler_server_source_patch_1.c:49-92 | On data page 0 (PGN <= 0xFFFF), decoding the encoder's identifier returns the priority, PGN and source. For PDU2 the destination comes back as 255. For PDU1 with PGN low byte 0 it comes back as given. |
| `J1939.GetJ1939IdAfterParse` | AMP-Practice-A-Keplers-Law/BBB/src/kepler_server_source_patch_1.c:49-92 | Re-encoding a decoded header rebuilds bits 0-28 of the identifier, with bit 31 set. This holds when the identifier is PDU2 or has both data-page bits clear. |
| `J1939.ParseAfterGetJ1939IdAsWritten` | AMP-Practice-A-Keplers-Law/BBB/src/kepler_server_source_patch_1.c:49-92 | For every canonical PGN (18 bits, low byte 0 unless PF >= 0xF0) and priority <= 7, decoding the as-written encoder's output returns the priority, PGN and source. The destination comes back as 255 for PF >= 0xF0. It comes back as 0 for a PDU1 group on a data page (PGN >= 0xF000, PF < 0xF0). Otherwise it comes back as given. |
| `J1939.GetJ1939IdAfterParseAsWritten` | AMP-Practice-A-Keplers-Law/BBB/src/kepler_server_source_patch_1.c:49-92 | Re-encoding any decoded identifier with the as-written encoder rebuilds bits 0-28 with bit 31 set. The one exception is a PDU1 identifier with DP or EDP set: it loses its PS byte. |
| `J1939.DataPageRoundTripCounterexample` | AMP-Practice-A-Keplers-Law/BBB/src/kepler_server_source_patch_1.c:82 | The concrete inputs of the finding below. Encoding PGN 0x1EF00 to the global address and decoding it loses the destination. Identifier 0x81EF1234 does not re-encode to itself. |
| `J1939.GetJ1939IdCorrected` | AMP-Practice-A-Keplers-Law/BBB/src/kepler_server_source_patch_1.c:80-92 | The corrected encoder also always sets the extended-frame flag. |
| `J1939.ParseAfterGetJ1939IdCorrected` | AMP-Practice-A-Keplers-Law/BBB/src/kepler_server_source_patch_1.c:49-92 | For every canonical PGN and priority <= 7, the corrected encoder is a right inverse of decoding. The destination comes back as 255 in PDU2 and as given in PDU1. |
| `J1939.GetJ1939IdCorrectedAfterParse` | AMP-Practice-A-Keplers-Law/BBB/src/kepler_server_source_patch_1.c:49-92 | The corrected encoder rebuilds every identifier's bits 0-28 from its decoded header, with bit 31 set. |
| `J1939.GetJ1939IdCorrectedAgrees` | AMP-Practice-A-Keplers-Law/BBB/src/kepler_server_source_patch_1.c:80-92 | On data page 0 the corrected and as-written encoders give the same identifier. |
| `ByteOrder.Le32` | AMP-Practice-A-Keplers-Law/BBB/src/kepler_server_source_patch_1.c:279 | The four bytes written for a 32-bit word read back as that word. |
| `ByteOrder.FromLe32` | AMP-Practice-A-Keplers-Law/test_scripts/test_03_input_cases.py:17-23 | Payload byte k is bits 8k to 8k+7 of the word read from it: byte 0 is the least significant, byte 3 the most. |
| `ByteOrder.Le32FromLe32` | AMP-Practice-A-Keplers-Law/BBB/src/kepler_server_source_patch_1.c:244 | Any four bytes are the little-endian encoding of the word they are read as. |
| `ByteOrder.Le16` | AMP-Practice-A-Keplers-Law/test_scripts/test_03_input_cases.py:25-27 | The two bytes written for a 16-bit word read back as that word. |
| `ByteOrder.FromLe16` | AMP-Practice-A-Keplers-Law/BBB/src/kepler_server_source_patch_1.c:245 | Byte 0 is the low byte and byte 1 the high byte of the 16-bit word read from them. |
| `ByteOrder.Le16FromLe16` | AMP-Practice-A-Keplers-Law/BBB/src/kepler_server_source_patch_1.c:245 | Any two bytes are the little-endian encoding of the word they are read as. |
| `KeplerServer.Reply` | AMP-Practice-A-Keplers-Law/BBB/src/kepler_server_source_patch_1.c:273-279 | The results frame has identifier 0x98FF1500, length 8, the result little-endian in bytes 0-3 and 0xFF in bytes 4-7. |
| `KeplerServer.ReplyIdEncoded` | AMP-Practice-A-Keplers-Law/BBB/src/kepler_server_source_patch_1.c:273-276 | Both encoders produce 0x98FF1500 for priority 6, PGN 0xFF15, source 0 and the global address. It decodes back to exactly those fields. |
| `KeplerServer.IsRequest` | AMP-Practice-A-Keplers-Law/BBB/src/kepler_server_source_patch_1.c:237-239 | A frame is taken for a request exactly when decoding its identifier yields the request PGN 0xFF14. |
| `KeplerServer.RequestFilter` | AMP-Practice-A-Keplers-Law/BBB/src/kepler_server_source_patch_1.c:237-239 | Decoding an identifier yields PGN 0xFF14 exactly when its bits 8-25 are 0xFF14, whatever its priority, source address and bits 29-31. |
| `KeplerServer.RawMeanAnomaly` | AMP-Practice-A-Keplers-Law/BBB/src/kepler_server_source_patch_1.c:244 | The raw mean anomaly is the word whose little-endian bytes are payload bytes 0-3. |
| `KeplerServer.RawEccentricity` | AMP-Practice-A-Keplers-Law/BBB/src/kepler_server_source_patch_1.c:245 | The raw eccentricity is the word whose little-endian bytes are payload bytes 4-5. |
| `KeplerServer.Step` | AMP-Practice-A-Keplers-Law/BBB/src/kepler_server_source_patch_1.c:232-281 | One pass writes at most one frame. A frame written is a results frame and is left in the buffer. |
| `KeplerServer.ReplyIsNotRequest` | AMP-Practice-A-Keplers-Law/BBB/src/kepler_server_source_patch_1.c:237-239 | A results frame never passes the request test. |
| `KeplerServer.StepReplies` | AMP-Practice-A-Keplers-Law/BBB/src/kepler_server_source_patch_1.c:231-283 | A pass writes at most one frame. It writes one exactly when the read count is nonzero and the buffer then holds a request. The frame written answers that request's raw fields and stays in the buffer. Otherwise the buffer is what the read left. |
| `KeplerServer.FailedReadAfterReply` | AMP-Practice-A-Keplers-Law/BBB/src/kepler_server_source_patch_1.c:232-239 | A failed (negative) read after a reply leaves the reply in the buffer. It writes nothing, because the stale reply is not a request. |
| `KeplerServer.ClientRequestAnswered` | AMP-Practice-A-Keplers-Law/test_scripts/test_03_input_cases.py:29-42 | The test client's identifier 0x98FF1417 decodes to priority 6, PGN 0xFF14, destination 255, source 0x17. Its request with little-endian fields m and e is answered with the reply to solve(m, e). |
| `KeplerServer.Run` | AMP-Practice-A-Keplers-Law/BBB/src/kepler_server_source_patch_1.c:231-283 | The loop writes at most one frame per read. |
| `KeplerServer.RunWritesReplies` | AMP-Practice-A-Keplers-Law/BBB/src/kepler_server_source_patch_1.c:273-280 | Every frame the loop writes is a results frame. |
| `KeplerServer.RunDelivered` | AMP-Practice-A-Keplers-Law/BBB/src/kepler_server_source_patch_1.c:231-283 | When every read delivers a frame, the loop writes exactly one answer per delivered request, in order. It writes nothing for other frames, whatever the buffer held before. |
| `KeplerServer.RunAnswers` | AMP-Practice-A-Keplers-Law/BBB/src/kepler_server_source_patch_1.c:231-283 | From a buffer holding no request, on any trace of zero, failed and successful reads, the loop writes exactly one answer per request delivered by a successful read, in order. |
| `KeplerServer.RunSkipsEmptyReads` | AMP-Practice-A-Keplers-Law/BBB/src/kepler_server_source_patch_1.c:233-236 | Zero-length reads do not affect what the loop writes. |
| `KeplerServer.FrameBuffer.Receive` | AMP-Practice-A-Keplers-Law/BBB/src/kepler_server_source_patch_1.c:232 | A successful read replaces the whole buffer with the delivered frame. |
| `KeplerServer.FrameBuffer.WriteReply` | AMP-Practice-A-Keplers-Law/BBB/src/kepler_server_source_patch_1.c:273-279 | Setting the identifier with the server's encoder, the length, filling the data with 0xFF and copying the result over bytes 0-3 leaves the results frame in the buffer. |
| `KeplerServer.FrameBuffer.Handle` | AMP-Practice-A-Keplers-Law/BBB/src/kepler_server_source_patch_1.c:232-281 | One pass on the buffer produces the new buffer and the written frames that `Step` specifies. |
| `KeplerServer.Serve` | AMP-Practice-A-Keplers-Law/BBB/src/kepler_server_source_patch_1.c:231-283 | The loop over a trace of reads writes exactly the frames `Run` specifies. |

## Left out

- The solver `Keplers_Law`, `formula` and `formula_derivative` (kepler_server_source_patch_1.c:136-180) are left out. They are single-precision floating point with a Newton loop that need not terminate. The model makes them, with the scalings around them, one total function `solve` on raw words.
- The fixed-point scalings of the request and the result (kepler_server_source_patch_1.c:247-271) are left out. They are floating point and belong to `solve`. A hang in the solver is therefore not modelled: every request is answered.
- `init_can`, `usage`, the signal and alarm handlers, `printf`, `sleep` and the socket calls themselves are left out. They are I/O. A read is modelled as its returned count plus the delivered frame.
- Partial reads are not modelled separately. Any positive count is taken to deliver the whole frame. A negative count leaves the buffer as it was, and the loop still decodes and tests it, as the C code does.
- The endless loop is modelled over a finite trace of reads. Signals that stop the server are left out.
- The padding and reserved bytes of `struct can_frame` are not modelled. A frame is identifier word, length code and eight data bytes.
- `CLIENT_SA` (kepler_server.h:29) is not used by the loop, which answers requests from any source address. It is kept only as a constant.
- The Python test scripts drive a running server over a virtual CAN bus. Only the frames they send and expect are reflected, in `ClientRequestAnswered` and `ReplyIdEncoded`.
- J1939.GetJ1939Id: requires priority <= 7. A larger priority would carry out of bits 26-28 into the data pages and flags, and from 32 upwards the C shift is undefined. The server only passes 6.
- J1939.GetJ1939IdCorrected: requires priority <= 7, for the same reason.

## Findings

The decoder and the encoder choose between PDU1 and PDU2 by different tests.
- The decoder (line 59) tests the PDU format byte, PF >= 0xF0. That is the
  J1939-21 rule.
- The encoder (line 82) compares the whole PGN with 0xF000.

The two tests differ only on PGNs with a data-page bit set. There the encoder
treats a PDU1 group (PF < 0xF0) as PDU2. So it drops the destination address
and keeps the PGN's low byte as PS.

| source | as written | input that shows it | evidently intended | confidence | as-written member | corrected member |
|---|---|---|---|---|---|---|
| AMP-Practice-A-Keplers-Law/BBB/src/kepler_server_source_patch_1.c:82 | PDU2 is chosen when pgn >= 0xF000, while the decoder (line 59) chooses it when PF >= 0xF0 | get_j1939_id(6, 0x1EF00, 0x17, 255) = 0x99EF0017, which decodes with destination 0, not 255; id 0x81EF1234 decodes to (0, 0x1EF00, 0x12, 0x34) and re-encodes to 0x81EF0034 | choose PDU2 exactly when the PGN's PF byte is at least 0xF0, so the encoder inverts the decoder | not executed | `J1939.DataPageRoundTripCounterexample` | `J1939.GetJ1939IdCorrected` |

The server only ever encodes PGN 0xFF15, on data page 0. On data page 0
both encoders agree (`GetJ1939IdCorrectedAgrees`), so the server's replies
are unaffected.
