# Bodet Scorepad capture: a verified model of the protocol path

This project models the byte-level path of the Bodet Scorepad capture tool in Dafny.
The path runs from the TCP byte stream that a scoreboard console sends to the match state that the tool publishes for broadcast overlays.
It has four parts:

- **Frame assembler** (`Capture`). This is the rolling buffer of `_handle_client`.
  - Every read extends the buffer.
  - The inner loop then drops the bytes before the first SOH (0x01), or clears the buffer when there is none.
  - It finds the first ETX (0x03) after offset 0 and waits for the checksum byte that follows it.
  - It cuts SOH..ETX+LRC off the front and queues that frame.
  - `Extract` specifies one run of that inner loop, every iteration up to its exit, as a recursive function. `CutFrames` is the loop itself, and `CaptureServer.HandleClient` is the read loop around it.
  - `_process_messages` is `CaptureServer.ProcessMessages`: it drains the queue in order, parses each frame and updates the state for those that parse. `ProcessAll` specifies it.
- **Validator and decoder** (`Parser`). This is `MessageParser`.
  - It performs the structural checks, then an ETX search from offset 3.
  - It computes the XOR checksum (LRC) from the address through ETX. A mismatch is tolerated, not rejected.
  - It dispatches on the second payload byte to the score, clock, penalties or generic decoder.
  - `Parse` is the specification function and `ParseMessage` is the method with the source's loops.
- **Clock text** (`ClockText`). This is the `MM:SS` rendering of a decoded clock, for fields in 0..99.
- **Match state** (`Output`). This covers the initial `match_data` record and `_update_match_data`, which is last-write-wins on score, time and period. `OutputHandler` is the object, and `Merge` is the update written on values.
- **Frame builder** (`TestMessages`). This covers `calculate_lrc` and `create_message` of the test sender. The round-trip lemmas cover the stages one by one and together:
  - `CreatedMessagesSurviveAnySplit` covers the assembler;
  - `ParseCreatedMessage` covers the validator;
  - `ScoreMessageRoundTrip` and `ClockMessageRoundTrip` cover the validator and the state update;
  - `ScoreFrameThroughPipeline` chains all three, from the chunked byte stream to the published score.

The shared vocabulary is in `Bytes`:

- `byte` is `bv8`, so XOR and the `& 0xFF` mask are exact.
- `IndexOf` is Python's `bytes.find`.
- There are the ASCII digit and printable tests.

Points of the code that the model keeps as they are:

- A checksum mismatch is only logged; the parsed record carries no validity flag. `ParseIgnoresChecksum` states that the checksum byte has no effect.
- A non-digit byte is not read as the digit 0. The code substitutes the integer 0 for the byte before subtracting 0x30. A digit tens byte with a non-digit ones byte therefore gives `10 * tens - 48` for a score. A clock with a non-digit seconds-tens byte and a digit seconds-ones byte gives `-480 + ones` seconds. `ParseScore` and `ParseClock` state these values.
- `calculate_lrc` in the test sender and `_calculate_lrc` in the parser are the same loop. Both are modelled by the one method `Parser.CalculateLrc`.
- The client-mode copy of the framing loop (src/bodet_capture.py:272-307) is identical to the server-mode one (src/bodet_capture.py:111-146). It is modelled once.

## Model

| member | source | states |
|---|---|---|
| Bytes.IndexOf | src/bodet_capture.py:113 | `bytes.find`: the result is -1 or an index at or after `start` holding the byte |
| Bytes.IndexOfSpec | src/bodet_capture.py:113-114 | -1 exactly when no byte from `start` on matches; otherwise the first match |
| Parser.CalculateLrc | src/message_parser.py:87-102 | the accumulator loop returns the XOR fold `Lrc` of the input; `calculate_lrc` at src/test_messages.py:12-17 is the same loop and has the same result |
| Parser.LrcAppend | src/message_parser.py:99-102 | the checksum of a concatenation is the XOR of the two checksums |
| Parser.LrcSelfCancel | src/message_parser.py:99-102 | appending its own checksum to a sequence makes the checksum of the whole 0 |
| Parser.LrcUpdate | src/message_parser.py:99-102 | replacing one byte changes the checksum by exactly the XOR difference |
| Parser.LrcDetectsSingleByteError | src/message_parser.py:76-77 | corrupting any bits of a single byte changes the checksum |
| Parser.ParseScore | src/message_parser.py:181-212 | a score only for payloads of 10+ bytes; a non-digit tens byte gives 0; two digits give 10·tens+ones in 0..99; a digit tens byte with a non-digit ones byte gives 10·tens−48 |
| Parser.ParseClock | src/message_parser.py:214-241 | a time exactly when the length is 8+ and byte 5 is a digit; minutes in 0..99 (tens alone when byte 6 is no digit); at length 8 the seconds are the single byte-7 digit; all four seconds cases, including −480+ones |
| Parser.ParsePenalties | src/message_parser.py:243-248 | the penalties decoder adds no field |
| Parser.ByteAnalysis | src/message_parser.py:255-259 | the byte trace has min(20, len) entries, and entry i describes byte i |
| Parser.ParseRollerHockeyGeneric | src/message_parser.py:250-276 | the two append loops produce the byte trace and the printable runs of `GenericFields` |
| Parser.ParseData | src/message_parser.py:104-179 | None exactly for payloads under 2 bytes; otherwise raw data, length, byte1 and byte2 recorded; the type is decided by byte 2 alone (0x36, 0x37, 0x38, anything else); a 0x36 payload carries exactly the score decoder's fields, a 0x37 payload the clock decoder's, a 0x38 payload none, any other the generic decoder's; no period |
| Parser.ParseMessage | src/message_parser.py:26-85 | the checks, the ETX search loop and the (non-fatal) LRC computation give `Parse(raw)` |
| Parser.ParseRejects | src/message_parser.py:38-71 | too short, wrong SOH, wrong STX, no ETX from offset 3, or no byte after ETX: each gives None |
| Parser.ParseAccepts | src/message_parser.py:61-85 | a structurally valid frame decodes exactly its payload and succeeds iff that payload has 2+ bytes |
| Parser.ParseIgnoresAddress | src/message_parser.py:47-48 | any address byte gives the same outcome |
| Parser.ParseIgnoresChecksum | src/message_parser.py:73-85 | any checksum byte, and any bytes after it, give the same outcome |
| Parser.DispatchOnSecondByte | src/message_parser.py:166-177 | two payloads with the same second byte get the same type |
| Parser.ParseNeverSetsPeriod | src/message_parser.py:147-177 | no parsed message carries a period |
| Parser.RunsContents | src/message_parser.py:262-274 | every run is non-empty and printable; together the runs spell the current run followed by the printable bytes |
| Parser.SegmentsSpellPrintables | src/message_parser.py:262-274 | the ASCII segments are non-empty printable strings whose concatenation is the payload's printable bytes |
| Parser.SegmentsSplitAtControl | src/message_parser.py:264-270 | a non-printable byte separates the segments before it from those after it |
| Parser.SegmentsOfPrintableRun | src/message_parser.py:264-265 | a non-empty all-printable payload is one segment |
| Parser.AsciiSegmentsPresence | src/message_parser.py:267-274 | the `ascii_segments` key is absent exactly when no byte is printable |
| Parser.PrintablesEmpty | src/message_parser.py:264 | no printable characters exactly when no byte is printable |
| ClockText.Pad2 | src/message_parser.py:237 | `:02d` of 0..99 is two digits whose value is the number |
| ClockText.FormatTime | src/message_parser.py:237 | the time text is five characters: two digits, a colon, two digits |
| ClockText.ClockDigitsRoundTrip | src/message_parser.py:226-237 | when bytes 5..8 of a clock payload are digits, the time text repeats those four digits around a colon |
| Output.InitialMatchData | src/output_handler.py:25-56 | score 0–0, clock "00:00" in period 1, four idle penalty slots at "00:00" |
| Output.OutputHandler.constructor | src/output_handler.py:17-56 | the handler starts from the initial match state |
| Output.Merge | src/output_handler.py:107-123 | the penalties are never touched |
| Output.MergeFields | src/output_handler.py:118-123 | each of score, time and period takes the message's value when the message carries it and keeps the old one otherwise |
| Output.MergeWithoutFieldsIsIdentity | src/output_handler.py:118-123 | a message with none of score, time or period leaves the state unchanged |
| Output.MergeIdempotent | src/output_handler.py:118-123 | applying the same message twice equals applying it once |
| Output.MergeLastWriteWins | src/output_handler.py:118-123 | after two messages, what the second carries wins, and what only the first carries survives |
| Output.OutputHandler.UpdateMatchData | src/output_handler.py:107-123 | the in-place overwrites leave `Merge(old state, message)`, with the penalties unchanged |
| Capture.ExtractStartingAtSoh | src/bodet_capture.py:113-125 | a buffer that starts with SOH loses nothing to the SOH scan |
| Capture.ExtractFromFirstSoh | src/bodet_capture.py:122-125 | dropping the bytes before the first SOH does not change the outcome |
| Capture.ExtractCut | src/bodet_capture.py:134-142 | a complete frame at the front is emitted, and the loop goes on with what follows it |
| Capture.FirstFrameIsFrame | src/bodet_capture.py:128-136 | the span cut off the front starts with SOH, has length 3 or more, and has its first ETX after offset 0 at length−2 |
| Capture.ExtractShape | src/bodet_capture.py:111-146 | every emitted frame is well formed; the buffer ends empty or starting with SOH and holding no complete frame; a buffer without SOH is cleared and emits nothing |
| Capture.ExtractNoSoh | src/bodet_capture.py:113-120 | a non-empty buffer whose SOH scan fails is cleared and emits nothing |
| Capture.ExtractIncomplete | src/bodet_capture.py:128-146 | a buffer that starts with SOH and holds no complete frame is kept as it is |
| Capture.ResidueIsStable | src/bodet_capture.py:111-146 | running the loop again on what it left behind changes nothing |
| Capture.ExtractAfterGarbage | src/bodet_capture.py:113-125 | bytes without SOH in front of a stream are discarded as if they had never arrived |
| Capture.ExtractAppend | src/bodet_capture.py:108-146 | the loop over buf ++ c equals the loop over buf, then the loop over its residue ++ c |
| Capture.ExtractFrameFirst | src/bodet_capture.py:134-142 | a frame at the front of the buffer is emitted first, and the rest is processed on its own |
| Capture.ExtractConcatenatedFrames | src/bodet_capture.py:111-142 | frames that arrive back to back in one chunk are all emitted, in wire order, and the buffer ends empty |
| Capture.SkippedCount | src/bodet_capture.py:122-125 | one dropped run before each emitted frame, plus one at the end |
| Capture.SkippedHasNoSoh | src/bodet_capture.py:113-125 | no dropped run holds an SOH byte |
| Capture.ExtractConserves | src/bodet_capture.py:122-137 | the input is exactly dropped₀ ++ frame₀ ++ dropped₁ ++ … ++ droppedₙ ++ residue: nothing is reordered or duplicated, and only SOH-free runs are lost |
| Capture.FeedAllIsSplitInvariant | src/bodet_capture.py:93-146 | reading the stream in any non-empty chunks emits the same frames, and leaves the same buffer, as one read of the whole stream |
| Capture.CutFrames | src/bodet_capture.py:111-146 | the inner `while len(buffer) > 0` loop emits exactly `Extract(buffer)`'s frames and leaves its residue |
| Capture.CutKeeps | src/bodet_capture.py:134-142 | cutting the front frame keeps the loop's invariant |
| Capture.StopKeeps | src/bodet_capture.py:114-146 | each exit of the loop leaves the frames and the residue of `Extract` |
| Capture.CaptureServer.constructor | src/bodet_capture.py:29-43 | an empty queue and a fresh output handler in its initial state |
| Capture.CaptureServer.HandleClient | src/bodet_capture.py:90-146 | the persistent buffer queues, in order, the frames of the concatenated reads up to the first empty read, and returns the residue |
| Capture.Step | src/bodet_capture.py:164-173 | a frame that does not parse leaves the state unchanged; no frame touches penalties or period |
| Capture.ProcessAllAppend | src/bodet_capture.py:160-173 | consuming two batches equals consuming their concatenation |
| Capture.ProcessAllKeepsPenaltiesAndPeriod | src/bodet_capture.py:160-173 | no sequence of frames changes the penalties or the period |
| Capture.StepWithoutFields | src/bodet_capture.py:167-173 | a frame that fails to parse, or parses without score, time or period, leaves the state unchanged |
| Capture.ProcessAllScore | src/bodet_capture.py:160-173 | after any frames, the score is that of the last frame that parsed with a score, or the old one when none did |
| Capture.ProcessAllLastScoreWins | src/bodet_capture.py:160-173 | after any frames, a last frame that parses with a score sets the published score |
| Capture.CaptureServer.ProcessMessages | src/bodet_capture.py:160-173 | the queue is drained in FIFO order, and the handler's state becomes `ProcessAll(old state, old queue)` |
| TestMessages.CreateMessage | src/test_messages.py:20-40 | SOH, address, STX, payload, ETX, checksum: length len+5, with the address-through-checksum XOR equal to 0 |
| TestMessages.CreatedEtx | src/test_messages.py:31-38 | for an ETX-free payload, the assembler's and the validator's ETX searches both find the ETX the builder appended |
| TestMessages.CreatedMessagePassesLrcCheck | src/test_messages.py:32-35 | the byte after ETX equals the checksum the validator computes over address..ETX |
| TestMessages.ParseCreatedMessage | src/test_messages.py:20-40 | a built frame parses to exactly the decoding of its payload, succeeds iff the payload has 2+ bytes, and records the payload |
| TestMessages.ParseCreatedMessageCutAtEtx | src/test_messages.py:31-32 | a payload holding ETX is not escaped; the validator decodes only the bytes before the first ETX |
| TestMessages.CreatedMessageIsFrame | src/test_messages.py:20-40 | a frame built from an ETX-free payload is a frame for the assembler |
| TestMessages.CreatedMessagesSurviveAnySplit | src/test_messages.py:20-40 | SOH-free noise followed by built frames, read in any chunks, queues exactly those frames and leaves the buffer empty |
| TestMessages.ScoreMessageRoundTrip | src/test_messages.py:20-40 | a built score frame with digit bytes sets the score to the numbers those digits spell |
| TestMessages.ClockMessageRoundTrip | src/test_messages.py:20-40 | a built clock frame with digit bytes publishes the time text of those digits, and touches neither the score nor the period |
| TestMessages.ScoreFrameThroughPipeline | src/test_messages.py:20-40 | SOH-free noise then a built score frame, read in any chunks, leaves the buffer empty and publishes the score its digits spell, with the clock untouched |
| TestMessages.PrintablesOfPrintable | src/message_parser.py:264-265 | the printable characters of an all-printable string are all of it |
| TestMessages.SegmentsAroundControl | src/message_parser.py:262-274 | two printable runs around one control byte are exactly two segments |
| TestMessages.DefaultPayloadSegments | src/test_messages.py:55 | the default payload's segments are the text of bytes 0..2 ("G11") and of bytes 4..11 ("7 407 01") |
| TestMessages.DefaultSegmentsText | src/test_messages.py:55 | the two segments of the default payload are "G11" and "7 407 01" |
| TestMessages.DefaultMessageIsUnknown | src/test_messages.py:52-57 | the default frame parses as unknown type, with byte2 0x31, length 12, 12 trace entries, no score, time or period, and those two segments |
| TestMessages.DefaultStepIsNoOp | src/test_messages.py:52-57 | one processing step on the default frame changes nothing |
| TestMessages.DefaultMessageLeavesStateAlone | src/test_messages.py:52-57 | processing the default frame leaves any match state as it was |

## Left out

- Sockets, the accept and connect/retry loops, `socket.timeout`, the `running` flag, the threads and `queue.Queue` are left out. These are I/O and concurrency. The reads of a connection are a parameter of `HandleClient`. The queue is a sequence field that `HandleClient` appends to and `ProcessMessages` drains. The interleaving of several connections is not modelled.
- Capture.CaptureServer.HandleClient: its contract covers a connection that ends at the first empty read or when the given reads run out. A `socket.error`, or the `running` flag turning false, ends the connection the same way, with the buffer as it stands.
- Logging and console printing are left out, including the ASCII-decode logging in `_parse_data` and the "RAW MESSAGE (NOT PARSED)" print.
- Writing the JSON file (`_write_json`) is left out because it is file I/O. The model ends at the updated match state.
- The `time.time()` timestamps on queued frames and parsed records are left out because they are nondeterministic.
- Hex and text rendering is left out:
  - `raw_data` is kept as the payload bytes, not a hex string;
  - `byte1` and `byte2` are bytes, not `0x..` strings;
  - a byte-trace entry is (index, byte), not its formatted line.
- ClockText.FormatTime: it is defined only for minutes and seconds in 0..99. It does not model Python's `:02d` of the negative seconds (−480 + ones) that the clock decoder can produce. The match state keeps the clock as numbers.
- The `Penalties` decoder is a stub in the source. The penalty slots are therefore never updated, and the model proves that.
- `load_config`, `main`, the socket sender `send_test_message` and its argument parsing are left out. So is run.py. These are configuration, I/O and launching.
