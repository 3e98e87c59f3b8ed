# NMEA 0183 ingestion engine

A Dafny model of the NMEA 0183 multiplexer engine in `src/main.cpp` (the
`TEST0` blocks). Bytes from a serial line go to `decodeNMEAInput`. It frames
them into sentences in an 83-byte buffer. On CR or LF it hands each complete
sentence to `NMEAParser::parseNMEASentence`, which does five things:

- splits the sentence into at most 21 fields and stores an empty field as `"0"`;
- rebuilds the comma-joined body;
- rewrites the two legacy sentences named in the filter string `"$IIDBK$PSTOB"`:
  `$IIDBK` becomes `$AODBT` and `$PSTOB` becomes `$AOXDR`;
- appends a `*hh` checksum when none is present, and `"\r\n"`;
- pushes the record onto a five-slot `NMEAStack` and counts it.

Modules, one file each:

- `Text` (`text.dfy`): the Arduino `String` operations the engine uses, on
  `seq<char>`. These are `indexOf` on a character and on a string,
  `toUpperCase`, and reading a NUL-terminated buffer.
- `Fields` (`fields.dfy`): the spans of a string between commas and their
  comma-join. It proves both round trips between them.
- `ChecksumCodec` (`checksum.dfy`): the XOR checksum, its zero-padded
  lower-case rendering, and the check a receiver applies. It also holds the
  checksum loop as a method.
- `Record` (`record.dfy`): `NMEAData` and the engine's size constants.
- `Stack` (`stack.dfy`): `NMEAStack` as a class over an array of five records.
- `Parser` (`parser.dfy`): `NMEAParser` as a class. It holds the stack
  reference, the working record and the sentence counter. `parseNMEASentence`
  is a method whose splitting loop is proved against the specification
  function `Parsed`.
- `ParserFacts` (`parser_facts.dfy`): what `Parsed` means. It covers the
  filter's catch set, pass-through sentences, the two rewrites, and the
  validity of every appended checksum.
- `Framer` (`framer.dfy`): `decodeNMEAInput` as the class `NmeaFramer`. Its
  fields are the buffer array, status, index and ready flag, and it
  references the parser. `Valid()` is the state-machine invariant every call
  preserves. This module also proves the stale-byte behaviour of a restarted
  sentence.

The float conversions are parameters of the parser: `metres` is
`String(toFloat() * FTM, 1)` and `battery` is
`String(toFloat() + BATTERY_OFFSET, 1)`. The model treats them as arbitrary
string functions.

The source never checks bounds, either on `nmeaBuffer[nmeaIndex]` or on
`fields[nrOfFields]`. The model states both bounds as preconditions:

- `Decode` requires `index < 82` before it stores a byte.
- `ParseSentence` requires at most 20 commas, so at most 21 fields
  (`FieldsFit`).
- On CR or LF, `Decode` requires `FieldsFit` for the sentence it is about to
  hand over.

The model follows the code wherever the code differs from the documentation
comments. Six cases:

- The header comment names only `$` and `!` as start characters. The code
  also accepts `~`, and so does the model.
- A sentence without a comma is stored as the two fields `"0"` and the whole
  sentence.
- A tag that is only a substring of the filter string, such as `$II`, gets
  the empty record from `nmeaSpecialty`. That record is still pushed, with
  sentence `"\r\n"`.
- When CR or LF arrives, the buffer is cleared only from `nmeaIndex + 1`.
  After a restart, the byte at `nmeaIndex` reaches the parser whenever any
  sentence abandoned since the last CR or LF had reached that slot
  (`StalePending`). If none did, the tail is clean and the parser gets
  exactly the collected bytes (`CleanPending`).
- The `$IIDBK` comment says all fields after the tag shift one position
  left. The shift loop copies old field `k` to slot `k - 1` only for
  `k < nrOfFields - 1`, so the last field is never copied. With four
  fields (`$IIDBK,A,0017.6,f`) the unit is lost. With three fields the
  depth itself is lost and `metres` is applied to "".
- The `$PSTOB` comment shows the result as `...,BATT,*CS`. The code joins
  the fields and appends the checksum directly, giving `...,BATT*hh`.

`ChecksumMatches`, the receiver's check used to state what the engine
sends, reads the last three characters of a line: the last '*' and the two
digits after it. A '*' inside an earlier field does not affect it.

Structure: `nmeaSpecialty` is split into `RewriteDbk` and `RewriteTob`, one
method per branch, and `NmeaSpecialty` calls `Reset` in the `$PSTOB` branch
as the source does; the record it returns then overwrites the working record.
The split loop of `parseNMEASentence` is the method `SplitSentence`, and the
two switches of `decodeNMEAInput` are `Classify` and `Dispatch`.

## Model

| member | source | states |
|---|---|---|
| Text.IndexOfFrom | src/main.cpp:477 | the result is -1 or a position at or after `from` holding the character, and no earlier position from `from` on holds it |
| Text.Find | src/main.cpp:486 | non-negative exactly when the receiver is non-empty and the needle occurs in it; then it is the first occurrence, otherwise -1 |
| Text.Upper | src/main.cpp:407 | same length; 'a'..'z' shifted to upper case, every other character kept |
| Text.CString | src/main.cpp:770 | the characters before the first NUL: a NUL-free prefix of the buffer followed in the buffer by a NUL |
| Fields.SpansCount | src/main.cpp:461-485 | k commas give k + 1 spans |
| Fields.SpansNoComma | src/main.cpp:469-474 | no span contains a comma |
| Fields.JoinSpans | src/main.cpp:467-473 | joining the spans with ',' rebuilds the string exactly |
| Fields.SpansJoin | src/main.cpp:467-473 | splitting a comma-join of comma-free strings gives those strings back |
| Fields.FirstSpan | src/main.cpp:461 | the first span is the text before the first comma, or the whole string when there is none |
| Fields.SplitFieldsShape | src/main.cpp:461-485 | with at least one comma: one field per span, the first is the tag with its start character, an empty span is stored as "0" and a non-empty one verbatim |
| Fields.SplitFieldsNoComma | src/main.cpp:461-485 | a comma-free string is stored as the two fields "0" and the string |
| Fields.SplitFieldsCount | src/main.cpp:461-485 | two fields without a comma, otherwise commas + 1 |
| ChecksumCodec.RenderDecodes | src/main.cpp:438-439 | the rendering is '*' and exactly two lower-case hex digits that read back as the value (zero-padded below 0x10) |
| ChecksumCodec.ChecksumDecodes | src/main.cpp:427-440 | the checksum is three characters that decode to the XOR of every character after the first, and "*00" for a string of length at most 1 |
| ChecksumCodec.ChecksumValidates | src/main.cpp:427-440 | a body followed by its checksum is a line a receiver's check accepts |
| ChecksumCodec.ChecksumInjective | src/main.cpp:438-439 | different XOR values render differently |
| ChecksumCodec.ChecksumDetectsSingleChange | src/main.cpp:429-436 | changing the byte value of any one character after the first changes the checksum |
| ChecksumCodec.ComputeChecksum | src/main.cpp:427-440 | the loop (with its always-true character filter) returns exactly the checksum of the string |
| Record.EmptyRecord | src/main.cpp:331-337 | 21 slots all "" (`EmptyFields`), no fields, empty sentence |
| Stack.NmeaStack.constructor | src/main.cpp:228-239 | every slot is an empty record and the stack holds nothing |
| Stack.NmeaStack.Push | src/main.cpp:241-255 | below capacity: stores the record at `lastIndex` and returns the new `lastIndex`; at capacity: returns -1 and changes nothing; in both cases the contents become `Pushed(old contents, record)` and `0 <= lastIndex <= 5` holds |
| Stack.NmeaStack.Pop | src/main.cpp:257-271 | non-empty: returns the most recent record, decrements `lastIndex` and drops it from the contents; empty: returns an empty record and leaves `lastIndex` at 0 |
| Stack.NmeaStack.GetIndex | src/main.cpp:273-276 | returns the number of records held, between 0 and 5 |
| Stack.PushThenPop | src/main.cpp:241-271 | a push below capacity followed by a pop returns the pushed record and restores index and contents |
| Parser.Parsed | src/main.cpp:496 | every pushed record is well formed and its sentence ends with CR LF |
| Parser.SplitSentence | src/main.cpp:461-485 | the splitting loop stores `SplitFields(s)` padded to 21 slots, counts them, and rebuilds the body equal to the input |
| Parser.JoinFields | src/main.cpp:379-386 | the join loop yields the comma-join of the first n fields |
| Parser.NmeaParser.constructor | src/main.cpp:320-326 | the working record starts empty, the counter at 0, the stack is the one given |
| Parser.NmeaParser.Reset | src/main.cpp:331-337 | the working record becomes the empty record; the counter is untouched |
| Parser.NmeaParser.GetCounter | src/main.cpp:507-510 | returns the counter |
| Parser.NmeaParser.RewriteDbk | src/main.cpp:358-393 | the `$IIDBK` branch returns the 7-field `$AODBT` record of `DbtFields` with its joined, checksummed sentence |
| Parser.NmeaParser.RewriteTob | src/main.cpp:398-419 | the `$PSTOB` branch returns the 5-field `$AOXDR` record of `XdrFields` with its joined, checksummed sentence |
| Parser.NmeaParser.NmeaSpecialty | src/main.cpp:342-422 | returns `Specialty(in)`; only the `$PSTOB` branch clears the working record; the counter is untouched |
| Parser.NmeaParser.ParseSentence | src/main.cpp:445-505 | accepted input: the working record becomes `Parsed(s)`, exactly one record is pushed (dropped when full) and the 32-bit counter increments; other input: empty record, stack and counter untouched |
| ParserFacts.Tag | src/main.cpp:486 | the tag looked up in the filter is never empty |
| ParserFacts.SplitFieldsClean | src/main.cpp:469-474 | every stored field is non-empty and comma-free |
| ParserFacts.TagIs | src/main.cpp:461-474 | the tag is the text before the first comma, start character included, or "0" for a comma-free sentence |
| ParserFacts.StarTest | src/main.cpp:489 | on an accepted sentence `indexOf('*') < 1` holds exactly when there is no '*' |
| ParserFacts.PassThrough | src/main.cpp:486-496 | outside the filter, the fields are the split fields and the sentence is the input, plus the checksum exactly when it has no '*', plus CR LF |
| ParserFacts.PassThroughChecksummed | src/main.cpp:489-491 | such a sentence without '*' is sent with a checksum a receiver accepts |
| ParserFacts.NoCommaSentence | src/main.cpp:461-496 | a comma-free sentence has the two fields "0" and itself and passes through |
| ParserFacts.NoCommaDistinct | src/main.cpp:461-496 | different comma-free sentences give different records |
| ParserFacts.FilterFirstChar | src/main.cpp:486 | a caught tag begins with a character of the filter string |
| ParserFacts.FilterCatchesPrefixes | src/main.cpp:185 | every non-empty prefix of `"$IIDBK$PSTOB"` or of `"$PSTOB"` is caught |
| ParserFacts.FilterStarts | src/main.cpp:185 | the filter string has start characters at positions 0 and 6 only |
| ParserFacts.FilterCaughtArePrefixes | src/main.cpp:486 | a caught tag with a start character begins with '$' and is a prefix of the filter or of `$PSTOB` |
| ParserFacts.FilterTags | src/main.cpp:486 | for a tag with a start character: caught if and only if it is a '$'-prefix of the filter or of `$PSTOB` |
| ParserFacts.PartialTagDropped | src/main.cpp:342-421 | a caught tag other than the two legacy ones is pushed as an empty record with sentence CR LF |
| ParserFacts.FilterHasLegacyTags | src/main.cpp:185 | both `$IIDBK` and `$PSTOB` are caught |
| ParserFacts.ParsedInFilter | src/main.cpp:486-496 | a caught sentence is pushed as `nmeaSpecialty`'s record with CR LF appended |
| ParserFacts.Slot | src/main.cpp:461-485 | slot j of the split record is the j-th stored field, or "" past the last one |
| ParserFacts.DbkSpecialty | src/main.cpp:358-393 | `$IIDBK` yields the 7-field rewrite of `DbtFields` |
| ParserFacts.DbtLayout | src/main.cpp:367-378 | `$AODBT`; new field 1 is old field 2 and new field 2 is old field 3, each only when another field follows it (otherwise ""); new field 3 is the metres of new field 1 (old field 2); then "M", "", ""; slots 7 and on keep the shifted tail below `nrOfFields - 2` |
| ParserFacts.DbkToDbt | src/main.cpp:358-393 | the parsed `$IIDBK` sentence has 7 fields in that layout and is sent as their join, its checksum and CR LF |
| ParserFacts.TobSpecialty | src/main.cpp:398-419 | `$PSTOB` yields the 5-field rewrite of `XdrFields` |
| ParserFacts.XdrLayout | src/main.cpp:402-408 | `$AOXDR`, "U", the offset voltage, the upper-cased unit, "BATT"; every other slot empty |
| ParserFacts.TobToXdr | src/main.cpp:398-419 | the parsed `$PSTOB` sentence has 5 fields in that layout and is sent as their join, its checksum and CR LF |
| ParserFacts.RewrittenChecksummed | src/main.cpp:379-387 | a rewritten sentence begins with its first field and carries a checksum a receiver accepts |
| ParserFacts.SpecialtyChecksummed | src/main.cpp:379-419 | both rewrites start with their new tag and carry a valid checksum |
| ParserFacts.ParsedLegacy | src/main.cpp:486-496 | a legacy sentence is sent as its rewrite's sentence plus CR LF |
| Framer.Cleared | src/main.cpp:764-766 | the clearing loop keeps slots up to `index` and zeroes every later slot |
| Framer.HandedIs | src/main.cpp:764-770 | the parser receives the collected bytes, plus the byte at `index` whenever that slot is not NUL |
| Framer.HandedAccepted | src/main.cpp:754-770 | a buffer opened by a start character hands the parser a sentence it accepts |
| Framer.CollectedStart | src/main.cpp:725-729 | a start character opens a fresh sentence in slot 0 |
| Framer.CollectedStore | src/main.cpp:730-756 | storing a byte keeps the collected shape, and a '*' marks the checksum as begun |
| Framer.NmeaFramer.Pending | src/main.cpp:764-770 | while collecting, what CR or LF would hand over is a sentence the parser accepts |
| Framer.NmeaFramer.constructor | src/main.cpp:199-204 | idle, index 0, flag clear, buffer all NUL |
| Framer.NmeaFramer.ClearTail | src/main.cpp:764-766 | the buffer becomes `Cleared(old buffer, index)` |
| Framer.NmeaFramer.ZeroBuffer | src/main.cpp:773 | every slot becomes NUL |
| Framer.NmeaFramer.Terminate | src/main.cpp:760-775 | the parser receives `Handed(buffer, index)` and pushes its record, the counter increments, the buffer is zeroed and the index reset |
| Framer.NmeaFramer.Classify | src/main.cpp:720-745 | a start character sets RECEIVING and index 0; '*' turns RECEIVING into CHECKSUMMING; CR/LF sets TERMINATING and the flag while collecting, INVALID otherwise; any other byte changes nothing |
| Framer.NmeaFramer.Dispatch | src/main.cpp:746-778 | INVALID resets the index; while collecting, the byte is stored at `index` and the index increments; TERMINATING hands the sentence over; afterwards `Valid()` holds |
| Framer.NmeaFramer.Flush | src/main.cpp:757-777 | from TERMINATING with the flag set: back to INVALID, flag clear, sentence parsed and pushed, buffer zero |
| Framer.NmeaFramer.Collect | src/main.cpp:752-756 | the byte is stored at `index`, the index increments, and the collected shape is kept |
| Framer.NmeaFramer.Decode | src/main.cpp:719-779 | preserves `Valid()` (never TERMINATING, flag clear between calls). A start byte restarts at slot 0. Other bytes are appended while collecting, with '*' entering CHECKSUMMING, and ignored when idle. CR/LF while collecting hands `Pending()` to the parser once, zeroes the buffer and resets the index. Without a restart, a clean tail stays clean |
| Framer.CleanPending | src/main.cpp:764-773 | with the tail clean, the parser receives exactly the collected bytes |
| Framer.StalePending | src/main.cpp:764-766 | a non-NUL byte left at `index` by an abandoned sentence is handed over after the collected bytes |
| Framer.ReceiveAB | src/main.cpp:719-756 | from power-up, `$AB` leaves the engine receiving with index 3 |
| Framer.RestartLeaksStaleByte | src/main.cpp:719-779 | `$AB`, `$`, CR pushes the record of "$A", not the record of "$" |
| Framer.StaleRecordDiffers | src/main.cpp:461-496 | the records of "$A" and "$" differ |

## Left out

- Display and serial I/O: the Nextion widgets, `hmiCommtest`, `setup`, `loop`, the `SoftwareSerial` polling in `startListening` and the writes in `startTalking`. They are hardware I/O and hold none of the engine's logic.
- The `DISPLAY_ATTACHED` branch of `startTalking`: it depends on symbols the file does not define, and on float display formatting.
- Floating point: `toFloat() * FTM` and `toFloat() + BATTERY_OFFSET`, each rendered with one decimal, are the parser's opaque `metres` and `battery` functions. Their rounding is not modelled.
- The Arduino `String(x, HEX)` call is taken to print lower-case digits without a leading zero. This is an assumption about the library.
- The unused constants (`MTF`, `NTK`, `KTN`, `VARIATION`, and every tag other than `_DBK` and `_TOB`) carry no behaviour.
- Decode: the 82-byte buffer bound is a precondition, not a modelled overflow, because the source writes past the array.
- ParseSentence: the 21-field bound is a precondition, not a modelled overflow, for the same reason.
- The engine never validates an inbound checksum, so the model does not either. `ChecksumMatches` is only the receiver's view, used to state what the engine sends.
- Debug output (`debugWrite` under `DEBUG`) is left out: it is I/O only.
- The counter is 32 bits wide (`unsigned long` on the target) and wraps explicitly. `nrOfFields` and `nmeaIndex` are bytes, but the preconditions keep them below 22 and 83, so they never wrap.
