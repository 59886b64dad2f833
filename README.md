# RCT frame parser, modelled in Dafny

This project models `FrameParser` from `rct_parser.py`. It is the incremental
parser of the RCT Power inverter protocol. A caller hands it a byte buffer that
may hold noise, part of a frame, or several frames. Each call of `parse` does
four things:

- It finds the next frame start token `+` (0x2B), from a resume cursor
  (`current_pos`) kept between calls. It passes over a start token right after
  an escape token `-` (0x2D), and over runs of start tokens, which mark the end
  of a block.
- It deletes the escape token of every `-+` and `--` pair. It records where the
  protected bytes were (`escape_indexes`).
- It reads the header: the command, a 1- or 2-byte big-endian length, a 4-byte
  address for plant commands, and the 4-byte object id.
- It slices out the payload and compares the trailing CRC16 with the one it
  computes.

The call then returns a `ResponseFrame`, or `None` when the frame is not all
there yet. It raises `InvalidCommand` for an unknown command or for EXTENSION.
It raises `FrameCRCMismatch` for a bad checksum, unless the parser was built
with `ignore_crc`.

Files:

- `rct_types.dfy` (module `RctTypes`) holds the wire vocabulary:
  - bytes, the two tokens and the length constants of `rct_parser.py:11-26`;
  - big-endian packing and unpacking;
  - `Rctclient`, a record of the rctclient package's collaborators, passed in
    as a parameter.
- `rct_parser.dfy` (module `RctParser`) holds the parser:
  - the pair searches, the deletion loop of `_unescape_buffer` and the older
    `_unescape_buffer_old`;
  - the start-token search and the header decoding;
  - one call of `parse`, twice over: `ParseStep` as the code is written, and
    `IntendedParseStep` with the five flaws listed under Findings corrected;
  - the class `FrameParser`, with the fields `currentPos`, `completeFrame` and
    `escapeIndexes`. Its methods keep the loops of the source. Each method is
    proved to compute exactly the function that specifies it:
    `FrameParser.Parse` returns and leaves what `ParseStep` says.
- `parser_test.dfy` (module `ParserTest`) restates the scenarios of
  `parser_test.py` as lemmas. Each lemma holds for every frame of the shape
  the test builds.

The two raised exceptions become the results `CrcMismatch` and
`InvalidCommand` of `ParseResult`. `None` becomes `NoFrame`.

`ParseStep` and the class follow the code, including its flaws:

- The deletion loop of `_unescape_buffer` restarts its search at index 0
  after each deletion (`UnescapeAsWritten`, `AsWrittenPositions`).
- A trailing escape token whose partner has not arrived yet is kept as data.
- A start token right after an escape token is taken as escaped (line 145),
  even when that escape token is the second half of an escaped dash `--`.
- The escape indexes are offset by the cursor the call started from
  (`pos + self.current_pos`, line 105), not by the start token's position.
  The loop at lines 255-258 then moves the cursor one step at most, however
  many escape indexes lie before it.
- A call that finds no start token (lines 158-162) keeps the escape indexes,
  and the reset at line 136 clears them only after a complete frame. So an
  index left by an earlier frame can move the cursor past the end of a later
  one.

`IntendedParseStep` is the same call with these corrected:

- `FindWireStart` takes a start token for escaped only after an odd run of
  escape tokens (`EscapeRun`, `EscapedOnWire`). An even run is made of escaped
  dashes only.
- `Unescape` removes the escape token of each pair once, and goes on after
  the protected byte. `EscapePositions` records where the protected bytes were.
- `Available` holds back a trailing escape token whose pair is cut in two, so
  that a frame cut there is incomplete.
- The cursor goes to the end of the frame on the wire (`WireLength`). The
  escape indexes are still recorded and kept as the code does, but the
  cursor no longer depends on them, so a stale index moves nothing.

`UnescapeAsWrittenAgrees` joins the two: when the corrected unescaping leaves
no escape pair in its result, the loop as written gives the same bytes and
the same indexes. The lemmas about `ParseStep` that need this say so in their
premises. These premises are listed under "Left out" with each such lemma.
The same lemma stated about `IntendedParseStep` holds for every frame.

The code removes only the escape token of `-+` and `--` pairs, by repeated
search. It has no maximum frame size: noise is skipped silently, and an
incomplete frame is waited for however long it claims to be. The repository
has no frame encoder: frames in its tests come from rctclient's `make_frame`,
which is not part of this model. `RctParser.EncodeFrame` and
`RctParser.Escape` are a reference definition of the layout and the escaping
that the parser reads. They are used only to state round trips. They are not
a model of `make_frame`.

## Model

| member | source | states |
|---|---|---|
| RctTypes.BigEndianOfToBigEndian | rct_parser.py:200-219 | Unpacking `n` packed big-endian into `w` bytes gives back `n` whenever `n < 256^w`. |
| RctParser.FindByteTupleFrom | rct_parser.py:66-71 | Gives -1 or an index at or after `pos` where the pair starts. No earlier index from `pos` holds the pair. With -1, no index holds it. |
| RctParser.FindByteTuple | rct_parser.py:66-71 | `_find_byte_tuple`: -1 when the pair occurs nowhere, otherwise the first index where it starts. |
| RctParser.FindEscapedByteFrom | rct_parser.py:90-95 | Gives -1 or an index at or after `pos` holding `-+` or `--`. There is no such pair before it, and none at all with -1. |
| RctParser.FindEscapedByte | rct_parser.py:90-95 | `_find_escaped_byte`: the first index of an escape pair, or -1 when there is none. |
| RctParser.EscapedByteIsFirstTuple | rct_parser.py:90-95 | `_find_escaped_byte` finds whichever of the two pairs `_find_byte_tuple` would find first. |
| RctParser.UnescapeOfEscape | rct_parser.py:97-106 | The corrected unescaping (`Unescape` / `EscapePositions`, the corrected member of the first Findings row): unescaping escaped data followed by anything gives the data back, followed by the rest unescaped. |
| RctParser.UnescapeEscapeRoundTrip | rct_parser.py:97-106 | The corrected unescaping (`Unescape` / `EscapePositions`, the corrected member of the first Findings row): unescaping undoes escaping for every byte sequence. |
| RctParser.EscapePositionsCount | rct_parser.py:100-105 | The corrected unescaping (`Unescape` / `EscapePositions`, the corrected member of the first Findings row): every recorded escape index stands for exactly one deleted byte. |
| RctParser.EscapePositionsMarkProtected | rct_parser.py:100-105 | The corrected unescaping (`Unescape` / `EscapePositions`, the corrected member of the first Findings row): the recorded indexes strictly increase, and each one names a start or escape token in the result. |
| RctParser.UnescapeWithoutEscapeTokens | rct_parser.py:97-106 | A buffer without escape tokens comes back unchanged, and nothing is recorded. |
| RctParser.UnescapePlainPrefix | rct_parser.py:97-106 | The corrected unescaping (`Unescape` / `EscapePositions`, the corrected member of the first Findings row): bytes that start no escape pair pass through unchanged. The indexes recorded after them shift by their count. |
| RctParser.UnescapeAsWritten | rct_parser.py:97-106 | The deletion loop as written, restarting its search at 0 after each deletion: it terminates, adds no byte, and leaves no escape pair in its result. |
| RctParser.AsWrittenPositions | rct_parser.py:100-105 | Each index the loop as written records stands for one deleted byte: the result's length plus the number of indexes is the buffer's length. |
| RctParser.AsWrittenTurn | rct_parser.py:100-105 | One turn of the loop: deleting the escape token of the first pair keeps the final result, shortens the buffer, and puts the turn's index, offset by the cursor, before all later ones. |
| RctParser.UnescapeAsWrittenAgrees | rct_parser.py:97-106 | When the corrected unescaping leaves no escape pair, the loop as written gives the same bytes and records the same indexes. |
| RctParser.UnescapeAsWrittenLosesEscapedDash | rct_parser.py:97-106 | The data `-+` goes on the wire as `--` `-+`. The loop as written makes that `+`; the corrected one gives back `-+`. |
| RctParser.Available | rct_parser.py:97-106 | The intended reading holds back one byte exactly when the buffer ends in an escape token whose pair is cut. Otherwise it reads the whole buffer. |
| RctParser.DanglingAfterEscape | rct_parser.py:97-106 | Escaped data leaves no cut pair of its own: whether it ends in one, followed by `q`, depends on `q` alone. |
| RctParser.AvailableAfterWire | rct_parser.py:97-106 | From a frame on the wire followed by `r`, only what is held back from `r` is held back. |
| RctParser.WireLengthUnescapes | rct_parser.py:236-258 | The part of the wire `WireLength` measures for `n` unescaped bytes unescapes to exactly those `n` bytes. |
| RctParser.WireLengthOfEscape | rct_parser.py:236-258 | For escaped data followed by anything, the wire length of the data's unescaped length is the length of its escaped form. |
| RctParser.ReplaceWithoutMatch | rct_parser.py:77-87 | `bytes.replace` of a pair that does not occur leaves the buffer unchanged, like the two guards of `_unescape_buffer_old`. |
| RctParser.ReplaceEscapedStarts | rct_parser.py:80 | Replacing `-+` by `+` in escaped data leaves only the escaped dashes escaped. |
| RctParser.ReplaceEscapedDashes | rct_parser.py:86 | Then replacing `--` by `-` gives the data back. |
| RctParser.UnescapeBufferOldRoundTrip | rct_parser.py:73-88 | `_unescape_buffer_old` undoes escaping for every byte sequence. |
| RctParser.EscapeRunIsRun | rct_parser.py:145 | `EscapeRun` counts the escape tokens standing directly before an index: all of them, and not one more. |
| RctParser.EscapeRunConcat | rct_parser.py:145 | The run that ends `a + b` is the run that ends `b`, extended by the run that ends `a` when `b` is escape tokens only. |
| RctParser.FindWireStartIsStart | rct_parser.py:140-156 | The corrected search finds -1, or a start token not after an odd run of escape tokens and not followed by another start token. |
| RctParser.FindWireStartAfterGarbage | rct_parser.py:140-156 | Before such a lone start token, bytes whose start tokens all follow an odd run are passed over, and that token is found. |
| RctParser.EscapeEndsEven | rct_parser.py:145 | Escaped data always ends in an even run of escape tokens, each pair an escaped dash. |
| RctParser.WireFrameEndsEven | rct_parser.py:145 | Any frame on the wire leaves the start token right after it free for the corrected search. |
| RctParser.FindWireStartOfWire | rct_parser.py:140-156 | After bytes the corrected search passes over, it finds the start token of the next frame on the wire, whatever follows. |
| RctParser.RunEnd | rct_parser.py:148-150 | The inner search loop stops at the first byte at or after `j` that is not a start token, or at the end of the buffer. |
| RctParser.RunEndOfStarts | rct_parser.py:148-150 | A buffer that holds only start tokens from `j` on is skipped to its end. |
| RctParser.FindStart | rct_parser.py:140-156 | The frame start the search finds from `i` is -1 or an index of the buffer at or after `i`. |
| RctParser.FindStartIsStart | rct_parser.py:140-156 | A found start holds a start token. No escape token is before it and no start token after it. |
| RctParser.FindStartFindsLoneStart | rct_parser.py:140-156 | When a lone start token lies at or after `i`, the search finds a start no later than it. |
| RctParser.FindStartAfterGarbage | rct_parser.py:140-156 | Before a lone start token, bytes whose start tokens are all escaped are passed over, and that token is found. |
| RctParser.FindStartSkipsEndOfBlock | rct_parser.py:147-155 | Two or more start tokens that end the buffer are an end-of-block marker, not a frame: nothing is found. |
| RctParser.FindStartWithoutStartToken | rct_parser.py:140-156 | A buffer with no start token after `i` yields no start. |
| RctParser.DecodeLayout | rct_parser.py:173-249 | In a decoded frame, the command is known and not EXTENSION. The id is in the last four header bytes and a plant address in the four before them. The payload lies between header and checksum. The frame length is what the length field announces. The checksum is the big-endian pair ending the frame, compared with CRC16 of command through payload. |
| RctParser.DecodeExtends | rct_parser.py:173-249 | A decision on a buffer that is not incomplete (a frame or a bad command) stays the same whatever bytes follow. |
| RctParser.WholeFrameExtends | rct_parser.py:223-249 | A whole frame followed by any bytes decodes to that frame, with its checksum at the frame's end. |
| RctParser.WholeFramePrefix | rct_parser.py:223-253 | Every proper prefix of a whole frame, once unescaped, decodes as incomplete. `IntendedWirePrefix` carries this to prefixes cut on the wire. |
| RctParser.DecodeEncodedFrame | rct_parser.py:173-249 | A frame laid out by the reference encoder decodes to the fields it was built from, with a matching checksum, whatever bytes follow. |
| RctParser.EncodedWholeFrame | rct_parser.py:173-249 | Every frame the reference encoder lays out is a whole frame. |
| RctParser.CursorAfter | rct_parser.py:255-258 | The cursor moves one step exactly when some escape index is at or before it, and never more than one. |
| RctParser.ParseWithoutStartToken | rct_parser.py:136-162 | With no start token after the cursor, `parse` reports nothing. It moves the cursor to the end of the buffer and marks the frame incomplete. |
| RctParser.ParseIncomplete | rct_parser.py:250-258 | A frame that is not all there yet: nothing is reported, the cursor stays, the frame is marked incomplete, and the escape indexes are cleared. |
| RctParser.ResumeIsFresh | rct_parser.py:136-138 | After an incomplete frame, the next call reports the same as a parser started afresh at the same cursor. |
| RctParser.ParseFrameMovesPastIt | rct_parser.py:223-258 | A reported frame is what the bytes from the found start decode to, and its checksum matches unless mismatches are ignored. The cursor ends past the frame's unescaped length, by one at most. |
| RctParser.ParseErrorsKeepCursor | rct_parser.py:177-235 | On `InvalidCommand` or `CrcMismatch` the cursor does not move. A mismatch is reported only when mismatches are not ignored. |
| RctParser.ParseBadCommand | rct_parser.py:177-186 | A call raises `InvalidCommand` exactly when the found start token is followed, once unescaped, by a byte that is no command, or by EXTENSION. It names that byte and index 1, and keeps the cursor and the frame flag. |
| RctParser.DecodeWrongChecksum | rct_parser.py:223-232 | A whole frame whose checksum pair after the header is replaced decodes to the same fields. The received value is the new pair, big-endian, and it matches exactly when it equals the computed checksum, whatever bytes follow. |
| RctParser.ParseWrongChecksum | rct_parser.py:223-235 | A whole frame on the wire with a wrong checksum pair: when not ignored, the call raises `CrcMismatch` with the received and computed checksums and the checksum's index, and keeps the cursor. When ignored, it reports the frame marked as not matching, and moves the cursor to its unescaped end or one past it. |
| RctParser.ParseWholeFrame | rct_parser.py:119-259 | As written, from any parser state: a whole frame on the wire, after bytes the search passes over, is reported in full whatever follows it, when unescaping leaves no escape pair. The cursor ends at its unescaped end, or one past it. |
| RctParser.IntendedWholeFrame | rct_parser.py:119-259 | From any parser state, the intended call reports every whole frame on the wire, after bytes the search passes over, whatever follows it. The cursor ends exactly at the frame's end on the wire. |
| RctParser.IntendedWirePrefix | rct_parser.py:223-253 | Every proper part of a whole frame on the wire, including one cut inside an escape pair, gives the intended call nothing. The cursor stays, the frame is marked incomplete, and no escape index remains. |
| RctParser.ParseEncodedFrame | rct_parser.py:119-259 | The intended call reads back what the reference encoder lays out and escapes, as it was built, whatever follows. The cursor ends at its end on the wire. |
| RctParser.ParsePlainFrame | rct_parser.py:119-259 | A frame that needs no escaping is reported from any parser state, and records no escape index of its own. The indexes kept are none after a complete frame, and the earlier ones otherwise. The cursor ends at the frame's end, or one past it exactly when a kept index lies at or before that end. After a complete frame it ends exactly at the frame's end. |
| RctParser.ParseEscapedFrame | rct_parser.py:119-259 | As written: a frame at the buffer's start with an escaped byte is reported, from any escape indexes left over. The cursor ends one past its unescaped end, which is its end on the wire when one byte is escaped. |
| RctParser.CursorPassesNextStart | rct_parser.py:255-258 | For every whole frame that needs no escaping, after two zero bytes and before `2B 05 2D 2D`: the call as written records the escape index two past the frame's end and leaves the cursor one past the next lone start token, so the next search finds nothing. |
| RctParser.IntendedCursorFindsNextStart | rct_parser.py:255-258 | On the same buffer, the intended call reports the frame and stops on the next lone start token, which the corrected search then finds. |
| RctParser.FrameParser.constructor | rct_parser.py:52-57 | A new parser has cursor 0, a complete last frame and no escape indexes. |
| RctParser.FrameParser.Reset | rct_parser.py:59-61 | `reset` marks the frame complete and clears the escape indexes, and nothing else. |
| RctParser.FrameParser.Rewinded | rct_parser.py:63-64 | `rewinded` sets the cursor to 0, and nothing else. |
| RctParser.FrameParser.UnescapeBuffer | rct_parser.py:97-106 | `_unescape_buffer` returns what `UnescapeAsWritten` says. The escape indexes grow by the positions `AsWrittenPositions` records, offset by the cursor. |
| RctParser.FrameParser.UnescapeFrom | rct_parser.py:100-105 | The deletion loop computes `UnescapeAsWritten` of the buffer, and the indexes `AsWrittenPositions` gives. |
| RctParser.FrameParser.FindStartToken | rct_parser.py:133-156 | The search loop finds the start `FindStart` names, and stops one past it. |
| RctParser.FrameParser.SearchTurn | rct_parser.py:141-156 | One turn of the search loop moves forward. It either accepts the start `FindStart` finds, or leaves that start unchanged from the index it goes on with. |
| RctParser.FrameParser.SkipStartTokens | rct_parser.py:148-150 | The inner loop stops where `RunEnd` says. |
| RctParser.FrameParser.SkipEscapeIndex | rct_parser.py:255-258 | The escape loop leaves the cursor as `CursorAfter` says. |
| RctParser.FrameParser.Parse | rct_parser.py:119-259 | `parse` returns and leaves exactly what `ParseStep` says. |
| RctParser.FrameParser.ReadFrameAt | rct_parser.py:169-259 | The part of `parse` after unescaping returns and leaves exactly what `ReadFrame` says. |
| ParserTest.GarbageData | parser_test.py:90-96 | Bytes without a start token: nothing is reported, and the frame is not complete. |
| ParserTest.LeadingBytes | parser_test.py:78-81 | Four zero bytes before any whole frame are passed over. The intended call reports the frame and stops at its end on the wire. The call as written reports it when the frame holds no escape pair. |
| ParserTest.LeadingBytesWithEscapedStartToken | parser_test.py:84-87 | The escaped start token in `00 2D 2B 00` before any whole frame is not taken for its start. The intended call reports the frame and stops at its end on the wire; the call as written reports it when the frame holds no escape pair. |
| ParserTest.IncompleteFrame | parser_test.py:99-117 | As written, for a frame that needs no escaping: every proper part of it reports nothing and marks the frame incomplete. Once all of it has arrived, the next call reports it and stops at its end. |
| ParserTest.IncompleteWireFrame | parser_test.py:99-117 | For every whole frame, escaped or not: every proper part of it on the wire gives the intended call nothing. Once all of it has arrived, the next call reports it and stops at its end on the wire. |
| ParserTest.TwoFrames | parser_test.py:120-136 | Two frames in one buffer are reported by two calls, in order. |
| ParserTest.BufferRewind | parser_test.py:195-215 | After `rewinded`, a whole frame moved to the buffer's front is reported by the intended call, whatever follows. The call as written reports it when unescaping leaves no escape pair. |
| ParserTest.IncompleteSecondFrame | parser_test.py:218-244 | A first frame with one escaped byte, followed by any part of a second frame, is reported. The cursor stops at the second frame's first byte on the wire, and the next call on the whole second frame reports it. This holds for every second frame under the intended call. As written, it holds for a second frame that needs no escaping, after a first frame whose last byte is not a dash. |
| ParserTest.WireLengthOneReserved | parser_test.py:218-234 | A frame with one byte to protect is one byte longer on the wire: 14 bytes for the test's 13-byte frame. |
| ParserTest.EndOfBlock | parser_test.py:268-275 | After a frame that needs no escaping, a trailing `2B 2B 2B` is no frame: the next call reports nothing and marks the frame incomplete. |
| ParserTest.EscapedCheckSum | parser_test.py:278-288 | The test's buffer, whose checksum ends in an escaped start token, gives oid 0x3623D82A, payload `00 02` and checksum 0xD02B, which matches. |
| ParserTest.EscapedDashHidesNextFrame | rct_parser.py:145 | After a frame whose last byte is a dash, a second frame that needs no escaping is not found by the call as written. It reports nothing and moves the cursor to the end of the buffer, past the second frame. |
| ParserTest.IntendedFrameAfterEscapedDash | rct_parser.py:140-156 | From the end of any frame on the wire, the intended call reports the next whole frame, whatever follows, and stops at its end on the wire. |
| ParserTest.StaleEscapeIndex | rct_parser.py:136-162 | The buffer of `EscapedCheckSum` leaves the escape index 10. Parsing it again finds nothing and keeps that index. Once a frame that needs no escaping and any bytes without escape tokens follow, the call as written reports the frame but moves the cursor one past its end, over the next byte. The intended call stops at the frame's end. |
| ParserTest.TruncatedEscapedCheckSum | rct_parser.py:223-235 | The first eleven bytes of the wire form of the frame of `EscapedCheckSum` end in the escape token of the checksum's pair. The call as written raises a checksum mismatch: received 0xD02D, computed 0xD02B, at index 9. The intended call waits for the rest. |

## Left out

- `CRC16`, the set of valid `Command` values, `Command.EXTENSION`, `Command.is_plant` and `Command.is_long` belong to the rctclient package. They are fields of `Rctclient`, left uninterpreted. The test lemmas name the values they need, such as a command's checksum, as preconditions.
- `make_frame`, `encode_value`, `decode_value` and the object registry belong to rctclient and are not part of this model. Instead, the test lemmas take any frame that decodes, in the shape each test builds. This is why the plant, string, float and long-frame tests (parser_test.py:61-192), and the one with an escaped value in the third frame (parser_test.py:247-265), have no lemma of their own: what they show about the parser is `IntendedWholeFrame`, `ParseWholeFrame` or `ParseEncodedFrame` for a particular command.
- `log_state_into_file` (rct_parser.py:108-117) writes a timestamped file, and every `log.debug` call only logs. Both are I/O and left out.
- The exceptions' message texts are left out. The results keep their values: the received and computed checksums and the index for `FrameCRCMismatch`, the command and index for `InvalidCommand`.
- `memoryview`, `bytes` and `bytearray` become `seq<byte>`. The model does not capture a caller changing a buffer in place between calls. It sees each call's buffer as a value, which is how the tests use it.
- RctParser.ParseWholeFrame: as written, stated only when unescaping leaves no escape pair, with the cursor one of two values. `IntendedWholeFrame` covers every frame, with the cursor exact.
- RctParser.ParseEscapedFrame: as written, stated only when unescaping leaves no escape pair.
- RctParser.ParseEncodedFrame: stated for the intended call. For the call as written, `ParseWholeFrame` gives the same when unescaping leaves no escape pair.
- RctParser.ParsePlainFrame: stated only for frames and trailing bytes that need no escaping.
- ParserTest.LeadingBytes: the call as written is stated only for a frame that holds no escape pair. The intended call is stated for every frame.
- ParserTest.LeadingBytesWithEscapedStartToken: the call as written is stated only for a frame that holds no escape pair. The intended call is stated for every frame.
- ParserTest.IncompleteFrame: stated only for a frame that needs no escaping. A part cut inside an escape pair can be read as a frame with a bad checksum (see Findings). `IncompleteWireFrame` covers every frame under the intended call.
- ParserTest.TwoFrames: stated for frames that need no escaping, which is what the test's default value gives.
- ParserTest.BufferRewind: the call as written is stated only when unescaping leaves no escape pair. The intended call is stated for every frame.
- ParserTest.IncompleteSecondFrame: the call as written is stated only for a second frame that needs no escaping, after a first frame whose last byte is not a dash. After one that is, the second frame is lost (`EscapedDashHidesNextFrame`, see Findings). The intended call is stated for every second frame.
- ParserTest.EndOfBlock: stated only for a frame that needs no escaping, which is what the test builds.
- RctParser.DecodeWrongChecksum: stated only for frames whose checksum lies after the header. In a frame whose length field announces less than its id, the checksum overlaps the header, and replacing it changes the header too.
- RctParser.ParseWrongChecksum: as above, and stated for the call as written only when unescaping leaves no escape pair.
- The socket, file-replay and database scripts that drive the parser are not part of this model.

## Findings

| source | as written | input that shows it | evidently intended | confidence | as-written member | corrected member |
|---|---|---|---|---|---|---|
| rct_parser.py:97-106 | After deleting an escape token, the search restarts at index 0. A byte just unescaped can then combine with the byte before or after it into a new escape pair. | The data `2D 2B` goes on the wire as `2D 2D 2D 2B`, which unescapes to `2B` | Each escape pair is removed once, and the search resumes after the protected byte. The result is `2D 2B`, the data sent. | not executed | RctParser.UnescapeAsWrittenLosesEscapedDash | RctParser.UnescapeEscapeRoundTrip |
| rct_parser.py:223-235 | A trailing escape token whose partner has not arrived is kept as data, so a frame cut there can look complete with one wrong checksum byte. | `2B 05 06 36 23 D8 2A 00 02 D0 2D`, the first eleven bytes of a frame whose checksum `D0 2B` goes on the wire as `D0 2D 2B`, raises a checksum mismatch | A cut escape pair is held back, and the frame is waited for like any incomplete one. | not executed | ParserTest.TruncatedEscapedCheckSum | RctParser.IntendedWirePrefix |
| rct_parser.py:145 | A start token right after an escape token is taken as escaped, even when that escape token is the second half of an escaped dash. | A frame whose last byte (the checksum's low byte) is `2D` goes on the wire ending `2D 2D`. From its end, the start token of the next frame is passed over, and a second frame that needs no escaping is not found at all. | A start token is escaped only after an odd run of escape tokens. | not executed | ParserTest.EscapedDashHidesNextFrame | ParserTest.IntendedFrameAfterEscapedDash |
| rct_parser.py:255-258 | The escape indexes are offset by the cursor the call started from, not by the start token's position. The cursor is then moved one step if any index lies at or before it. | Two zero bytes, a frame that needs no escaping, then `2B 05 2D 2D`: the cursor ends one past the start token of the second frame | The cursor ends at the frame's end on the wire, where the next search finds the next start token. | not executed | RctParser.CursorPassesNextStart | RctParser.IntendedCursorFindsNextStart |
| rct_parser.py:136-162 | A call that finds no start token marks the frame incomplete but keeps the escape indexes, and the next call clears them only after a complete frame. | The 12 bytes of the escaped-checksum test, parsed twice, then followed by a frame that needs no escaping: the stale index 10 moves the cursor one past that frame's end, over the start token of whatever frame follows | The indexes of a frame already reported move no later cursor, which stops at the end of the frame on the wire. | not executed | ParserTest.StaleEscapeIndex | RctParser.IntendedWholeFrame |
