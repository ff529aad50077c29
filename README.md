# A verified model of a TN3270 terminal client core

This project models, in Dafny, the core of a Java TN3270 client: the program
that lets a line-mode Telnet connection act as an IBM 3278/3279 display.

The core has five parts:

- **The screen buffer** (`Buffer.java`): 1920 cells (24 rows of 80). Each cell
  holds an EBCDIC byte, its ASCII translation, a field-start flag, a modified
  flag and a reference to a field-attribute object. The buffer also holds a
  background copy of the cells, the cursor, and the per-command counters that
  decide when a reader waiting for the end of a record is woken.
- **Field attributes and positions** (`FieldAttribute.java`,
  `BufferPosition.java`): decoding and re-encoding the 3270 attribute byte, and
  splitting an address into row and column with Java arithmetic.
- **Two 3270 data-stream parsers.**
  - The lenient one (`DataStreamParser.java`) collects bytes until IAC EOR and
    decodes each record from an 8192-byte array.
  - The strict one (`DataStreamParser2.java`) reads a stream byte by byte and
    fails at the first malformed or truncated command.
  - Both apply the Write Control Character, the orders (SF, SFE, SBA, SA, MF,
    IC, PT, RA, EUA, GE) and data bytes to the buffer, then signal the end of
    record.
- **Telnet option negotiation** (`TelnetOptions.java` and
  `TelnetOptionsNegotiator.java`):
  - the opening offer;
  - the DO/DONT/WILL/WONT handlers;
  - the terminal-type subnegotiation (RFC 1091);
  - for the negotiator, the byte-at-a-time state machine that separates Telnet
    commands from data.
- **The keyboard and display** (`Screen.java`):
  - reading the screen as text;
  - typing in overwrite or insert mode;
  - Tab and Home;
  - the AID keys, which send the AID byte, the cursor address and every
    modified field.

## How the model is built

**The reference: values.** The reference semantics is a set of pure functions
over values.

- `ScreenModel.ScreenState` is the whole buffer as a value.
- `ScreenModel`, `Orders`, `LenientDecoder`, `StrictDecoder`, `TelnetProtocol`,
  `NegotiationModel` and `ScreenView` hold one function per operation.
- Lemmas beside them state what each operation does: which cells change,
  what is kept, round trips, agreement between the two parsers, and the
  replies the host receives.

**The Java objects: classes.** The objects whose fields the Java code updates
in place are Dafny classes with the same fields:

- `ScreenBuffer.Buffer`, over arrays;
- `LenientParsing.LenientParser`;
- `StrictParsing.StrictParser`;
- `TelnetOptionHandling.TelnetOptions`;
- `TelnetNegotiation.TelnetOptionsNegotiator`;
- `TerminalScreen.Screen`.

Each method is proved against the reference in one of two forms:

- `Snap() == F(old(Snap()))` for a method that changes state;
- `r == F(Snap())` for a method that computes a value.

Loops are proved one pass at a time against the recursive function that
specifies them.

**Attribute aliasing.** Attribute objects can be shared between cells:
`clear` installs one default object for the whole screen, and typing sets the
MDT bit on that shared object. The state therefore keeps a heap of attribute
objects, `attrs`, and a per-cell reference into it, `attrRef`. The sharing is
proved to be observable (`ScreenLemmas.SharedDefaultAttributeIsAliased`).

**Stand-ins for I/O and external code.**

- Input streams are a sequence of bytes plus a read position.
- An end of stream is the end of the sequence.
- Output streams are a sequence of bytes that the methods append to.
- The EBCDIC/ASCII conversion table is external code. It is the `Codec`
  parameter: two total functions, with no property assumed.

## Model

| member | source | states |
|---|---|---|
| `Tn3270Constants.Signed` | src/main/java/org/me/ibm/DataStreamParser2.java:348-358 | The value of a Java byte, in -128..127: negative exactly for bytes 0x80 and above, and equal to the byte modulo 256. |
| `BufferPositions.JavaDiv` | src/main/java/org/me/ibm/BufferPosition.java:8-12 | Java's truncating division: Dafny's division for a non-negative dividend, the negated quotient of the negation otherwise. |
| `BufferPositions.JavaRem` | src/main/java/org/me/ibm/BufferPosition.java:8-12 | Java's remainder: it completes the truncating division, and takes the sign of the dividend. |
| `BufferPositions.Wrap32` | src/main/java/org/me/ibm/BufferPosition.java:17 | Java `int` overflow: the result is a 32-bit value congruent to the exact one modulo 2^32, and equal to it when it fits. |
| `BufferPositions.FromPosition` | src/main/java/org/me/ibm/BufferPosition.java:8-12 | Keeps the address and splits it into row and column with `address == row * 80 + col`; for a non-negative address the column is in 0..79. |
| `BufferPositions.FromRowCol` | src/main/java/org/me/ibm/BufferPosition.java:14-18 | Keeps row and column. The address is `row * 80 + col` wrapped to a 32-bit `int`: it is always a Java `int`, congruent to `row * 80 + col` modulo 2^32, and equal to it when that fits. |
| `BufferPositions.FromRowColWraps` | src/main/java/org/me/ibm/BufferPosition.java:14-18 | Row 26843546, column 0 overflows: the address comes out negative, and the position is invalid. |
| `BufferPositions.FromPositionValid` | src/main/java/org/me/ibm/BufferPosition.java:8-12 | A position built from an address is valid if and only if the address is on screen (0..1919). Also models `BufferPosition.java` lines 32-36. |
| `BufferPositions.FromRowColValid` | src/main/java/org/me/ibm/BufferPosition.java:14-18 | A position built from a row and a column is valid if and only if both are in range. Also models `BufferPosition.java` lines 32-36. |
| `BufferPositions.WideColumnIsInvalid` | src/main/java/org/me/ibm/BufferPosition.java:32-36 | Row 0, column 80 has an on-screen address, but the position is still invalid. |
| `BufferPositions.RowColRoundTrip` | src/main/java/org/me/ibm/BufferPosition.java:8-18 | Splitting an on-screen address and joining the parts again gives back the same position. |
| `FieldAttributes.FieldAttribute.WithType` | src/main/java/org/me/ibm/FieldAttribute.java:93-96 | Sets the field type and changes no other field of the attribute. |
| `FieldAttributes.FieldAttribute.WithIntensity` | src/main/java/org/me/ibm/FieldAttribute.java:102-105 | Sets the intensity and changes nothing else. |
| `FieldAttributes.FieldAttribute.WithModified` | src/main/java/org/me/ibm/FieldAttribute.java:153-156 | Sets the MDT flag and changes nothing else. |
| `FieldAttributes.FieldAttribute.WithNumeric` | src/main/java/org/me/ibm/FieldAttribute.java:158-161 | Sets the numeric flag and changes nothing else. |
| `FieldAttributes.FieldAttribute.WithAutoSkip` | src/main/java/org/me/ibm/FieldAttribute.java:163-166 | Sets the skip flag only: the field type is not touched. |
| `FieldAttributes.FieldAttribute.WithRightJustify` | src/main/java/org/me/ibm/FieldAttribute.java:168-171 | Sets the right-justify flag and changes nothing else. |
| `FieldAttributes.FieldAttribute.WithVisible` | src/main/java/org/me/ibm/FieldAttribute.java:173-176 | Sets visibility and changes nothing else. |
| `FieldAttributes.FieldAttribute.ToAttributeByte` | src/main/java/org/me/ibm/FieldAttribute.java:178-207 | Re-encodes bit by bit:<br>- bits 0x02, 0x40 and 0x80 of the parsed byte are kept;<br>- MDT is bit 0x01;<br>- protection is bit 0x20;<br>- bit 0x10 is skip-protected or numeric;<br>- the display bits are 01 for high intensity, 11 for hidden or zero intensity, else 00. |
| `FieldAttributes.Default` | src/main/java/org/me/ibm/FieldAttribute.java:37-47 | The default attribute is unprotected, normal, visible and unmodified, and it encodes as 0x00. |
| `FieldAttributes.Parse` | src/main/java/org/me/ibm/FieldAttribute.java:37-87 | The decoding of each bit:<br>- protection is bit 0x20;<br>- numeric is bit 0x10;<br>- skip-protected is both bits;<br>- MDT is bit 0x01;<br>- display bits 00 are normal, 01 high, 10 and 11 zero intensity and hidden;<br>- right-justify is never set;<br>- the raw byte is kept. |
| `FieldAttributes.EncodeParse` | src/main/java/org/me/ibm/FieldAttribute.java:37-87 | Parsing then re-encoding gives the byte back, except that display bits 10 come back as 11. Also models `FieldAttribute.java` lines 178-207. |
| `FieldAttributes.EncodeParseKeepsUninterpretedBits` | src/main/java/org/me/ibm/FieldAttribute.java:178-207 | The bits 0xC2 survive a parse and re-encode. |
| `FieldAttributes.EncodeParseIdempotent` | src/main/java/org/me/ibm/FieldAttribute.java:37-87 | A re-encoded byte is a fixed point of parse-then-encode. Also models `FieldAttribute.java` lines 178-207. |
| `FieldAttributes.SetModifiedChangesOnlyMdt` | src/main/java/org/me/ibm/FieldAttribute.java:153-156 | Setting the MDT flag changes only bit 0x01 of the encoding, and that bit equals the flag. Also models `FieldAttribute.java` lines 178-207. |
| `FieldAttributes.CanInputIffUnprotected` | src/main/java/org/me/ibm/FieldAttribute.java:125-131 | An attribute accepts input if and only if it is not protected. |
| `FieldScan.NextCyclic` | src/main/java/org/me/ibm/Buffer.java:399-416 | The forward circular search finds a flagged cell with no flagged cell cyclically between the start and it, and returns -1 exactly when no cell is flagged. |
| `FieldScan.NextCyclicOnlySelf` | src/main/java/org/me/ibm/Buffer.java:399-416 | The search returns its own start only when no other cell is flagged. |
| `FieldScan.PrevCyclic` | src/main/java/org/me/ibm/Buffer.java:437-460 | The backward circular search from a field start finds the nearest other flagged cell before it, wrapping round, and returns -1 exactly when no other cell is flagged. |
| `FieldScan.FindFieldStart` | src/main/java/org/me/ibm/Buffer.java:383-397 | The owner of cell `p` is:<br>- the nearest field start at or before `p`;<br>- else, wrapping round, the last start of the buffer;<br>- -1 exactly when the buffer has no start. |
| `FieldScan.FindFieldEnd` | src/main/java/org/me/ibm/Screen.java:106-113 | The first field start strictly after `p`, or 1920 when there is none; there is no wrap round. |
| `FieldScan.FieldStartOwnsItself` | src/main/java/org/me/ibm/Buffer.java:383-397 | A cell that starts a field is owned by itself. |
| `FieldScan.OwnerWithinField` | src/main/java/org/me/ibm/Buffer.java:383-397 | Every cell from a field start up to that field's end is owned by that start. Also models `Screen.java` lines 106-113. |
| `ScreenModel.Fill` | src/main/java/org/me/ibm/Buffer.java:53-67 | What `Arrays.fill` leaves: 1920 cells, all holding the value. |
| `ScreenModel.Attr` | src/main/java/org/me/ibm/Buffer.java:344-346 | The attribute object cell `p` refers to; a fresh default attribute off screen. |
| `ScreenModel.Owner` | src/main/java/org/me/ibm/Buffer.java:383-397 | The start of the field owning `p`: a field start, or -1. |
| `ScreenModel.IsProtected` | src/main/java/org/me/ibm/Buffer.java:366-377 | The three cases:<br>- true off screen;<br>- false when no field owns the cell;<br>- otherwise the protection of the owning field's attribute. |
| `ScreenModel.UnprotectedStarts` | src/main/java/org/me/ibm/Buffer.java:418-435 | Flags exactly the field starts whose next cell is not protected. |
| `ScreenModel.FindNextField` | src/main/java/org/me/ibm/Buffer.java:399-416 | -1 without fields. Otherwise it finds a field start with no start cyclically between `sp` and it; it returns `sp` itself only when no other cell starts a field. |
| `ScreenModel.FindNextUnprotectedField` | src/main/java/org/me/ibm/Buffer.java:418-435 | As `FindNextField`, over the starts that are followed by an unprotected cell. A result other than `sp` is below 1919. |
| `ScreenModel.NextUnprotectedFound` | src/main/java/org/me/ibm/Buffer.java:418-435 | A cell the circular search finds, other than `sp`, is an unprotected field start below 1919, with none between `sp` and it. Finding `sp` itself means no other cell qualifies. |
| `ScreenModel.UnprotectedStartBeforeLast` | src/main/java/org/me/ibm/Buffer.java:424-430 | A start that qualifies is followed by an unprotected cell, and cell 1920 counts as protected, so the start is below 1919. |
| `ScreenModel.FindPreviousUnprotectedField` | src/main/java/org/me/ibm/Buffer.java:437-460 | The three cases:<br>- -1 without fields;<br>- `sp` when no field owns `sp`;<br>- otherwise an unprotected start other than the owner of `sp`, with no unprotected start cyclically between it and that owner. |
| `ScreenModel.FindPreviousOnlyWhenAlone` | src/main/java/org/me/ibm/Buffer.java:437-460 | When a field owns `sp`, the search gives back `sp` if and only if no cell other than that field's start is an unprotected start. |
| `ScreenModel.Initial` | src/main/java/org/me/ibm/Buffer.java:40-51 | A new buffer is well formed, with command, WCC and AID key unset. |
| `ScreenModel.SignalEor` | src/main/java/org/me/ibm/Buffer.java:257-290 | Either the reader is signalled and the state is unchanged, or only `ack` is counted up; which one happens is exactly the completion test `Signals`. |
| `ScreenModel.StringAt` | src/main/java/org/me/ibm/Buffer.java:544-559 | A window of `length` characters, and none for a negative length. |
| `ScreenModel.RowString` | src/main/java/org/me/ibm/Buffer.java:538-540 | Exactly 80 characters. |
| `ScreenModel.SetEbcdicCharacter` | src/main/java/org/me/ibm/Buffer.java:302-314 | Keeps the buffer well formed. Its effect is stated by `ScreenLemmas.SetEbcdicCharacterEffect`. |
| `ScreenModel.SetAsciiCharacter` | src/main/java/org/me/ibm/Buffer.java:316-328 | Keeps the buffer well formed. Its effect is stated by `ScreenLemmas.SetAsciiCharacterEffect`. |
| `ScreenModel.SetAttribute` | src/main/java/org/me/ibm/Buffer.java:338-342 | Keeps the buffer well formed. Cell `p` gets a fresh object, so no other cell's attribute changes; `Orders.SetAttributeOrder` and `Orders.ApplyPairs` state this. |
| `ScreenModel.SetFieldStart` | src/main/java/org/me/ibm/Buffer.java:352-360 | Keeps the buffer well formed. `ScreenLemmas.SetFieldStartCountsEveryCall` states that every call counts. |
| `ScreenModel.SetCursor` | src/main/java/org/me/ibm/Buffer.java:466-470 | Only the cursor may change. It moves to an on-screen position; an off-screen position is ignored and the state is unchanged. |
| `ScreenModel.SetCursorRowCol` | src/main/java/org/me/ibm/Buffer.java:476-481 | Keeps the buffer well formed: the cursor stays on screen. |
| `ScreenModel.Clear` | src/main/java/org/me/ibm/Buffer.java:53-67 | Keeps the buffer well formed. Its effect is stated by `ScreenLemmas.ClearResets`. |
| `ScreenModel.ClearPreCommandCounts` | src/main/java/org/me/ibm/Buffer.java:69-73 | The order, byte and ack counters are zero; everything else is kept. |
| `ScreenModel.CopyDataToBackground` | src/main/java/org/me/ibm/Buffer.java:75-81 | Keeps the buffer well formed. Its effect is stated by `ScreenLemmas.CopyDataToBackgroundEffect`. |
| `ScreenModel.CopyBack` | src/main/java/org/me/ibm/Buffer.java:100-104 | Only the live cells may change. Cells in the span hold the background character and byte; cells outside it are kept. |
| `ScreenModel.RestoreSpan` | src/main/java/org/me/ibm/Buffer.java:87-131 | Keeps the buffer well formed. Its effect is stated by `ScreenLemmas.RestoreSpanEffect`. |
| `ScreenModel.RestoreFrom` | src/main/java/org/me/ibm/Buffer.java:85-138 | Keeps the buffer well formed. `ScreenLemmas.RestoreFromSkips` states that cells that are not field starts are skipped; `ScreenLemmas.RestoreTwoFieldsSkipsSecond` states that the start at the end of a restored span is never examined. |
| `ScreenModel.RestoreDataFromBackground` | src/main/java/org/me/ibm/Buffer.java:83-140 | Keeps the buffer well formed. `ScreenLemmas.CopyThenRestoreSingleField` states the single-field round trip; `ScreenLemmas.CopyThenRestoreLosesSecondField` states what happens with two fields. |
| `ScreenModel.Flush` | src/main/java/org/me/ibm/Buffer.java:155-161 | Keeps the buffer well formed. Its effect is stated by `ScreenLemmas.FlushEffect`. |
| `ScreenModel.ResetMdtFrom` | src/main/java/org/me/ibm/Buffer.java:150-185 | Keeps the buffer well formed. Its effect is stated by `ScreenLemmas.ResetMdtFromEffect`. |
| `ScreenModel.ResetMdtFlags` | src/main/java/org/me/ibm/Buffer.java:142-188 | Keeps the buffer well formed. Its effect is stated by `ScreenLemmas.ResetMdtFlagsEffect`. |
| `ScreenModel.EraseFrom` | src/main/java/org/me/ibm/Buffer.java:195-215 | Keeps the buffer well formed. Its effect is stated by `ScreenLemmas.EraseFromEffect`. |
| `ScreenModel.EraseAllUnprotected` | src/main/java/org/me/ibm/Buffer.java:190-220 | Keeps the buffer well formed. Its effect is stated by `ScreenLemmas.EraseAllUnprotectedEffect`. |
| `ScreenModel.SetCommand` | src/main/java/org/me/ibm/Buffer.java:222-225 | The command byte is recorded; everything else is kept. |
| `ScreenModel.SetWcc` | src/main/java/org/me/ibm/Buffer.java:227-230 | The WCC byte is recorded; everything else is kept. |
| `ScreenModel.SetAidKey` | src/main/java/org/me/ibm/Buffer.java:232-236 | Keeps the buffer well formed. `ScreenLemmas.SetAidKeyResetsCounts` states that the counters are reset. |
| `ScreenModel.IncOrderCount` | src/main/java/org/me/ibm/Buffer.java:238-241 | The order counter grows by one; everything else is kept. |
| `ScreenLemmas.OnlyCellsTransitive` | src/main/java/org/me/ibm/Buffer.java:302-314 | "Only cells changed" composes over a sequence of writes. |
| `ScreenLemmas.SameFieldsSameProtection` | src/main/java/org/me/ibm/Buffer.java:366-377 | Two states with the same field starts and attribute objects agree on the protection of every cell. |
| `ScreenLemmas.ClearResets` | src/main/java/org/me/ibm/Buffer.java:53-67 | After `clear`:<br>- every cell is a blank 0x00, with no field start and no modified flag;<br>- every cell has the default attribute;<br>- cursor and counters are zero;<br>- command, WCC and AID key survive. |
| `ScreenLemmas.ClearIdempotent` | src/main/java/org/me/ibm/Buffer.java:53-67 | Clearing twice is clearing once. |
| `ScreenLemmas.ClearedBufferHasNoFields` | src/main/java/org/me/ibm/Buffer.java:53-67 | After `clear` no on-screen cell is protected, and both field searches return -1. Also models `Buffer.java` lines 366-377, 399-435. |
| `ScreenLemmas.SetEbcdicCharacterEffect` | src/main/java/org/me/ibm/Buffer.java:302-314 | Every call is counted, and only cell `p` changes.<br>On screen:<br>- the cell gets the byte and its translation;<br>- the cell's modified flag becomes its old value OR the owning field's MDT bit.<br>Off screen only the counter moves. |
| `ScreenLemmas.SetEbcdicCharacterUpdates` | src/main/java/org/me/ibm/Buffer.java:302-314 | The same effect as sequence updates of the EBCDIC and ASCII arrays. |
| `ScreenLemmas.SetEbcdicCharacterAt` | src/main/java/org/me/ibm/Buffer.java:302-314 | The content of any one cell after the write. |
| `ScreenLemmas.SetAsciiCharacterEffect` | src/main/java/org/me/ibm/Buffer.java:316-328 | Off screen nothing changes. On screen, cell `p` holds the character and its EBCDIC translation and is marked modified; the owning field's attribute object gets its MDT set, shared by every cell that refers to it. No other cell, attribute object, field start, counter or cursor changes. |
| `ScreenLemmas.SetFieldStartCountsEveryCall` | src/main/java/org/me/ibm/Buffer.java:352-360 | Marking the same start twice leaves one start but counts two. |
| `ScreenLemmas.SharedDefaultAttributeIsAliased` | src/main/java/org/me/ibm/Buffer.java:53-67 | After `clear`, two fields without their own attribute share one object: typing into one sets the MDT seen by the other. A field given its own attribute is not affected. Also models `Buffer.java` lines 316-328. |
| `ScreenLemmas.EraseFromEffect` | src/main/java/org/me/ibm/Buffer.java:195-215 | From cell `i` on, the cells of unprotected fields become 0x00 and their translation; nothing else changes. |
| `ScreenLemmas.EraseAllUnprotectedEffect` | src/main/java/org/me/ibm/Buffer.java:190-220 | Exactly the cells of unprotected fields are nulled. Protected cells, starts, attributes and the cursor are kept, and without fields nothing changes. |
| `ScreenLemmas.OnlyMdtClearedTransitive` | src/main/java/org/me/ibm/Buffer.java:142-188 | "Only MDT bits of unprotected attributes cleared" composes. |
| `ScreenLemmas.FlushEffect` | src/main/java/org/me/ibm/Buffer.java:155-161 | Leaving a field clears only unprotected MDT bits, makes that field clean, and keeps clean fields clean. |
| `ScreenLemmas.ResetMdtFromEffect` | src/main/java/org/me/ibm/Buffer.java:150-185 | The loop clears only unprotected MDT bits, and leaves every field start clean. |
| `ScreenLemmas.ResetMdtFlagsEffect` | src/main/java/org/me/ibm/Buffer.java:142-188 | Only attribute objects change. Every unprotected field's attribute loses its MDT bit and nothing else; protected attributes are unchanged. |
| `ScreenLemmas.CopyDataToBackgroundEffect` | src/main/java/org/me/ibm/Buffer.java:75-81 | The background receives the live cells, the live cells become blank, and the fields are untouched. |
| `ScreenLemmas.RestoreFromSkips` | src/main/java/org/me/ibm/Buffer.java:133-135 | Cells that are not field starts are passed over by the restore loop. |
| `ScreenLemmas.RestoreSpanEffect` | src/main/java/org/me/ibm/Buffer.java:87-131 | One field span, wrapping or not: when every live EBCDIC byte in it is 0x00, each cell of the span gets the background character and byte back; otherwise the state is unchanged. Nothing but the live cells ever changes. |
| `ScreenLemmas.RestoreTwoFieldsSkipsSecond` | src/main/java/org/me/ibm/Buffer.java:85-138 | With field starts at exactly `a` and `b` (`a + 1 < b`), the result is the span step for `[a, b)` alone. The loop sets `i` to `b` and its `i++` steps past it, so every cell outside `[a, b)` is kept as it was. |
| `ScreenLemmas.CopyThenRestoreLosesSecondField` | src/main/java/org/me/ibm/Buffer.java:75-140 | With field starts at exactly `a` and `b`, saving to the background and then restoring gives back the cells of `[a, b)`, while every other cell, including the whole second field, stays blank (a space and 0x00). |
| `ScreenLemmas.CopyThenRestoreSingleField` | src/main/java/org/me/ibm/Buffer.java:75-140 | With exactly one field, saving to the background and then restoring gives back the live cells. |
| `ScreenLemmas.UnsignalledCallArmsNext` | src/main/java/org/me/ibm/Buffer.java:257-290 | A call that does not signal changes only `ack`, and the next call signals. |
| `ScreenLemmas.SetAidKeyResetsCounts` | src/main/java/org/me/ibm/Buffer.java:232-236 | Setting an AID key zeroes the counters. For a command without start-printer and a key that is not a short-read key, the next end of record does not signal. Also models `Buffer.java` lines 257-290. |
| `ScreenLemmas.StringAtOnScreen` | src/main/java/org/me/ibm/Buffer.java:544-559 | An on-screen window reads exactly the live characters. |
| `ScreenBuffer.Buffer.constructor` | src/main/java/org/me/ibm/Buffer.java:40-51 | A new buffer is valid and equals the initial state of the model. |
| `ScreenBuffer.Buffer.Clear` | src/main/java/org/me/ibm/Buffer.java:53-67 | The new state is `ScreenModel.Clear` of the old one. |
| `ScreenBuffer.Buffer.ClearPreCommandCounts` | src/main/java/org/me/ibm/Buffer.java:69-73 | The new state is `ScreenModel.ClearPreCommandCounts` of the old one. |
| `ScreenBuffer.Buffer.CopyDataToBackground` | src/main/java/org/me/ibm/Buffer.java:75-81 | The new state is `ScreenModel.CopyDataToBackground` of the old one. |
| `ScreenBuffer.Buffer.IsNullSpan` | src/main/java/org/me/ibm/Buffer.java:90-98 | True exactly when every live EBCDIC byte of the span is 0x00. Also models `Buffer.java` lines 105-120. |
| `ScreenBuffer.Buffer.CopyBack` | src/main/java/org/me/ibm/Buffer.java:100-104 | The new state is `ScreenModel.CopyBack` of the span. |
| `ScreenBuffer.Buffer.RestoreSpan` | src/main/java/org/me/ibm/Buffer.java:87-131 | The new state is `ScreenModel.RestoreSpan`. |
| `ScreenBuffer.Buffer.RestoreDataFromBackground` | src/main/java/org/me/ibm/Buffer.java:83-140 | The new state is `ScreenModel.RestoreDataFromBackground` of the old one. |
| `ScreenBuffer.Buffer.RestoreStep` | src/main/java/org/me/ibm/Buffer.java:86-138 | One pass of the loop moves forward and leaves the rest of the loop with the same result. |
| `ScreenBuffer.Buffer.FlushField` | src/main/java/org/me/ibm/Buffer.java:155-161 | The new state is `ScreenModel.Flush`. |
| `ScreenBuffer.Buffer.ResetMdtFlags` | src/main/java/org/me/ibm/Buffer.java:142-188 | The new state is `ScreenModel.ResetMdtFlags` of the old one. |
| `ScreenBuffer.Buffer.ResetMdtStep` | src/main/java/org/me/ibm/Buffer.java:150-176 | One pass of the loop leaves the rest of the loop with the same result. |
| `ScreenBuffer.Buffer.EraseAllUnprotected` | src/main/java/org/me/ibm/Buffer.java:190-220 | The new state is `ScreenModel.EraseAllUnprotected` of the old one. |
| `ScreenBuffer.Buffer.SetIncomingCommandByte` | src/main/java/org/me/ibm/Buffer.java:222-225 | Records the command. |
| `ScreenBuffer.Buffer.SetIncomingWriteControlCharacterByte` | src/main/java/org/me/ibm/Buffer.java:227-230 | Records the WCC. |
| `ScreenBuffer.Buffer.SetAidKey` | src/main/java/org/me/ibm/Buffer.java:232-236 | The new state is `ScreenModel.SetAidKey`. |
| `ScreenBuffer.Buffer.IncOrderCount` | src/main/java/org/me/ibm/Buffer.java:238-241 | Counts one order. |
| `ScreenBuffer.Buffer.HasFields` | src/main/java/org/me/ibm/Buffer.java:243-245 | True if and only if a field start has been counted; when false, no cell starts a field. |
| `ScreenBuffer.Buffer.SignalEor` | src/main/java/org/me/ibm/Buffer.java:257-290 | The new state and the signal are those of `ScreenModel.SignalEor`. |
| `ScreenBuffer.Buffer.SetEbcdicCharacter` | src/main/java/org/me/ibm/Buffer.java:302-314 | The new state is `ScreenModel.SetEbcdicCharacter`. |
| `ScreenBuffer.Buffer.SetAsciiCharacter` | src/main/java/org/me/ibm/Buffer.java:316-328 | The new state is `ScreenModel.SetAsciiCharacter`. |
| `ScreenBuffer.Buffer.GetAsciiCharacter` | src/main/java/org/me/ibm/Buffer.java:330-332 | The character of an on-screen cell, a blank off screen. |
| `ScreenBuffer.Buffer.GetEbcdicByte` | src/main/java/org/me/ibm/Buffer.java:334-336 | The byte of an on-screen cell, 0x40 off screen. |
| `ScreenBuffer.Buffer.SetAttribute` | src/main/java/org/me/ibm/Buffer.java:338-342 | The new state is `ScreenModel.SetAttribute`. |
| `ScreenBuffer.Buffer.GetAttribute` | src/main/java/org/me/ibm/Buffer.java:344-346 | The attribute object of the cell, as `ScreenModel.Attr` gives it. |
| `ScreenBuffer.Buffer.GetAttributeAt` | src/main/java/org/me/ibm/Buffer.java:348-350 | The attribute of the field owning the cell. |
| `ScreenBuffer.Buffer.SetFieldStart` | src/main/java/org/me/ibm/Buffer.java:352-360 | The new state is `ScreenModel.SetFieldStart`. |
| `ScreenBuffer.Buffer.IsFieldStart` | src/main/java/org/me/ibm/Buffer.java:362-364 | True if and only if the cell is on screen and starts a field. |
| `ScreenBuffer.Buffer.IsProtected` | src/main/java/org/me/ibm/Buffer.java:366-377 | Agrees with `ScreenModel.IsProtected`. |
| `ScreenBuffer.Buffer.IsEbcdicModified` | src/main/java/org/me/ibm/Buffer.java:379-381 | True if and only if the cell is on screen and marked modified. |
| `ScreenBuffer.Buffer.FindFieldStart` | src/main/java/org/me/ibm/Buffer.java:383-397 | The two downward scans agree with `ScreenModel.Owner`. |
| `ScreenBuffer.Buffer.FindNextField` | src/main/java/org/me/ibm/Buffer.java:399-416 | The scan up and the wrap round agree with `ScreenModel.FindNextField`. |
| `ScreenBuffer.Buffer.QualifiesAsUnprotectedStart` | src/main/java/org/me/ibm/Buffer.java:424 | The test of both unprotected scans agrees with `ScreenModel.UnprotectedStarts`. |
| `ScreenBuffer.Buffer.FindNextUnprotectedField` | src/main/java/org/me/ibm/Buffer.java:418-435 | Agrees with `ScreenModel.FindNextUnprotectedField`. |
| `ScreenBuffer.Buffer.FindPreviousUnprotectedField` | src/main/java/org/me/ibm/Buffer.java:437-460 | Agrees with `ScreenModel.FindPreviousUnprotectedField`, so `ScreenModel.FindPreviousOnlyWhenAlone` holds of its result. |
| `ScreenBuffer.Buffer.SetCursorPosition` | src/main/java/org/me/ibm/Buffer.java:466-470 | The new state is `ScreenModel.SetCursor`. |
| `ScreenBuffer.Buffer.SetCursorRowCol` | src/main/java/org/me/ibm/Buffer.java:476-481 | The new state is `ScreenModel.SetCursorRowCol`. |
| `ScreenBuffer.Buffer.StringAt` | src/main/java/org/me/ibm/Buffer.java:544-559 | The array copy, or cell by cell with a blank off screen, agrees with `ScreenModel.StringAt`. |
| `ScreenBuffer.Buffer.RowString` | src/main/java/org/me/ibm/Buffer.java:538-540 | Agrees with `ScreenModel.RowString`. |
| `Orders.DecodeAddress` | src/main/java/org/me/ibm/DataStreamParser.java:577-590 | A 12-bit address whose high six bits are the low six bits of the first byte and whose low six bits are those of the second. Also models `DataStreamParser2.java` lines 543-555. |
| `Orders.NormalizeCommand` | src/main/java/org/me/ibm/DataStreamParser.java:115-118 | Normalising a command byte:<br>- a byte below 0xF0 gets 0xF0 added modulo 256;<br>- other bytes are kept;<br>- the result is 0xF0 or above exactly for bytes below 0x10 or from 0xF0. Also models `DataStreamParser2.java` lines 37-40, 63-66. |
| `Orders.AcceptedCommandBytes` | src/main/java/org/me/ibm/DataStreamParser2.java:79-91 | After normalisation exactly the ten raw bytes 0x01, 0x02, 0x05, 0x06, 0x7E, 0x8E, 0xF1, 0xF2, 0xF5 and 0xF6 are valid commands. The Erase/Write Alternate code 0x7E becomes Read Modified All, and 0x8E becomes Erase/Write Alternate. |
| `Orders.NextCursor` | src/main/java/org/me/ibm/DataStreamParser.java:556-575 | On screen the cursor advances by one cell, wrapping from 1919 to 0. |
| `Orders.WriteCharacter` | src/main/java/org/me/ibm/DataStreamParser.java:556-575 | A data byte:<br>- the cursor cell gets the byte and its translation;<br>- the other cells' modified flags are kept;<br>- the byte is counted;<br>- the cursor moves on cyclically;<br>- nothing else changes. Also models `DataStreamParser2.java` lines 530-541. |
| `Orders.LastBasic` | src/main/java/org/me/ibm/DataStreamParser.java:344-357 | The index of the last pair of type 0xC0; no later pair has that type. |
| `Orders.ApplyPairs` | src/main/java/org/me/ibm/DataStreamParser.java:344-357 | Only attribute references and objects change.<br>- Cell `p` gets the attribute of the last 0xC0 pair.<br>- No other cell's attribute changes.<br>- Without such a pair nothing changes. |
| `Orders.ApplyPairsNext` | src/main/java/org/me/ibm/DataStreamParser.java:344-357 | Applying `k + 1` pairs is applying `k`, then the next one. |
| `Orders.StartField` | src/main/java/org/me/ibm/DataStreamParser.java:297-322 | SF:<br>- the cursor cell becomes a counted field start with the parsed attribute;<br>- no other attribute changes;<br>- the cell shows 0x40;<br>- the cursor moves on cyclically;<br>- the order count is untouched. Also models `DataStreamParser2.java` lines 322-341. |
| `Orders.StartFieldExtended` | src/main/java/org/me/ibm/DataStreamParser.java:324-365 | SFE:<br>- as SF, with the attribute of the last 0xC0 pair;<br>- without such a pair, the cell keeps its old attribute object. Also models `DataStreamParser2.java` lines 343-377. |
| `Orders.StartFieldIsExtendedWithOnePair` | src/main/java/org/me/ibm/DataStreamParser.java:297-365 | SF is SFE with the single pair (0xC0, attribute). |
| `Orders.SetAttributeOrder` | src/main/java/org/me/ibm/DataStreamParser.java:385-406 | SA:<br>- a 0xC0 pair gives the cursor cell the parsed attribute;<br>- any other type changes nothing;<br>- only attributes change. Also models `DataStreamParser2.java` lines 393-411. |
| `Orders.ModifyField` | src/main/java/org/me/ibm/DataStreamParser.java:408-439 | MF:<br>- the last 0xC0 pair sets the cursor cell's attribute;<br>- no other cell changes;<br>- the cursor stays. Also models `DataStreamParser2.java` lines 413-440. |
| `Orders.SetBufferAddress` | src/main/java/org/me/ibm/DataStreamParser.java:367-383 | SBA: only the cursor changes. It moves to an on-screen address and ignores one off screen. Also models `DataStreamParser2.java` lines 379-391. |
| `Orders.ProgramTab` | src/main/java/org/me/ibm/DataStreamParser.java:450-461 | PT: only the cursor changes.<br>- It goes to 0 without fields.<br>- Otherwise it goes one past the next start that is followed by an unprotected cell.<br>- When that search finds no other start and returns the cursor itself, the cursor moves one cell on.<br>- A start at the last cell leaves everything unchanged. Also models `DataStreamParser2.java` lines 450-459. |
| `Orders.Distance` | src/main/java/org/me/ibm/DataStreamParser.java:482-485 | The number of cyclic steps from one cell to another: below 1920, and zero exactly for the same cell. |
| `Orders.RepeatCells` | src/main/java/org/me/ibm/DataStreamParser.java:482-485 | Keeps the buffer well formed. Its effect is stated by `Orders.RepeatCellsEffect`. |
| `Orders.RepeatCellsStep` | src/main/java/org/me/ibm/DataStreamParser.java:482-485 | The first cell is written, then the rest. |
| `Orders.RepeatCellsOnlyCells` | src/main/java/org/me/ibm/DataStreamParser.java:482-485 | Only cells change, and the byte counter grows by `n`. |
| `Orders.RepeatCellsAt` | src/main/java/org/me/ibm/DataStreamParser.java:482-485 | A cell within `n` cyclic steps holds the fill byte; any other cell is unchanged. |
| `Orders.RepeatCellsEffect` | src/main/java/org/me/ibm/DataStreamParser.java:482-485 | The `n` cells from `p`, cyclically, hold the fill byte and its translation, and every other cell is unchanged. |
| `Orders.RepeatToAddress` | src/main/java/org/me/ibm/DataStreamParser.java:463-490 | RA with the loop entered only for an on-screen address. Only cells and the cursor change: the cursor ends at the address, and an address off screen changes nothing. Also models `DataStreamParser2.java` lines 461-484. |
| `Orders.RepeatToAddressEffect` | src/main/java/org/me/ibm/DataStreamParser.java:463-490 | The cells from the cursor up to, but not including, the address hold the fill byte. The other cells are unchanged, and one byte is counted per cell written. |
| `Orders.RepeatToAddressAsWrittenStep` | src/main/java/org/me/ibm/DataStreamParser.java:482-485 | One iteration of the loop as written. |
| `Orders.RepeatToAddressAsWrittenNeverExits` | src/main/java/org/me/ibm/DataStreamParser.java:482-485 | For an address of 1920 or more, the loop as written never exits, whatever the fuel. Also models `DataStreamParser2.java` lines 478-481. |
| `Orders.RepeatToAddressAsWrittenAgrees` | src/main/java/org/me/ibm/DataStreamParser.java:482-485 | For an on-screen address, the loop as written exits and gives the same screen as `Orders.RepeatToAddress`. Also models `DataStreamParser2.java` lines 478-481. |
| `Orders.RepeatLoopAgrees` | src/main/java/org/me/ibm/DataStreamParser.java:482-485 | The loop from any cell writes the cells up to the address and leaves the cursor there. |
| `Orders.EraseEnd` | src/main/java/org/me/ibm/DataStreamParser.java:507-515 | EUA's loop bound lies between the cursor and 1920. |
| `Orders.EraseCells` | src/main/java/org/me/ibm/DataStreamParser.java:507-515 | Keeps the buffer well formed. Its effect is stated by `Orders.EraseCellsEffect`. |
| `Orders.EraseCellsStep` | src/main/java/org/me/ibm/DataStreamParser.java:507-515 | The first cell is erased, then the rest. |
| `Orders.EraseCell` | src/main/java/org/me/ibm/DataStreamParser.java:507-515 | Keeps the buffer well formed. |
| `Orders.EraseCellsEffect` | src/main/java/org/me/ibm/DataStreamParser.java:507-515 | The unprotected cells in the span become 0x00, and all other cells are unchanged. |
| `Orders.EraseUntilAddress` | src/main/java/org/me/ibm/DataStreamParser.java:492-518 | EUA as written changes only cells. Also models `DataStreamParser2.java` lines 486-508. |
| `Orders.EraseUntilAddressEffect` | src/main/java/org/me/ibm/DataStreamParser.java:492-518 | The unprotected cells from the cursor up to the loop bound become 0x00. The cursor, the protected cells and every cell before the cursor are unchanged, so EUA never wraps round. Also models `DataStreamParser2.java` lines 486-508. |
| `Orders.ApplyWcc` | src/main/java/org/me/ibm/DataStreamParser.java:239-295 | Keeps the buffer well formed. For a command other than the three writes, only the WCC is recorded. Also models `DataStreamParser2.java` lines 269-320. |
| `Orders.ApplyWccEffect` | src/main/java/org/me/ibm/DataStreamParser.java:239-295 | The WCC is recorded, and then:<br>- Erase/Write (either code) empties the screen.<br>- Write keeps the cursor, fields and order count.<br>- Write with start-printer nulls every cell, having saved the cells to the background unless erase-unprotected is also set.<br>- Write with erase-unprotected alone nulls the unprotected fields.<br>- Write with neither bit changes only the WCC. Also models `DataStreamParser2.java` lines 269-320. |
| `BufferOrders.WriteCharacter` | src/main/java/org/me/ibm/DataStreamParser.java:556-575 | The new buffer state is `Orders.WriteCharacter`. Also models `DataStreamParser2.java` lines 530-541. |
| `BufferOrders.BeginField` | src/main/java/org/me/ibm/DataStreamParser.java:312-314 | The new state is `Orders.BeginField`, and the field's cell is returned. |
| `BufferOrders.ApplyPair` | src/main/java/org/me/ibm/DataStreamParser.java:344-357 | The new state is one pair applied by `Orders.ApplyPairs`. |
| `BufferOrders.FinishField` | src/main/java/org/me/ibm/DataStreamParser.java:316-319 | The new state is `Orders.FinishField`. |
| `BufferOrders.SetBufferAddress` | src/main/java/org/me/ibm/DataStreamParser.java:376-380 | The new state is `Orders.SetBufferAddress`. |
| `BufferOrders.ProgramTab` | src/main/java/org/me/ibm/DataStreamParser.java:456-458 | The new state is `Orders.ProgramTab`. |
| `BufferOrders.RepeatToAddress` | src/main/java/org/me/ibm/DataStreamParser.java:479-487 | The new state is the corrected `Orders.RepeatToAddress`. |
| `BufferOrders.EraseCell` | src/main/java/org/me/ibm/DataStreamParser.java:511-513 | The new state is `Orders.EraseCell`. |
| `BufferOrders.EraseUntilAddress` | src/main/java/org/me/ibm/DataStreamParser.java:506-515 | The new state is `Orders.EraseUntilAddress`. |
| `BufferOrders.ApplyWriteControlCharacter` | src/main/java/org/me/ibm/DataStreamParser.java:247-292 | The new state is `Orders.ApplyWcc`. |
| `LenientDecoder.Character` | src/main/java/org/me/ibm/DataStreamParser.java:556-575 | The byte lands in the cursor cell and one byte is consumed; the order count is untouched. |
| `LenientDecoder.StartField` | src/main/java/org/me/ibm/DataStreamParser.java:297-322 | With no attribute byte left, only the order byte is skipped. Otherwise two bytes are consumed and the cursor cell starts a field. |
| `LenientDecoder.PairCount` | src/main/java/org/me/ibm/DataStreamParser.java:344 | The number of pairs read:<br>- never more than fit in the record;<br>- none for a count of 0x80 or above, which is negative as a Java byte;<br>- otherwise the count, unless the record ends first. Also models `DataStreamParser.java` lines 422. |
| `LenientDecoder.StartFieldExtended` | src/main/java/org/me/ibm/DataStreamParser.java:324-365 | Without a count byte, only the order is skipped. Otherwise SFE is applied with the `PairCount` pairs that follow, and the index moves past them. |
| `LenientDecoder.SetBufferAddress` | src/main/java/org/me/ibm/DataStreamParser.java:367-383 | A truncated SBA skips the order byte. Otherwise three bytes are consumed and `Orders.SetBufferAddress` is applied to the decoded address. |
| `LenientDecoder.SetAttributeOrder` | src/main/java/org/me/ibm/DataStreamParser.java:385-406 | A truncated SA skips the order byte. Otherwise three bytes are consumed and a 0xC0 pair sets the cursor cell's attribute. |
| `LenientDecoder.ModifyField` | src/main/java/org/me/ibm/DataStreamParser.java:408-439 | A truncated MF skips the order byte. Otherwise the `PairCount` pairs are applied at the cursor. |
| `LenientDecoder.ProgramTab` | src/main/java/org/me/ibm/DataStreamParser.java:450-461 | One byte is consumed and `Orders.ProgramTab` is applied. |
| `LenientDecoder.RepeatToAddress` | src/main/java/org/me/ibm/DataStreamParser.java:463-490 | A truncated RA skips the order byte. Otherwise four bytes are consumed and the corrected `Orders.RepeatToAddress` is applied. |
| `LenientDecoder.EraseUntilAddress` | src/main/java/org/me/ibm/DataStreamParser.java:492-518 | A truncated EUA skips the order byte. Otherwise three bytes are consumed and `Orders.EraseUntilAddress` is applied. |
| `LenientDecoder.GraphicsEscape` | src/main/java/org/me/ibm/DataStreamParser.java:520-540 | A truncated GE skips the order byte. Otherwise the escaped byte is written as data. |
| `LenientDecoder.WriteStep` | src/main/java/org/me/ibm/DataStreamParser.java:174-233 | An order is counted once, then handled. Any other byte is written as data and consumed. |
| `LenientDecoder.Order` | src/main/java/org/me/ibm/DataStreamParser.java:180-228 | The handler of each order keeps the screen well formed and moves forward within the record. |
| `LenientDecoder.WriteOrders` | src/main/java/org/me/ibm/DataStreamParser.java:172-236 | The loop stops at the end of the record or at the first IAC. |
| `LenientDecoder.WriteControlCharacter` | src/main/java/org/me/ibm/DataStreamParser.java:239-295 | Records the preceding byte as the command and this byte as the WCC, and consumes it. |
| `LenientDecoder.ProcessWrite` | src/main/java/org/me/ibm/DataStreamParser.java:164-237 | Nothing happens at the end of the record. Otherwise the WCC and at least one byte are consumed, and the loop stops at the record's end or at an IAC. |
| `LenientDecoder.ProcessCommand` | src/main/java/org/me/ibm/DataStreamParser.java:108-162 | The command byte is written back normalised into the array. A Read records the command and consumes one byte. |
| `LenientDecoder.CommandBody` | src/main/java/org/me/ibm/DataStreamParser.java:122-160 | A Read only skips its byte. Every body moves forward within the record. |
| `LenientDecoder.DataStream` | src/main/java/org/me/ibm/DataStreamParser.java:98-105 | The screen stays well formed, the array keeps its length, and an empty record changes nothing. |
| `LenientDecoder.Decode` | src/main/java/org/me/ibm/DataStreamParser.java:52 | Decoding the pending bytes keeps the screen well formed and the array at 8192 bytes. Also models `DataStreamParser.java` lines 85, 98-105. |
| `LenientDecoder.BufferByte` | src/main/java/org/me/ibm/DataStreamParser.java:79-89 | The byte becomes the last one collected, and IAC mode is untouched. |
| `LenientDecoder.BufferByteEffect` | src/main/java/org/me/ibm/DataStreamParser.java:79-89 | Below 8192 pending bytes, the byte is appended to them and the screen is untouched. At 8192, the pending bytes are decoded first and the byte is all that remains pending. |
| `LenientDecoder.FeedByte` | src/main/java/org/me/ibm/DataStreamParser.java:33-73 | Keeps the framing valid. Its effect is stated by `LenientDecoder.FeedByteEffect`. |
| `LenientDecoder.FeedByteEffect` | src/main/java/org/me/ibm/DataStreamParser.java:41-65 | The cases of one byte:<br>- IAC outside IAC mode only switches the mode on.<br>- EOR in IAC mode decodes and signals, empties the collection and leaves the mode.<br>- Any other byte is collected last, and IAC mode is kept only while it was on. |
| `LenientDecoder.Feed` | src/main/java/org/me/ibm/DataStreamParser.java:33-73 | Keeps the framing valid. |
| `LenientDecoder.Parse` | src/main/java/org/me/ibm/DataStreamParser.java:23-74 | Keeps the framing valid. |
| `LenientDecoder.FeedAppend` | src/main/java/org/me/ibm/DataStreamParser.java:33-73 | Feeding two inputs in turn is feeding their concatenation. |
| `LenientDecoder.FeedCollects` | src/main/java/org/me/ibm/DataStreamParser.java:41-65 | Bytes without IAC that fit in the array are collected after the pending ones, and the screen is untouched. Also models `DataStreamParser.java` lines 79-89. |
| `LenientDecoder.RecordIsDecodedWhole` | src/main/java/org/me/ibm/DataStreamParser.java:41-65 | A record of at most 8192 bytes without IAC, followed by IAC EOR, is decoded whole and signalled, and nothing is left pending. |
| `LenientParsing.LenientParser.constructor` | src/main/java/org/me/ibm/DataStreamParser.java:12-16 | A new parser is valid, over its buffer, and holds nothing pending. Also models `DataStreamParser.java` lines 76-77. |
| `LenientParsing.LenientParser.Parse` | src/main/java/org/me/ibm/DataStreamParser.java:23-74 | The new buffer state and collection are those `LenientDecoder.Parse` computes. |
| `LenientParsing.LenientParser.BufferByte` | src/main/java/org/me/ibm/DataStreamParser.java:79-89 | The new framing is `LenientDecoder.BufferByte`. |
| `LenientParsing.LenientParser.ProcessDataStream` | src/main/java/org/me/ibm/DataStreamParser.java:98-105 | The new screen and array are `LenientDecoder.DataStream`. |
| `LenientParsing.LenientParser.ProcessCommand` | src/main/java/org/me/ibm/DataStreamParser.java:108-162 | Agrees with `LenientDecoder.ProcessCommand`; past the end of the record nothing changes. |
| `LenientParsing.LenientParser.ProcessCommandBody` | src/main/java/org/me/ibm/DataStreamParser.java:122-160 | Agrees with `LenientDecoder.CommandBody`. |
| `LenientParsing.LenientParser.ProcessWrite` | src/main/java/org/me/ibm/DataStreamParser.java:164-237 | Agrees with `LenientDecoder.ProcessWrite`. |
| `LenientParsing.LenientParser.ProcessOrderOrCharacter` | src/main/java/org/me/ibm/DataStreamParser.java:174-233 | Agrees with `LenientDecoder.WriteStep`. |
| `LenientParsing.LenientParser.ProcessWriteControlCharacter` | src/main/java/org/me/ibm/DataStreamParser.java:239-295 | Agrees with `LenientDecoder.WriteControlCharacter`; past the end of the record nothing changes. |
| `LenientParsing.LenientParser.ProcessStartField` | src/main/java/org/me/ibm/DataStreamParser.java:297-322 | Agrees with `LenientDecoder.StartField`. |
| `LenientParsing.LenientParser.ApplyNextPair` | src/main/java/org/me/ibm/DataStreamParser.java:344-357 | Applying one more pair extends the pairs applied so far. |
| `LenientParsing.LenientParser.ProcessPairs` | src/main/java/org/me/ibm/DataStreamParser.java:344-357 | Consumes `PairCount` pairs and applies exactly those. Also models `DataStreamParser.java` lines 422-436. |
| `LenientParsing.LenientParser.ProcessStartFieldExtended` | src/main/java/org/me/ibm/DataStreamParser.java:324-365 | Agrees with `LenientDecoder.StartFieldExtended`. |
| `LenientParsing.LenientParser.ProcessSetBufferAddress` | src/main/java/org/me/ibm/DataStreamParser.java:367-383 | Agrees with `LenientDecoder.SetBufferAddress`. |
| `LenientParsing.LenientParser.ProcessSetAttribute` | src/main/java/org/me/ibm/DataStreamParser.java:385-406 | Agrees with `LenientDecoder.SetAttributeOrder`. |
| `LenientParsing.LenientParser.ProcessModifyField` | src/main/java/org/me/ibm/DataStreamParser.java:408-439 | Agrees with `LenientDecoder.ModifyField`. |
| `LenientParsing.LenientParser.ProcessProgramTab` | src/main/java/org/me/ibm/DataStreamParser.java:450-461 | Agrees with `LenientDecoder.ProgramTab`. |
| `LenientParsing.LenientParser.ProcessRepeatToAddress` | src/main/java/org/me/ibm/DataStreamParser.java:463-490 | Agrees with `LenientDecoder.RepeatToAddress`, which is the corrected loop. |
| `LenientParsing.LenientParser.ProcessEraseUntilAddress` | src/main/java/org/me/ibm/DataStreamParser.java:492-518 | Agrees with `LenientDecoder.EraseUntilAddress`. |
| `LenientParsing.LenientParser.ProcessGraphicsEscape` | src/main/java/org/me/ibm/DataStreamParser.java:520-540 | Agrees with `LenientDecoder.GraphicsEscape`. |
| `LenientParsing.LenientParser.ProcessCharacter` | src/main/java/org/me/ibm/DataStreamParser.java:556-575 | Agrees with `LenientDecoder.Character`. |
| `StrictDecoder.StartField` | src/main/java/org/me/ibm/DataStreamParser2.java:322-341 | Fails, with the screen unchanged, exactly when the attribute byte is missing. Otherwise two bytes are consumed and `Orders.StartField` is applied. |
| `StrictDecoder.Wanted` | src/main/java/org/me/ibm/DataStreamParser2.java:348 | The pairs a count asks for: the count below 0x80, and none from 0x80, where the Java byte is negative. Also models `DataStreamParser2.java` lines 358. |
| `StrictDecoder.CompletePairs` | src/main/java/org/me/ibm/DataStreamParser2.java:358-360 | The number of whole pairs left in the stream. |
| `StrictDecoder.StartFieldExtended` | src/main/java/org/me/ibm/DataStreamParser2.java:343-377 | Succeeds exactly when all wanted pairs are present, and then applies SFE with them. A stream ending at the count byte is the end-of-stream error. |
| `StrictDecoder.SetBufferAddress` | src/main/java/org/me/ibm/DataStreamParser2.java:379-391 | Only the cursor may change. It fails, with the screen unchanged, exactly when an address byte is missing; otherwise the cursor moves to an on-screen address. |
| `StrictDecoder.SetAttributeOrder` | src/main/java/org/me/ibm/DataStreamParser2.java:393-411 | Fails, with the screen unchanged, exactly when a byte is missing. Otherwise a 0xC0 pair sets the cursor cell's attribute, and any other pair changes nothing. |
| `StrictDecoder.ModifyField` | src/main/java/org/me/ibm/DataStreamParser2.java:413-440 | Only attributes change. It succeeds exactly when all wanted pairs are present, and then applies `Orders.ModifyField`. |
| `StrictDecoder.RepeatToAddress` | src/main/java/org/me/ibm/DataStreamParser2.java:461-484 | Fails, with the screen unchanged, exactly when one of the three bytes is missing. Otherwise the corrected RA is applied. |
| `StrictDecoder.EraseUntilAddress` | src/main/java/org/me/ibm/DataStreamParser2.java:486-508 | The cursor is kept. It fails, with the screen unchanged, exactly when an address byte is missing; otherwise EUA as written is applied. |
| `StrictDecoder.GraphicsEscape` | src/main/java/org/me/ibm/DataStreamParser2.java:510-528 | Fails exactly when the escaped byte is missing. Otherwise that byte is written as data. |
| `StrictDecoder.WriteStep` | src/main/java/org/me/ibm/DataStreamParser2.java:210-265 | An order is counted once and handled; any other byte is written as data. |
| `StrictDecoder.Order` | src/main/java/org/me/ibm/DataStreamParser2.java:211-259 | Each order handler keeps the screen well formed, consumes its bytes, and leaves the order count alone. |
| `StrictDecoder.WriteOrders` | src/main/java/org/me/ibm/DataStreamParser2.java:193-266 | On success the loop has consumed an IAC EOR and stops right after it. |
| `StrictDecoder.ProcessWrite` | src/main/java/org/me/ibm/DataStreamParser2.java:188-267 | On success at least the WCC and IAC EOR are consumed. At the end of the stream it fails with the screen unchanged. |
| `StrictDecoder.ExpectIacEor` | src/main/java/org/me/ibm/DataStreamParser2.java:177-186 | Succeeds exactly when IAC and then EOR follow, and the screen is untouched. |
| `StrictDecoder.CommandBody` | src/main/java/org/me/ibm/DataStreamParser2.java:117-163 | Keeps the screen well formed, and moves forward on success. |
| `StrictDecoder.ProcessCommand` | src/main/java/org/me/ibm/DataStreamParser2.java:110-175 | Keeps the screen well formed, and moves forward on success. |
| `StrictDecoder.Commands` | src/main/java/org/me/ibm/DataStreamParser2.java:48-76 | Success means the whole stream was read. |
| `StrictDecoder.CommandsStep` | src/main/java/org/me/ibm/DataStreamParser2.java:48-76 | One pass of the loop:<br>- a failed command, or one that ends the stream, ends the loop;<br>- otherwise the next byte, normalised, goes on if it is a valid command, and fails after being read if it is not. |
| `StrictDecoder.Parse` | src/main/java/org/me/ibm/DataStreamParser2.java:32-77 | Keeps the screen well formed and the position within the stream. |
| `StrictDecoder.ParseStream` | src/main/java/org/me/ibm/DataStreamParser2.java:22-29 | An empty stream is an error that changes nothing. |
| `StrictDecoder.InvalidFirstCommandChangesNothing` | src/main/java/org/me/ibm/DataStreamParser2.java:35-45 | A first byte that does not normalise to a command is rejected before anything is read or changed. |
| `StrictDecoder.ReadOnlyRecordsCommand` | src/main/java/org/me/ibm/DataStreamParser2.java:142-160 | A Read only records the command and signals the end of record. It succeeds exactly when IAC EOR follows. Also models `DataStreamParser2.java` lines 169-174. |
| `StrictDecoder.SignalledOncePerCommand` | src/main/java/org/me/ibm/DataStreamParser2.java:110-175 | The end of record is signalled once per command, in the `finally`, whether the body succeeded or not. Only `ack` may change. |
| `StrictDecoder.StrictDataByte` | src/main/java/org/me/ibm/DataStreamParser2.java:261-264 | A data byte in the strict loop is written and the loop goes on. |
| `StrictDecoder.StrictEndOfRecord` | src/main/java/org/me/ibm/DataStreamParser2.java:197-202 | IAC EOR ends the strict loop successfully. |
| `StrictDecoder.StrictWriteAtEnd` | src/main/java/org/me/ibm/DataStreamParser2.java:102-108 | At the end of the stream the strict loop fails. Also models `DataStreamParser2.java` lines 194. |
| `StrictDecoder.EscapedIacIsData` | src/main/java/org/me/ibm/DataStreamParser2.java:197-206 | IAC followed by anything but EOR is one 0xFF data byte, and the second byte is dropped. |
| `StrictDecoder.StrictWriteStep` | src/main/java/org/me/ibm/DataStreamParser2.java:210-265 | Any other byte is one pass of the switch. |
| `StrictDecoder.LenientDataByte` | src/main/java/org/me/ibm/DataStreamParser.java:231-233 | A data byte in the lenient loop is written and the loop goes on. |
| `StrictDecoder.PlainDataTail` | src/main/java/org/me/ibm/DataStreamParser.java:231-233 | Plain data stays plain without its first byte. |
| `StrictDecoder.WriteCharacters` | src/main/java/org/me/ibm/DataStreamParser.java:556-575 | Writes a run of data bytes one after another from the cursor. |
| `StrictDecoder.StrictPlainRun` | src/main/java/org/me/ibm/DataStreamParser2.java:193-266 | The strict loop writes plain data as it is and stops after the IAC EOR that follows. |
| `StrictDecoder.LenientPlainRun` | src/main/java/org/me/ibm/DataStreamParser.java:172-236 | The lenient loop writes plain data as it is, up to the end of the record. |
| `StrictDecoder.WriteOrdersAgreeOnPlainData` | src/main/java/org/me/ibm/DataStreamParser.java:172-236 | On plain data the two write loops leave the same screen. Also models `DataStreamParser2.java` lines 193-266. |
| `StrictDecoder.PlainWrite` | src/main/java/org/me/ibm/DataStreamParser2.java:117-129 | Keeps the buffer well formed. It is the reference screen for a plain Write record. |
| `StrictDecoder.StrictPlainWrite` | src/main/java/org/me/ibm/DataStreamParser2.java:32-77 | The strict parse of a plain Write record succeeds, reads it all, and signals the `PlainWrite` screen. Also models `DataStreamParser2.java` lines 110-175. |
| `StrictDecoder.LenientPlainWrite` | src/main/java/org/me/ibm/DataStreamParser.java:98-162 | Lenient decoding of a plain Write record leaves the `PlainWrite` screen for the normalised command. |
| `StrictDecoder.ByteModulo` | src/main/java/org/me/ibm/DataStreamParser2.java:36 | A byte read back from its integer value modulo 256 is itself. |
| `StrictDecoder.PlainWriteRecordsAgree` | src/main/java/org/me/ibm/DataStreamParser.java:23-105 | The two parsers agree: fed a plain Write record and IAC EOR from an empty collection, the lenient framing leaves the screen the strict parse signals. Also models `DataStreamParser2.java` lines 32-77. |
| `StrictParsing.StrictParser.constructor` | src/main/java/org/me/ibm/DataStreamParser2.java:16-20 | A new parser is over its buffer and stream, with no current command. |
| `StrictParsing.StrictParser.ReadByte` | src/main/java/org/me/ibm/DataStreamParser2.java:102-108 | Returns the next byte, or fails exactly at the end of the stream. |
| `StrictParsing.StrictParser.ParseStream` | src/main/java/org/me/ibm/DataStreamParser2.java:22-29 | Agrees with `StrictDecoder.ParseStream`. |
| `StrictParsing.StrictParser.Parse` | src/main/java/org/me/ibm/DataStreamParser2.java:32-77 | Agrees with `StrictDecoder.Parse`. |
| `StrictParsing.StrictParser.ParseStep` | src/main/java/org/me/ibm/DataStreamParser2.java:48-76 | One pass either ends the loop with its outcome, or moves forward and leaves the rest of the loop with the same outcome. |
| `StrictParsing.StrictParser.ReadCommand` | src/main/java/org/me/ibm/DataStreamParser2.java:55-67 | Reads one byte. The command is that byte normalised, and `ok` holds exactly when it is one of the six commands. |
| `StrictParsing.StrictParser.ProcessCommand` | src/main/java/org/me/ibm/DataStreamParser2.java:110-175 | Records the command, and agrees with `StrictDecoder.ProcessCommand`. |
| `StrictParsing.StrictParser.ExpectIacEor` | src/main/java/org/me/ibm/DataStreamParser2.java:177-186 | Agrees with `StrictDecoder.ExpectIacEor`. |
| `StrictParsing.StrictParser.ProcessWrite` | src/main/java/org/me/ibm/DataStreamParser2.java:188-267 | Agrees with `StrictDecoder.ProcessWrite`. |
| `StrictParsing.StrictParser.ProcessOrders` | src/main/java/org/me/ibm/DataStreamParser2.java:193-266 | Agrees with `StrictDecoder.WriteOrders`. |
| `StrictParsing.StrictParser.ProcessOrdersStep` | src/main/java/org/me/ibm/DataStreamParser2.java:193-266 | One pass either ends the loop with its outcome, or leaves the rest of the loop with the same outcome. |
| `StrictParsing.StrictParser.ProcessWriteControlCharacter` | src/main/java/org/me/ibm/DataStreamParser2.java:269-320 | Fails exactly at the end of the stream, with the screen unchanged. Otherwise it consumes one byte and applies `Orders.ApplyWcc`. |
| `StrictParsing.StrictParser.ProcessOrderOrDataByte` | src/main/java/org/me/ibm/DataStreamParser2.java:210-265 | Agrees with `StrictDecoder.WriteStep`. |
| `StrictParsing.StrictParser.ProcessOrder` | src/main/java/org/me/ibm/DataStreamParser2.java:211-259 | Agrees with `StrictDecoder.Order`. |
| `StrictParsing.StrictParser.ProcessStartField` | src/main/java/org/me/ibm/DataStreamParser2.java:322-341 | Agrees with `StrictDecoder.StartField`. |
| `StrictParsing.StrictParser.ReadPair` | src/main/java/org/me/ibm/DataStreamParser2.java:359-360 | Two bytes, or failure exactly when fewer remain. |
| `StrictParsing.StrictParser.ApplyNextPair` | src/main/java/org/me/ibm/DataStreamParser2.java:358-371 | One more pair is read and applied. At the end of the stream it fails with the screen unchanged. |
| `StrictParsing.StrictParser.ReadPairs` | src/main/java/org/me/ibm/DataStreamParser2.java:358-371 | Succeeds exactly when all wanted pairs are present. On failure the complete pairs read so far stay applied. Also models `DataStreamParser2.java` lines 425-438. |
| `StrictParsing.StrictParser.ProcessStartFieldExtended` | src/main/java/org/me/ibm/DataStreamParser2.java:343-377 | Agrees with `StrictDecoder.StartFieldExtended`. |
| `StrictParsing.StrictParser.ProcessSetBufferAddress` | src/main/java/org/me/ibm/DataStreamParser2.java:379-391 | Agrees with `StrictDecoder.SetBufferAddress`. |
| `StrictParsing.StrictParser.ProcessSetAttribute` | src/main/java/org/me/ibm/DataStreamParser2.java:393-411 | Agrees with `StrictDecoder.SetAttributeOrder`. |
| `StrictParsing.StrictParser.ProcessModifyField` | src/main/java/org/me/ibm/DataStreamParser2.java:413-440 | Agrees with `StrictDecoder.ModifyField`. |
| `StrictParsing.StrictParser.ProcessRepeatToAddress` | src/main/java/org/me/ibm/DataStreamParser2.java:461-484 | Agrees with `StrictDecoder.RepeatToAddress`, which is the corrected loop. |
| `StrictParsing.StrictParser.ProcessEraseUntilAddress` | src/main/java/org/me/ibm/DataStreamParser2.java:486-508 | Agrees with `StrictDecoder.EraseUntilAddress`. |
| `StrictParsing.StrictParser.ProcessGraphicsEscape` | src/main/java/org/me/ibm/DataStreamParser2.java:510-528 | Agrees with `StrictDecoder.GraphicsEscape`. |
| `TelnetProtocol.Offer` | src/main/java/org/me/ibm/TelnetOptions.java:22-38 | The opening offer, byte for byte: WILL/DO Binary, WILL/DO End-of-Record, WILL Terminal-Type, WILL/DO Suppress-Go-Ahead. Also models `TelnetOptionsNegotiator.java` lines 28-44. |
| `TelnetProtocol.HandleDo` | src/main/java/org/me/ibm/TelnetOptions.java:103-127 | Replies WILL for Binary, End-of-Record, Terminal-Type and Suppress-Go-Ahead, and WONT otherwise. Binary and End-of-Record are switched on, never off. Also models `TelnetOptionsNegotiator.java` lines 223-247. |
| `TelnetProtocol.HandleDont` | src/main/java/org/me/ibm/TelnetOptions.java:129-131 | Always replies WONT, and no flag changes. Also models `TelnetOptionsNegotiator.java` lines 249-251. |
| `TelnetProtocol.HandleWill` | src/main/java/org/me/ibm/TelnetOptions.java:133-153 | Replies DO for Binary, End-of-Record and Suppress-Go-Ahead, and DONT otherwise. Binary and End-of-Record are switched on. Also models `TelnetOptionsNegotiator.java` lines 253-273. |
| `TelnetProtocol.HandleWont` | src/main/java/org/me/ibm/TelnetOptions.java:155-166 | Always replies DONT. Binary or End-of-Record is switched off. Also models `TelnetOptionsNegotiator.java` lines 275-286. |
| `TelnetProtocol.Negotiate` | src/main/java/org/me/ibm/TelnetOptions.java:74-90 | Every negotiation reply is IAC, a verb, and the same option. |
| `TelnetProtocol.FlagsChangeOnlyAsNegotiated` | src/main/java/org/me/ibm/TelnetOptions.java:103-166 | Only DO and WILL switch Binary or End-of-Record on, only WONT switches one off, and DONT changes neither. |
| `TelnetProtocol.IBM3278` | src/main/java/org/me/ibm/TelnetConstants.java:23 | The bytes sent for `IBM-3278-2-E`: one per character, each the character's 7-bit code. Also models `TelnetOptions.java` lines 199. |
| `TelnetProtocol.IBM3279` | src/main/java/org/me/ibm/TelnetConstants.java:24 | The bytes sent for `IBM-3279-2-E`: one per character, each the character's 7-bit code. Also models `TelnetOptions.java` lines 199. |
| `TelnetProtocol.TerminalTypeReply` | src/main/java/org/me/ibm/TelnetOptions.java:192-201 | The reply is IAC SB TERMINAL-TYPE IS, the type bytes, then IAC SE (section 2 of RFC 1091). Also models `TelnetOptionsNegotiator.java` lines 289-298. |
| `TelnetProtocol.SubnegotiationEnd` | src/main/java/org/me/ibm/TelnetOptions.java:175-180 | The first IAC SE from `from` on, or `length - 1` when there is none; no IAC SE lies before it. |
| `TelnetProtocol.Subnegotiation` | src/main/java/org/me/ibm/TelnetOptions.java:168-190 | A short subnegotiation skips one byte. Otherwise it skips past the IAC SE found, and only the output may change. The terminal type is sent back exactly when the subnegotiation is a terminal-type SEND with at least one byte after the SEND byte; every other subnegotiation leaves the output unchanged. |
| `TelnetProtocol.ScanCommands` | src/main/java/org/me/ibm/TelnetOptions.java:66-101 | Never changes the terminal type. |
| `TelnetProtocol.ShortTailIgnored` | src/main/java/org/me/ibm/TelnetOptions.java:69-70 | An IAC in either of the last two positions starts no command. Also models `TelnetOptions.java` lines 97-99. |
| `TelnetProtocol.OtherCommandSkipped` | src/main/java/org/me/ibm/TelnetOptions.java:74-96 | IAC followed by anything but a negotiation or SB skips three bytes and changes nothing. |
| `TelnetProtocol.NegotiationTriple` | src/main/java/org/me/ibm/TelnetOptions.java:70-96 | A negotiation triple gets its handler's reply and flags, and the scan resumes three bytes later. |
| `TelnetProtocol.TerminalTypeRequestAnswered` | src/main/java/org/me/ibm/TelnetOptions.java:168-190 | A terminal-type SEND subnegotiation is answered with the terminal type. |
| `TelnetProtocol.Negotiated` | src/main/java/org/me/ibm/TelnetOptions.java:44-64 | Scanning the reads keeps the terminal type, and no reads change nothing. |
| `TelnetProtocol.SplitCommandLost` | src/main/java/org/me/ibm/TelnetOptions.java:44-64 | Each read is scanned on its own: IAC DO BINARY in one read switches Binary on, but split across two reads it is lost. Also models `TelnetOptions.java` lines 66-101. |
| `NegotiationModel.Initial` | src/main/java/org/me/ibm/TelnetOptionsNegotiator.java:15-22 | A new negotiator satisfies the between-bytes invariant. |
| `NegotiationModel.Subnegotiate` | src/main/java/org/me/ibm/TelnetOptionsNegotiator.java:207-220 | Only the output changes, and only a terminal-type SEND of five bytes or more is answered. |
| `NegotiationModel.Execute` | src/main/java/org/me/ibm/TelnetOptionsNegotiator.java:154-205 | The held bytes are kept. A data byte is returned exactly for IAC IAC, and it is 255. |
| `NegotiationModel.Step` | src/main/java/org/me/ibm/TelnetOptionsNegotiator.java:346-380 | One byte:<br>- the invariant is kept;<br>- None exactly for a byte outside a command that is not IAC, and then nothing changes;<br>- otherwise -1 or 255;<br>- a command ends only when complete. |
| `NegotiationModel.AcceptByte` | src/main/java/org/me/ibm/TelnetOptionsNegotiator.java:358-360 | A byte is appended while fewer than 256 are held, and dropped otherwise. |
| `NegotiationModel.UntilData` | src/main/java/org/me/ibm/TelnetOptionsNegotiator.java:54-113 | Either the end of the stream is an error, or the last byte read is the value returned. |
| `NegotiationModel.Feed` | src/main/java/org/me/ibm/TelnetOptionsNegotiator.java:346-380 | Keeps the invariant. |
| `NegotiationModel.CompleteCommandResets` | src/main/java/org/me/ibm/TelnetOptionsNegotiator.java:363-366 | A complete command leaves nothing held and no command in progress. |
| `NegotiationModel.FullBufferDropsBytes` | src/main/java/org/me/ibm/TelnetOptionsNegotiator.java:356-376 | With 256 bytes held and no complete command, every later byte is consumed and dropped. |
| `NegotiationModel.EscapedIac` | src/main/java/org/me/ibm/TelnetOptionsNegotiator.java:198-201 | IAC IAC is the data byte 255, and nothing else changes. Also models `TelnetOptionsNegotiator.java` lines 346-374. |
| `NegotiationModel.NegotiationRunsHandler` | src/main/java/org/me/ibm/TelnetOptionsNegotiator.java:161-185 | IAC, a verb and an option run that verb's handler. |
| `NegotiationModel.BareSeNotifies` | src/main/java/org/me/ibm/TelnetOptionsNegotiator.java:190-196 | A bare IAC SE notifies an attached buffer once and sends nothing. |
| `NegotiationModel.TerminalTypeSendAnswered` | src/main/java/org/me/ibm/TelnetOptionsNegotiator.java:207-220 | IAC SB TERMINAL-TYPE SEND IAC SE is answered with the terminal type. |
| `NegotiationModel.DataByteReturned` | src/main/java/org/me/ibm/TelnetOptionsNegotiator.java:108-109 | Outside a command, a byte other than IAC is returned as data and nothing changes. |
| `NegotiationModel.NegotiationConsumed` | src/main/java/org/me/ibm/TelnetOptionsNegotiator.java:54-113 | A negotiation triple in the input runs its handler, and reading goes on after it. |
| `NegotiationModel.EscapedIacReturned` | src/main/java/org/me/ibm/TelnetOptionsNegotiator.java:54-113 | IAC IAC in the input returns 255, and no Telnet state changes. |
| `NegotiationModel.ReadEndsAtData` | src/main/java/org/me/ibm/TelnetOptionsNegotiator.java:54-113 | A successful read ends outside any command with nothing held. A returned 255 came from an IAC. |
| `NegotiationModel.NegotiatorAgreesWithScanner` | src/main/java/org/me/ibm/TelnetOptions.java:70-96 | The negotiator and the batch scanner answer a negotiation triple with the same flags and the same reply. Also models `TelnetOptionsNegotiator.java` lines 161-185. |
| `TelnetOptionHandling.TelnetOptions.constructor` | src/main/java/org/me/ibm/TelnetOptions.java:14-20 | Both flags off, terminal type IBM-3278-2-E, nothing sent. |
| `TelnetOptionHandling.TelnetOptions.SetTerminalType` | src/main/java/org/me/ibm/TelnetOptions.java:243-245 | Only the terminal type changes. |
| `TelnetOptionHandling.TelnetOptions.NegotiateOptions` | src/main/java/org/me/ibm/TelnetOptions.java:22-42 | The offer is sent, then the reads are scanned, as `TelnetProtocol.Negotiated`. |
| `TelnetOptionHandling.TelnetOptions.ProcessOptionNegotiations` | src/main/java/org/me/ibm/TelnetOptions.java:44-64 | Each read is scanned, as `TelnetProtocol.Negotiated`. |
| `TelnetOptionHandling.TelnetOptions.ProcessTelnetCommands` | src/main/java/org/me/ibm/TelnetOptions.java:66-101 | Agrees with `TelnetProtocol.ScanCommands` from index 0. |
| `TelnetOptionHandling.TelnetOptions.HandleDo` | src/main/java/org/me/ibm/TelnetOptions.java:103-127 | The flags and reply of `TelnetProtocol.HandleDo`. |
| `TelnetOptionHandling.TelnetOptions.HandleDont` | src/main/java/org/me/ibm/TelnetOptions.java:129-131 | The flags and reply of `TelnetProtocol.HandleDont`. |
| `TelnetOptionHandling.TelnetOptions.HandleWill` | src/main/java/org/me/ibm/TelnetOptions.java:133-153 | The flags and reply of `TelnetProtocol.HandleWill`. |
| `TelnetOptionHandling.TelnetOptions.HandleWont` | src/main/java/org/me/ibm/TelnetOptions.java:155-166 | The flags and reply of `TelnetProtocol.HandleWont`. |
| `TelnetOptionHandling.TelnetOptions.HandleSubnegotiation` | src/main/java/org/me/ibm/TelnetOptions.java:168-190 | Agrees with `TelnetProtocol.Subnegotiation`, so it answers exactly a terminal-type SEND followed by at least one more byte. |
| `TelnetOptionHandling.TelnetOptions.SendTerminalType` | src/main/java/org/me/ibm/TelnetOptions.java:192-201 | Appends `TelnetProtocol.TerminalTypeReply`. |
| `TelnetOptionHandling.TelnetOptions.SendWill` | src/main/java/org/me/ibm/TelnetOptions.java:203-208 | Appends IAC WILL and the option. |
| `TelnetOptionHandling.TelnetOptions.SendWont` | src/main/java/org/me/ibm/TelnetOptions.java:210-215 | Appends IAC WONT and the option. |
| `TelnetOptionHandling.TelnetOptions.SendDo` | src/main/java/org/me/ibm/TelnetOptions.java:217-222 | Appends IAC DO and the option. |
| `TelnetOptionHandling.TelnetOptions.SendDont` | src/main/java/org/me/ibm/TelnetOptions.java:224-229 | Appends IAC DONT and the option. |
| `TelnetNegotiation.TelnetOptionsNegotiator.constructor` | src/main/java/org/me/ibm/TelnetOptionsNegotiator.java:15-22 | The initial negotiator, with terminal type IBM-3279-2-E. |
| `TelnetNegotiation.TelnetOptionsNegotiator.SetBuffer` | src/main/java/org/me/ibm/TelnetOptionsNegotiator.java:24-26 | Only whether a buffer is attached changes. |
| `TelnetNegotiation.TelnetOptionsNegotiator.SetTerminalType` | src/main/java/org/me/ibm/TelnetOptionsNegotiator.java:340-342 | Only the terminal type changes. |
| `TelnetNegotiation.TelnetOptionsNegotiator.NegotiateOptions` | src/main/java/org/me/ibm/TelnetOptionsNegotiator.java:28-48 | The offer is sent, then input is read as `NegotiationModel.UntilData`. |
| `TelnetNegotiation.TelnetOptionsNegotiator.ProcessNegotiationsUntilData` | src/main/java/org/me/ibm/TelnetOptionsNegotiator.java:54-113 | Agrees with `NegotiationModel.UntilData`. |
| `TelnetNegotiation.TelnetOptionsNegotiator.IsCompleteTelnetCommand` | src/main/java/org/me/ibm/TelnetOptionsNegotiator.java:115-152 | Agrees with `NegotiationModel.IsComplete` on the bytes held. |
| `TelnetNegotiation.TelnetOptionsNegotiator.ProcessTelnetCommand` | src/main/java/org/me/ibm/TelnetOptionsNegotiator.java:154-205 | Agrees with `NegotiationModel.Execute`. |
| `TelnetNegotiation.TelnetOptionsNegotiator.ProcessSubnegotiation` | src/main/java/org/me/ibm/TelnetOptionsNegotiator.java:207-220 | Agrees with `NegotiationModel.Subnegotiate`. |
| `TelnetNegotiation.TelnetOptionsNegotiator.HandleDo` | src/main/java/org/me/ibm/TelnetOptionsNegotiator.java:223-247 | The flags and reply of `TelnetProtocol.HandleDo`. |
| `TelnetNegotiation.TelnetOptionsNegotiator.HandleDont` | src/main/java/org/me/ibm/TelnetOptionsNegotiator.java:249-251 | The flags and reply of `TelnetProtocol.HandleDont`. |
| `TelnetNegotiation.TelnetOptionsNegotiator.HandleWill` | src/main/java/org/me/ibm/TelnetOptionsNegotiator.java:253-273 | The flags and reply of `TelnetProtocol.HandleWill`. |
| `TelnetNegotiation.TelnetOptionsNegotiator.HandleWont` | src/main/java/org/me/ibm/TelnetOptionsNegotiator.java:275-286 | The flags and reply of `TelnetProtocol.HandleWont`. |
| `TelnetNegotiation.TelnetOptionsNegotiator.SendTerminalType` | src/main/java/org/me/ibm/TelnetOptionsNegotiator.java:289-298 | Appends `TelnetProtocol.TerminalTypeReply`. |
| `TelnetNegotiation.TelnetOptionsNegotiator.SendWill` | src/main/java/org/me/ibm/TelnetOptionsNegotiator.java:300-305 | Appends IAC WILL and the option. |
| `TelnetNegotiation.TelnetOptionsNegotiator.SendWont` | src/main/java/org/me/ibm/TelnetOptionsNegotiator.java:307-312 | Appends IAC WONT and the option. |
| `TelnetNegotiation.TelnetOptionsNegotiator.SendDo` | src/main/java/org/me/ibm/TelnetOptionsNegotiator.java:314-319 | Appends IAC DO and the option. |
| `TelnetNegotiation.TelnetOptionsNegotiator.SendDont` | src/main/java/org/me/ibm/TelnetOptionsNegotiator.java:321-326 | Appends IAC DONT and the option. |
| `TelnetNegotiation.TelnetOptionsNegotiator.ProcessOngoingTelnetByte` | src/main/java/org/me/ibm/TelnetOptionsNegotiator.java:346-380 | Agrees with `NegotiationModel.Step`. |
| `ScreenView.StripWhitespace` | src/main/java/org/me/ibm/Screen.java:42 | `\s+` at the very end of the text: a prefix with no whitespace at its end; everything cut off is whitespace. |
| `ScreenView.TrimEnd` | src/main/java/org/me/ibm/Screen.java:42 | `replaceAll("\\s+$", "")`, with Java's `$` matching at the end and just before a final line terminator. When the text ends in NEL, LINE SEPARATOR or PARAGRAPH SEPARATOR, that character stays and the whitespace run just before it is removed; otherwise the result is a prefix with no whitespace at its end. Everything removed is whitespace. |
| `ScreenView.TrimEndBeforeLineSeparator` | src/main/java/org/me/ibm/Screen.java:42 | "a", two spaces and a LINE SEPARATOR trims to "a" and the separator; a space after the separator is what gets trimmed when the separator is not last. |
| `ScreenView.RowText` | src/main/java/org/me/ibm/Screen.java:32-43 | "" for a row off screen. Otherwise at most 80 characters: a prefix of the row, or, when the row's last cell holds a final line terminator, a prefix of the row followed by that terminator. |
| `ScreenView.RowPrefixes` | src/main/java/org/me/ibm/Screen.java:37-41 | The 80 characters collected for an on-screen row are the live cells of that row: every prefix is the matching slice of the buffer. |
| `ScreenView.Window` | src/main/java/org/me/ibm/Screen.java:45-55 | "" for a start off screen or a length that is not positive. Otherwise `min(length, 1920 - position)` characters read from the buffer. |
| `ScreenView.CellText` | src/main/java/org/me/ibm/Screen.java:57-64 | "" for a row or column off screen. Otherwise the window from `row * 80 + col`. |
| `ScreenView.RowsLength` | src/main/java/org/me/ibm/Screen.java:21-30 | The joined rows take at most 80 characters per row, plus one separator between rows. |
| `ScreenView.WindowIsClippedString` | src/main/java/org/me/ibm/Screen.java:45-55 | A window is the buffer's `string(start, length)`, cut to the cells on screen. Also models `Buffer.java` lines 544-559. |
| `ScreenView.SameLayoutSameProtection` | src/main/java/org/me/ibm/Buffer.java:366-377 | States with the same layout agree on the protection of every cell. |
| `ScreenView.SetAsciiKeepsLayout` | src/main/java/org/me/ibm/Buffer.java:316-328 | Writing a character keeps the layout and the cursor, and changes exactly one on-screen character. |
| `ScreenView.ShiftOne` | src/main/java/org/me/ibm/Screen.java:100-102 | Keeps the buffer well formed. Its effect is stated by `ScreenView.ShiftOneEffect`. |
| `ScreenView.ShiftDown` | src/main/java/org/me/ibm/Screen.java:99-103 | Keeps the buffer well formed. |
| `ScreenView.Shift` | src/main/java/org/me/ibm/Screen.java:94-104 | Keeps the buffer well formed. Its effect is stated by `ScreenView.ShiftEffect`. |
| `ScreenView.ShiftOneEffect` | src/main/java/org/me/ibm/Screen.java:100-102 | An unprotected cell takes its left neighbour's character, and a protected cell keeps its own; the layout is kept. |
| `ScreenView.ShiftDownLayout` | src/main/java/org/me/ibm/Screen.java:99-103 | The loop keeps the layout. |
| `ScreenView.ShiftDownAt` | src/main/java/org/me/ibm/Screen.java:99-103 | After the loop, an unprotected cell in the span holds its left neighbour's old character; every other cell holds its own. |
| `ScreenView.ShiftEffect` | src/main/java/org/me/ibm/Screen.java:94-104 | The layout is kept. Every unprotected cell after the start and before its field's end takes its left neighbour's character; the start cell and every other cell are unchanged. |
| `ScreenView.TypeOne` | src/main/java/org/me/ibm/Screen.java:77-87 | Keeps the buffer well formed. Its effect is stated by `ScreenView.TypeOneEffect`. |
| `ScreenView.TypeFrom` | src/main/java/org/me/ibm/Screen.java:76-91 | Keeps the buffer well formed. |
| `ScreenView.PutString` | src/main/java/org/me/ibm/Screen.java:70-92 | Keeps the buffer well formed. Empty text or a start off screen changes nothing. |
| `ScreenView.TypeOneEffect` | src/main/java/org/me/ibm/Screen.java:77-87 | The layout is kept.<br>- A protected cell changes nothing.<br>- Otherwise the cell takes the character.<br>- In insert mode the unprotected cells after it, up to its field's end, move one place right. |
| `ScreenView.TypingMarksField` | src/main/java/org/me/ibm/Screen.java:80-85 | Typing into an unprotected cell of a field sets that field's MDT bit, in either mode. Also models `Buffer.java` lines 316-328. |
| `ScreenView.TypeFromLayout` | src/main/java/org/me/ibm/Screen.java:76-91 | The loop keeps the layout, and puts the cursor after the last cell visited, kept on screen. |
| `ScreenView.TypeFromAt` | src/main/java/org/me/ibm/Screen.java:76-88 | Each visited unprotected cell holds its character. Protected cells and cells before the start are unchanged, and so are the cells after the visited ones in overwrite mode. |
| `ScreenView.TypeFromUnfold` | src/main/java/org/me/ibm/Screen.java:76-88 | One turn of the typing loop: with characters and cells left, it types one character and goes on from the next cell; otherwise the characters are unchanged. |
| `ScreenView.TypeFromAtStep` | src/main/java/org/me/ibm/Screen.java:76-88 | What `TypeFromAt` states for the rest of the loop also holds for the whole loop after one more character is typed. |
| `ScreenView.PutStringEffect` | src/main/java/org/me/ibm/Screen.java:70-92 | The layout is kept and the cursor ends after the last cell visited, at most 1919. The `k`-th character lands in the `k`-th cell if that cell is unprotected; protected cells, cells before the start and, in overwrite mode, later cells are unchanged. |
| `ScreenView.Tab` | src/main/java/org/me/ibm/Screen.java:192-196 | Keeps the buffer well formed. Its effect is stated by `ScreenView.TabEffect`. |
| `ScreenView.TabEffect` | src/main/java/org/me/ibm/Screen.java:192-196 | Only the cursor moves, and not at all without fields. A cursor that moves lands on the start of the first unprotected field after it, going round the screen. |
| `ScreenView.Home` | src/main/java/org/me/ibm/Screen.java:198-205 | Keeps the buffer well formed. |
| `ScreenView.CursorKeepsUnprotectedStarts` | src/main/java/org/me/ibm/Screen.java:199 | Moving the cursor does not change which cells start an unprotected field. |
| `ScreenView.HomeEffect` | src/main/java/org/me/ibm/Screen.java:198-205 | Only the cursor moves: to the start of the first unprotected field, or to 0 when there is none. |
| `ScreenView.EncodeAddress` | src/main/java/org/me/ibm/Screen.java:228-234 | Two bytes, each with 0x40 in its top two bits. |
| `ScreenView.LowSixBits` | src/main/java/org/me/ibm/Screen.java:231-232 | A six-bit value or-ed with 0x40 decodes back to itself. |
| `ScreenView.EncodeAddressOnScreen` | src/main/java/org/me/ibm/Screen.java:228-234 | Decoding an encoded on-screen address keeps bits 0-5, moves bits 8-10 to bits 6-8, and loses bits 6-7. Also models `DataStreamParser.java` lines 577-590. |
| `ScreenView.EncodeAddressRoundTrip` | src/main/java/org/me/ibm/Screen.java:228-234 | Decoding inverts the encoding if and only if the address is below 64; cell 64 is sent as cell 0. Also models `DataStreamParser.java` lines 577-590. |
| `ScreenView.DroppedBitsLost` | src/main/java/org/me/ibm/Screen.java:231 | The bit shuffle is the identity if and only if the address is below 64. |
| `ScreenView.AidReply` | src/main/java/org/me/ibm/Screen.java:207-226 | The AID byte, the encoded cursor, then the fields, ending with IAC SE. |
| `ScreenView.FieldDataWithoutSpaces` | src/main/java/org/me/ibm/Screen.java:254-261 | A field without a space sends every data cell up to the next field start, in order, one byte per character. |
| `ScreenView.BlankFieldSendsOneSpace` | src/main/java/org/me/ibm/Screen.java:254-261 | A field of spaces sends one space, for its first data cell. |
| `ScreenView.NoModifiedFields` | src/main/java/org/me/ibm/Screen.java:236-247 | Without a modified field, no field data is sent. |
| `ScreenView.OneModifiedField` | src/main/java/org/me/ibm/Screen.java:236-247 | With one modified field, only that field is sent. |
| `ScreenView.ClearKeyReply` | src/main/java/org/me/ibm/Screen.java:167-170 | After `clear` the Clear key sends exactly AID-CLEAR, 0x40 0x40, IAC SE. |
| `TerminalScreen.KeysDistinguishable` | src/main/java/org/me/ibm/Screen.java:115-182 | The AIDs of different keys differ, and no key sends the Clear AID. Also models `TelnetConstants.java` lines 72-88. |
| `TerminalScreen.Screen.constructor` | src/main/java/org/me/ibm/Screen.java:11-15 | The screen is valid over its buffer, not in insert mode, with nothing sent. |
| `TerminalScreen.Screen.GetString` | src/main/java/org/me/ibm/Screen.java:17-19 | The rows of the screen, separated by newlines. |
| `TerminalScreen.Screen.GetStringSeparated` | src/main/java/org/me/ibm/Screen.java:21-30 | The 24 row texts, joined by the separator. |
| `TerminalScreen.Screen.GetRow` | src/main/java/org/me/ibm/Screen.java:32-43 | Agrees with `ScreenView.RowText`. |
| `TerminalScreen.Screen.GetWindow` | src/main/java/org/me/ibm/Screen.java:45-55 | Agrees with `ScreenView.Window`. |
| `TerminalScreen.Screen.GetCells` | src/main/java/org/me/ibm/Screen.java:57-64 | Agrees with `ScreenView.CellText`. |
| `TerminalScreen.Screen.PutStringAtCursor` | src/main/java/org/me/ibm/Screen.java:66-68 | The new state is `ScreenView.PutString` at the cursor. |
| `TerminalScreen.Screen.PutString` | src/main/java/org/me/ibm/Screen.java:70-92 | The new state is `ScreenView.PutString`. |
| `TerminalScreen.Screen.TypeText` | src/main/java/org/me/ibm/Screen.java:75-91 | The new state is `ScreenView.TypeFrom` from the first character. |
| `TerminalScreen.Screen.TypeNext` | src/main/java/org/me/ibm/Screen.java:76-88 | One pass of the loop leaves the rest of the loop with the same result. |
| `TerminalScreen.Screen.TypeCharacter` | src/main/java/org/me/ibm/Screen.java:77-86 | The new state is `ScreenView.TypeOne`. |
| `TerminalScreen.Screen.ShiftCharactersRight` | src/main/java/org/me/ibm/Screen.java:94-104 | The new state is `ScreenView.Shift`. |
| `TerminalScreen.Screen.ShiftNext` | src/main/java/org/me/ibm/Screen.java:99-103 | One pass of the loop leaves the rest of the loop with the same result. |
| `TerminalScreen.Screen.ShiftCell` | src/main/java/org/me/ibm/Screen.java:100-102 | The new state is `ScreenView.ShiftOne`. |
| `TerminalScreen.Screen.FindFieldEnd` | src/main/java/org/me/ibm/Screen.java:106-113 | Agrees with `FieldScan.FindFieldEnd`. |
| `TerminalScreen.Screen.Insert` | src/main/java/org/me/ibm/Screen.java:184-186 | Toggles insert mode, and nothing is sent. |
| `TerminalScreen.Screen.Tab` | src/main/java/org/me/ibm/Screen.java:192-196 | The new state is `ScreenView.Tab`. |
| `TerminalScreen.Screen.Home` | src/main/java/org/me/ibm/Screen.java:198-205 | The new state is `ScreenView.Home`. |
| `TerminalScreen.Screen.Press` | src/main/java/org/me/ibm/Screen.java:115-165 | Appends the key's AID reply when there is an output stream, and nothing otherwise. Also models `Screen.java` lines 172-182. |
| `TerminalScreen.Screen.Clear` | src/main/java/org/me/ibm/Screen.java:167-170 | The buffer is cleared, then the Clear AID reply is appended when there is an output stream. |
| `TerminalScreen.Screen.SendAid` | src/main/java/org/me/ibm/Screen.java:207-226 | Appends `ScreenView.AidReply`, or nothing without an output stream. |
| `TerminalScreen.Screen.SendModifiedFields` | src/main/java/org/me/ibm/Screen.java:236-247 | Appends the modified fields in ascending order. |
| `TerminalScreen.Screen.SendIfModified` | src/main/java/org/me/ibm/Screen.java:238-246 | Appends one field start's bytes exactly when its attribute byte carries the MDT bit. |
| `TerminalScreen.Screen.SendField` | src/main/java/org/me/ibm/Screen.java:249-262 | Appends the field's address, then its data up to the next field start. |
| `TerminalScreen.Screen.SendFieldCell` | src/main/java/org/me/ibm/Screen.java:256-260 | One cell: its byte, unless it is a space past the first data cell. |

## Left out

- Concurrency: the buffer's lock, the condition variables behind `awaitEor` and `awaitTn3270`, and the threads that wait on them. Every `acquireLock` is taken to succeed, so `signalEor` is modelled as its decision and the `ack` counter.
- The `running` and `stop` flags and `isRunning` of both parsers: the model processes a given input to its end.
- Timeouts: the 5-second negotiation timeout, the 100 × 10 ms wait for the first data, and the waits with a deadline.
- Screen-update listeners: `addScreenUpdateListener`, `removeScreenUpdateListener` and `notifyScreenUpdate` are modelled as a counter of notifications.
- `flush()` and `IOException`: output is an appended byte sequence. An end of stream in the strict parser or the negotiator is an error result.
- The EBCDIC/ASCII tables of `Tn3270Conversions.java` are not part of this model: they are the `Codec` parameter, with no property assumed.
- The branch at `TelnetOptionsNegotiator.java:100-106` is unreachable. A byte that starts a command is always consumed by `processOngoingTelnetByte` first, so the model has no separate case for it.
- `processStructuredField` (`DataStreamParser.java:542-554`) is never called by the parser, so it is not modelled.
- `Buffer.string()`, `string(separator)` and `string(x, y, length)` are not modelled. `Screen.java` rebuilds its texts from `getCharacter`, and `ScreenView` models that version. `string(row)` is modelled, by `ScreenModel.RowString`.
- `ScreenBuffer.Buffer.FindFieldStart`, `ScreenBuffer.Buffer.GetAttributeAt`, `ScreenBuffer.Buffer.FindNextField`, `ScreenBuffer.Buffer.FindNextUnprotectedField`, `ScreenBuffer.Buffer.FindPreviousUnprotectedField` and `FieldScan.FindFieldStart` require a start position from -1 to 1919. Java also accepts other `int` values: below -1, `findFieldStart` scans as for -1 and `findNextField` indexes a negative cell; at 1920 or more, `findFieldStart` indexes off the array, and the forward searches do too when no qualifying start lies below 1920. Each such case ends in `ArrayIndexOutOfBoundsException` or repeats the -1 case. Every caller in the parsers and `Screen.java` passes an on-screen cell or -1.
- `ScreenModel.SetFieldStart`, `ScreenModel.SetEbcdicCharacter`, `ScreenModel.IncOrderCount` and `ScreenModel.SignalEor`: the counters `fieldCount`, `ebcdicCount`, `orderCount` and `ack` are unbounded integers. Java's `int` counters wrap after 2^31 increments without a `clear()`, and a wrapped `fieldCount` would turn `hasFields()` false. The 32-bit wrap is modelled only for the address of `new BufferPosition(row, col)` (`BufferPositions.Wrap32`).
- `ScreenView.PutString`, `ScreenView.TypeFrom`, `TerminalScreen.Screen.PutString`, `TerminalScreen.Screen.TypeText`, `ScreenView.ByteOf` and `ScreenView.FieldData` work on Dafny characters, which are Unicode scalar values. A Java `String` is a sequence of UTF-16 code units. A character outside the Basic Multilingual Plane is two Java `char`s, so Java writes it into two cells and moves the cursor twice, where the model uses one cell and one step. A lone surrogate code unit has no Dafny `char`, so text holding one cannot be given to the model. For text made only of Basic Multilingual Plane characters the two agree.
- The `color` and `highlighting` fields of `FieldAttribute` and their getters and setters: both constructors fix them at DEFAULT and NORMAL and no code sets them, so `FieldAttributes.FieldAttribute` leaves them out.
- The `null` text check of `putString`: a Dafny sequence is never null.
- Trivial getters are not given rows of their own: `isInsertMode`, `getBuffer`, `getWidth`, `getHeight`, `getBufferSize`, `getCursorPosition`, `isBinaryMode`, `isEndOfRecord` and `wcc()`. They read a field the model exposes directly.
- `getDebugInfo` and `copyFrom` of `Buffer.java` are not modelled (diagnostics and a plain copy).
- `Tn3270.java`, `SimpleTerminalUI.java` and `Tn3270Example.java` (socket set-up, UI and the example program) are not part of this model.
- `String.getBytes()` on the terminal type is not modelled: the terminal type is held as its bytes.
- `Screen.java` calls `buffer.getCharacter`, `buffer.setCharacter` and a byte-valued `buffer.getAttribute`, which `Buffer.java` does not declare. The model reads them as `getAsciiCharacter`, `setAsciiCharacter` and `getAttribute(i).toAttributeByte()`.
- TelnetProtocol.Negotiated: each read of `processOptionNegotiations` is modelled as a given chunk of bytes. How the bytes split into reads, and when they arrive, is a parameter.
- Debug output (the commented-out and `debug`-guarded prints) is not modelled.

## Findings

| source | as written | input that shows it | evidently intended | confidence | as-written member | corrected member |
|---|---|---|---|---|---|---|
| src/main/java/org/me/ibm/DataStreamParser.java:482-485 | The RA loop runs while the position differs from the target and is below 1920, and wraps the position modulo 1920. A target of 1920 or more is never reached, so the loop never exits. | An RA order with address bytes 0x7F 0x7F, which decode to 4095. | An address off screen leaves the screen unchanged and the order is consumed. | not executed | `Orders.RepeatToAddressAsWrittenNeverExits` | `Orders.RepeatToAddress` |
| src/main/java/org/me/ibm/DataStreamParser2.java:478-481 | The strict parser's RA has the same loop, so it does not exit for a target of 1920 or more either. | An RA order with address bytes 0x7F 0x7F. | As above. | not executed | `Orders.RepeatToAddressAsWrittenNeverExits` | `Orders.RepeatToAddress` |
