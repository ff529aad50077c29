/**
 * The strict decoder of `DataStreamParser2.java` as functions over the
 * stream's bytes `input`, read from position `pos` on.  Reading past the end
 * of the stream is an error, and so is an unexpected byte where IAC EOR must
 * follow a Read command; an error ends the parse.  Every result records the
 * new screen, the position after the last byte read, and whether the step
 * succeeded.
 */
module StrictDecoder {
  import opened Tn3270Constants
  import opened ScreenModel
  import O = Orders
  import L = LenientDecoder

  /** A step's result: the new screen, the position after the bytes read, and success. */
  datatype Outcome = Outcome(screen: ScreenState, pos: int, ok: bool)

  /** A handler's precondition: a well-formed screen and `index` at a byte of the stream. */
  predicate At(s: ScreenState, input: seq<bv8>, index: int) {
    s.WellFormed() && 0 <= index < |input|
  }

  /** The screen stays well formed and reading moves forward within the stream. */
  predicate Read(r: Outcome, index: int, input: seq<bv8>) {
    r.screen.WellFormed() && index < r.pos <= |input|
  }

  /** `readByte` at the end of the stream: the error that ends the parse. */
  function EndOfStream(s: ScreenState, input: seq<bv8>): (r: Outcome) {
    Outcome(s, |input|, false)
  }

  /** `processStartField`: the order byte at `index`, the attribute after it. */
  function StartField(s: ScreenState, codec: Codec, input: seq<bv8>, index: int): (r: Outcome)
    requires At(s, input, index)
    ensures Read(r, index, input) && r.screen.orderCount == s.orderCount
    ensures !r.ok <==> index + 1 >= |input|
    ensures !r.ok ==> r.screen == s
    ensures r.ok ==> r.pos == index + 2 && r.screen == O.StartField(s, codec, input[index + 1])
  {
    if index + 1 >= |input| then EndOfStream(s, input)
    else Outcome(O.StartField(s, codec, input[index + 1]), index + 2, true)
  }

  /** How many pairs a count byte asks for: none when it reads as a negative Java byte. */
  function Wanted(count: bv8): (k: int)
    ensures k >= 0 && (count < 0x80 ==> k == count as int) && (count >= 0x80 ==> k == 0)
  {
    if Signed(count) < 0 then 0 else Signed(count)
  }

  /** How many whole type/value pairs the stream still holds from `pos`. */
  function CompletePairs(input: seq<bv8>, pos: int): (k: int)
    requires 0 <= pos <= |input|
    ensures 0 <= k && pos + 2 * k <= |input| < pos + 2 * k + 2
  {
    (|input| - pos) / 2
  }

  /**
   * `processStartFieldExtended`: the count byte, then that many type/value
   * pairs.  When the stream ends inside the pairs, the field start and the
   * complete pairs read so far stay applied, the cell is not blanked and the
   * cursor does not move.
   */
  function StartFieldExtended(s: ScreenState, codec: Codec, input: seq<bv8>, index: int): (r: Outcome)
    requires At(s, input, index)
    ensures Read(r, index, input) && r.screen.orderCount == s.orderCount
    ensures index + 1 < |input| ==>
      (r.ok <==> index + 2 + 2 * Wanted(input[index + 1]) <= |input|)
    ensures r.ok ==>
      index + 1 < |input| && r.pos == index + 2 + 2 * Wanted(input[index + 1])
      && r.screen == O.StartFieldExtended(s, codec, O.Pairs(input, index + 2, Wanted(input[index + 1])))
    ensures index + 1 >= |input| ==> r == EndOfStream(s, input)
  {
    if index + 1 >= |input| then EndOfStream(s, input)
    else
      var k := Wanted(input[index + 1]);
      if index + 2 + 2 * k <= |input| then
        Outcome(O.StartFieldExtended(s, codec, O.Pairs(input, index + 2, k)), index + 2 + 2 * k, true)
      else
        var complete := CompletePairs(input, index + 2);
        EndOfStream(O.ApplyPairs(O.BeginField(s), s.cursor, O.Pairs(input, index + 2, complete)), input)
  }

  /** `processSetBufferAddress`: two address bytes. */
  function SetBufferAddress(s: ScreenState, input: seq<bv8>, index: int): (r: Outcome)
    requires At(s, input, index)
    ensures Read(r, index, input) && r.screen == s.(cursor := r.screen.cursor)
    ensures !r.ok <==> index + 2 >= |input|
    ensures !r.ok ==> r.screen == s
    ensures r.ok ==>
      r.pos == index + 3
      && r.screen.cursor == (var a := O.DecodeAddress(input[index + 1], input[index + 2]);
                             if a < BUFFER_SIZE then a else s.cursor)
  {
    if index + 2 >= |input| then EndOfStream(s, input)
    else Outcome(O.SetBufferAddress(s, O.DecodeAddress(input[index + 1], input[index + 2])), index + 3, true)
  }

  /** `processSetAttribute`: a type byte and a value byte. */
  function SetAttributeOrder(s: ScreenState, input: seq<bv8>, index: int): (r: Outcome)
    requires At(s, input, index)
    ensures Read(r, index, input) && r.screen.orderCount == s.orderCount
    ensures !r.ok <==> index + 2 >= |input|
    ensures !r.ok ==> r.screen == s
    ensures r.ok ==> r.pos == index + 3
    ensures r.ok && input[index + 1] == BASIC_ATTRIBUTE ==> Attr(r.screen, s.cursor) == FieldAttributes.Parse(input[index + 2])
    ensures r.ok && input[index + 1] != BASIC_ATTRIBUTE ==> r.screen == s
  {
    if index + 2 >= |input| then EndOfStream(s, input)
    else Outcome(O.SetAttributeOrder(s, input[index + 1], input[index + 2]), index + 3, true)
  }

  /** `processModifyField`: the count byte and pairs, applied at the cursor; complete pairs stay applied on error. */
  function ModifyField(s: ScreenState, input: seq<bv8>, index: int): (r: Outcome)
    requires At(s, input, index)
    ensures Read(r, index, input) && r.screen == s.(attrRef := r.screen.attrRef, attrs := r.screen.attrs)
    ensures index + 1 < |input| ==>
      (r.ok <==> index + 2 + 2 * Wanted(input[index + 1]) <= |input|)
    ensures r.ok ==>
      index + 1 < |input| && r.pos == index + 2 + 2 * Wanted(input[index + 1])
      && r.screen == O.ModifyField(s, O.Pairs(input, index + 2, Wanted(input[index + 1])))
    ensures index + 1 >= |input| ==> r == EndOfStream(s, input)
  {
    if index + 1 >= |input| then EndOfStream(s, input)
    else
      var k := Wanted(input[index + 1]);
      if index + 2 + 2 * k <= |input| then
        Outcome(O.ModifyField(s, O.Pairs(input, index + 2, k)), index + 2 + 2 * k, true)
      else
        var complete := CompletePairs(input, index + 2);
        EndOfStream(O.ModifyField(s, O.Pairs(input, index + 2, complete)), input)
  }

  /** `processRepeatToAddress`: two address bytes and the fill byte. */
  function RepeatToAddress(s: ScreenState, codec: Codec, input: seq<bv8>, index: int): (r: Outcome)
    requires At(s, input, index)
    ensures Read(r, index, input) && r.screen.orderCount == s.orderCount
    ensures !r.ok <==> index + 3 >= |input|
    ensures !r.ok ==> r.screen == s
    ensures r.ok ==>
      r.pos == index + 4
      && r.screen == O.RepeatToAddress(s, codec, O.DecodeAddress(input[index + 1], input[index + 2]), input[index + 3])
  {
    if index + 3 >= |input| then EndOfStream(s, input)
    else Outcome(O.RepeatToAddress(s, codec, O.DecodeAddress(input[index + 1], input[index + 2]), input[index + 3]), index + 4, true)
  }

  /** `processEraseUntilAddress`: two address bytes. */
  function EraseUntilAddress(s: ScreenState, codec: Codec, input: seq<bv8>, index: int): (r: Outcome)
    requires At(s, input, index)
    ensures Read(r, index, input) && r.screen.orderCount == s.orderCount && r.screen.cursor == s.cursor
    ensures !r.ok <==> index + 2 >= |input|
    ensures !r.ok ==> r.screen == s
    ensures r.ok ==>
      r.pos == index + 3
      && r.screen == O.EraseUntilAddress(s, codec, O.DecodeAddress(input[index + 1], input[index + 2]))
  {
    if index + 2 >= |input| then EndOfStream(s, input)
    else Outcome(O.EraseUntilAddress(s, codec, O.DecodeAddress(input[index + 1], input[index + 2])), index + 3, true)
  }

  /** `processGraphicsEscape`: the escaped byte is written as data. */
  function GraphicsEscape(s: ScreenState, codec: Codec, input: seq<bv8>, index: int): (r: Outcome)
    requires At(s, input, index)
    ensures Read(r, index, input) && r.screen.orderCount == s.orderCount
    ensures !r.ok <==> index + 1 >= |input|
    ensures !r.ok ==> r.screen == s
    ensures r.ok ==> r.pos == index + 2 && r.screen == O.WriteCharacter(s, codec, input[index + 1])
  {
    if index + 1 >= |input| then EndOfStream(s, input)
    else Outcome(O.WriteCharacter(s, codec, input[index + 1]), index + 2, true)
  }

  /**
   * One pass of `processWrite`'s switch at a byte other than IAC: an order
   * is counted and handled; any other byte is data (`processDataByte`).
   */
  function WriteStep(s: ScreenState, codec: Codec, input: seq<bv8>, index: int): (r: Outcome)
    requires At(s, input, index)
    ensures Read(r, index, input)
    ensures r.screen.orderCount == s.orderCount + (if O.IsOrder(input[index]) then 1 else 0)
    ensures !O.IsOrder(input[index]) ==> r == Outcome(O.WriteCharacter(s, codec, input[index]), index + 1, true)
  {
    if O.IsOrder(input[index]) then Order(IncOrderCount(s), codec, input, index)
    else Outcome(O.WriteCharacter(s, codec, input[index]), index + 1, true)
  }

  /** The handler of the order at `index`, once the order is counted. */
  function Order(s: ScreenState, codec: Codec, input: seq<bv8>, index: int): (r: Outcome)
    requires At(s, input, index) && O.IsOrder(input[index])
    ensures Read(r, index, input) && r.screen.orderCount == s.orderCount
  {
    var b := input[index];
    if b == SF then StartField(s, codec, input, index)
    else if b == SFE then StartFieldExtended(s, codec, input, index)
    else if b == SBA then SetBufferAddress(s, input, index)
    else if b == SA then SetAttributeOrder(s, input, index)
    else if b == MF then ModifyField(s, input, index)
    else if b == IC then Outcome(s, index + 1, true)
    else if b == PT then Outcome(O.ProgramTab(s), index + 1, true)
    else if b == RA then RepeatToAddress(s, codec, input, index)
    else if b == EUA then EraseUntilAddress(s, codec, input, index)
    else GraphicsEscape(s, codec, input, index)
  }


  /** The two bytes before `p` are IAC EOR. */
  predicate EndsRecord(input: seq<bv8>, p: int) {
    2 <= p <= |input| && input[p - 2] == IAC && input[p - 1] == EOR
  }

  /**
   * `processWrite`'s loop: orders and data until IAC EOR.  IAC followed by
   * any other byte writes one 0xFF data byte and drops the second byte; the
   * end of the stream before IAC EOR is an error.
   */
  function WriteOrders(s: ScreenState, codec: Codec, input: seq<bv8>, pos: int): (r: Outcome)
    requires s.WellFormed() && 0 <= pos <= |input|
    ensures r.screen.WellFormed() && pos <= r.pos <= |input|
    ensures r.ok ==> pos + 2 <= r.pos && EndsRecord(input, r.pos)
    decreases |input| - pos
  {
    hide O.WriteCharacter, WriteStep;
    if pos >= |input| then EndOfStream(s, input)
    else if input[pos] == IAC then
      if pos + 1 >= |input| then EndOfStream(s, input)
      else if input[pos + 1] == EOR then Outcome(s, pos + 2, true)
      else WriteOrders(O.WriteCharacter(s, codec, IAC), codec, input, pos + 2)
    else
      var t := WriteStep(s, codec, input, pos);
      if !t.ok then t else WriteOrders(t.screen, codec, input, t.pos)
  }

  /** `processWrite`: the WCC byte (`processWriteControlCharacter`), then the orders. */
  function ProcessWrite(s: ScreenState, codec: Codec, command: bv8, input: seq<bv8>, pos: int): (r: Outcome)
    requires s.WellFormed() && 0 <= pos <= |input|
    ensures r.screen.WellFormed() && pos <= r.pos <= |input|
    ensures r.ok ==> pos + 3 <= r.pos
    ensures pos >= |input| ==> r == EndOfStream(s, input)
  {
    if pos >= |input| then EndOfStream(s, input)
    else WriteOrders(O.ApplyWcc(s, codec, command, input[pos]), codec, input, pos + 1)
  }

  /** `expectIacEor`: exactly IAC EOR must follow; the screen is not touched. */
  function ExpectIacEor(s: ScreenState, input: seq<bv8>, pos: int): (r: Outcome)
    requires 0 <= pos <= |input|
    ensures r.screen == s && pos <= r.pos <= |input|
    ensures r.ok <==> pos + 2 <= |input| && input[pos] == IAC && input[pos + 1] == EOR
    ensures r.ok ==> r.pos == pos + 2
  {
    if pos >= |input| then EndOfStream(s, input)
    else if input[pos] != IAC then Outcome(s, pos + 1, false)
    else if pos + 1 >= |input| then EndOfStream(s, input)
    else if input[pos + 1] != EOR then Outcome(s, pos + 2, false)
    else Outcome(s, pos + 2, true)
  }

  /**
   * The body of `processCommand`, before the `finally`: a Write restores the
   * background afterwards, when it completed and the WCC stored carries bit
   * 0x04; a Read only records the command; any other command is an error.
   */
  function CommandBody(s: ScreenState, codec: Codec, command: bv8, input: seq<bv8>, pos: int): (r: Outcome)
    requires s.WellFormed() && 0 <= pos <= |input|
    ensures r.screen.WellFormed() && pos <= r.pos <= |input|
    ensures r.ok ==> pos < r.pos
  {
    var commanded := SetCommand(s, command);
    if command == WRITE then
      var w := ProcessWrite(commanded, codec, command, input, pos);
      if w.ok && w.screen.wcc.Some? && w.screen.wcc.value & WCC_START_PRINTER != 0
      then w.(screen := RestoreDataFromBackground(w.screen))
      else w
    else if command == ERASE_WRITE || command == ERASE_WRITE_ALTERNATE then
      ProcessWrite(commanded, codec, command, input, pos)
    else if L.IsRead(command) then ExpectIacEor(commanded, input, pos)
    else Outcome(commanded, pos, false)
  }

  /** `processCommand`: the body, then `signalEor` in the `finally`, whether or not the body failed. */
  function ProcessCommand(s: ScreenState, codec: Codec, command: bv8, input: seq<bv8>, pos: int): (r: Outcome)
    requires s.WellFormed() && 0 <= pos <= |input|
    ensures r.screen.WellFormed() && pos <= r.pos <= |input|
    ensures r.ok ==> pos < r.pos
  {
    var body := CommandBody(s, codec, command, input, pos);
    body.(screen := SignalEor(body.screen).0)
  }

  /**
   * `parse`'s loop from a command already accepted: process it; at the end
   * of the stream stop; otherwise the next byte, normalised, must be a
   * valid command.
   */
  function Commands(s: ScreenState, codec: Codec, command: bv8, input: seq<bv8>, pos: int): (r: Outcome)
    requires s.WellFormed() && 0 <= pos <= |input|
    ensures r.screen.WellFormed() && pos <= r.pos <= |input|
    ensures r.ok ==> r.pos == |input|
    decreases |input| - pos
  {
    var c := ProcessCommand(s, codec, command, input, pos);
    if !c.ok || c.pos >= |input| then c
    else
      var next := O.NormalizeCommand(input[c.pos]);
      if !O.IsValidCommand(next) then Outcome(c.screen, c.pos + 1, false)
      else Commands(c.screen, codec, next, input, c.pos + 1)
  }

  /** One pass of the command loop, once the command `c` has been processed. */
  lemma CommandsStep(s: ScreenState, codec: Codec, command: bv8, input: seq<bv8>, pos: int, c: Outcome)
    requires s.WellFormed() && 0 <= pos <= |input| && c == ProcessCommand(s, codec, command, input, pos)
    ensures !c.ok || c.pos >= |input| ==> Commands(s, codec, command, input, pos) == c
    ensures c.ok && c.pos < |input| ==>
      var following := O.NormalizeCommand(input[c.pos]);
      Commands(s, codec, command, input, pos)
      == if O.IsValidCommand(following) then Commands(c.screen, codec, following, input, c.pos + 1)
         else Outcome(c.screen, c.pos + 1, false)
  {
    hide ProcessCommand;
  }

  /** `parse(firstByte)`: the first command comes as an argument, the rest from `input` at `pos`. */
  function Parse(s: ScreenState, codec: Codec, firstByte: int, input: seq<bv8>, pos: int): (r: Outcome)
    requires s.WellFormed() && 0 <= pos <= |input|
    ensures r.screen.WellFormed() && pos <= r.pos <= |input|
  {
    var command := O.NormalizeCommand((firstByte % 256) as bv8);
    if !O.IsValidCommand(command) then Outcome(s, pos, false)
    else Commands(s, codec, command, input, pos)
  }

  /** `parse()`: the first command byte is read from the stream; an empty stream is an error. */
  function ParseStream(s: ScreenState, codec: Codec, input: seq<bv8>, pos: int): (r: Outcome)
    requires s.WellFormed() && 0 <= pos <= |input|
    ensures r.screen.WellFormed() && pos <= r.pos <= |input|
    ensures pos >= |input| ==> r == Outcome(s, pos, false)
  {
    if pos >= |input| then Outcome(s, pos, false)
    else Parse(s, codec, input[pos] as int, input, pos + 1)
  }

  /**
   * A first byte that does not normalise to one of the six commands is
   * rejected before anything is read or changed.
   */
  lemma InvalidFirstCommandChangesNothing(s: ScreenState, codec: Codec, firstByte: int, input: seq<bv8>, pos: int)
    requires s.WellFormed() && 0 <= pos <= |input|
    requires (firstByte % 256) as bv8 !in {0x01, 0x02, 0x05, 0x06, 0x7E, 0x8E, 0xF1, 0xF2, 0xF5, 0xF6}
    ensures Parse(s, codec, firstByte, input, pos) == Outcome(s, pos, false)
  {
    O.AcceptedCommandBytes((firstByte % 256) as bv8);
  }

  /**
   * A Read command leaves the screen alone apart from recording the command
   * and the end-of-record signal, and it succeeds exactly when IAC EOR
   * follows.
   */
  lemma ReadOnlyRecordsCommand(s: ScreenState, codec: Codec, command: bv8, input: seq<bv8>, pos: int)
    requires s.WellFormed() && 0 <= pos <= |input| && L.IsRead(command)
    ensures var r := ProcessCommand(s, codec, command, input, pos);
      r.screen == SignalEor(SetCommand(s, command)).0
      && (r.ok <==> pos + 2 <= |input| && input[pos..pos + 2] == [IAC, EOR])
  {
    var r := ProcessCommand(s, codec, command, input, pos);
    if r.ok {
      assert input[pos..pos + 2] == [input[pos], input[pos + 1]];
    }
  }

  /**
   * `signalEor` runs once per command, after the body, whether the body
   * succeeded or not: the screen the body left is signalled (or its `ack`
   * counted up) and nothing else changes.
   */
  lemma SignalledOncePerCommand(s: ScreenState, codec: Codec, command: bv8, input: seq<bv8>, pos: int)
    requires s.WellFormed() && 0 <= pos <= |input|
    ensures var b := CommandBody(s, codec, command, input, pos);
      var r := ProcessCommand(s, codec, command, input, pos);
      r.pos == b.pos && r.ok == b.ok
      && (Signals(b.screen) ==> r.screen == b.screen)
      && (!Signals(b.screen) ==> r.screen == b.screen.(ack := b.screen.ack + 1))
  {
  }

  /** Bytes a Write shows as they are: neither IAC nor an order code. */
  predicate PlainData(body: seq<bv8>) {
    forall j :: 0 <= j < |body| ==> body[j] != IAC && !O.IsOrder(body[j])
  }

  /** One data byte in the strict write loop. */
  lemma StrictDataByte(s: ScreenState, codec: Codec, input: seq<bv8>, pos: int)
    requires s.WellFormed() && 0 <= pos < |input| && input[pos] != IAC && !O.IsOrder(input[pos])
    ensures WriteOrders(s, codec, input, pos) == WriteOrders(O.WriteCharacter(s, codec, input[pos]), codec, input, pos + 1)
  {
    hide O.WriteCharacter, Order;
    assert WriteStep(s, codec, input, pos) == Outcome(O.WriteCharacter(s, codec, input[pos]), pos + 1, true);
  }

  /** IAC EOR ends the strict write loop. */
  lemma StrictEndOfRecord(s: ScreenState, codec: Codec, input: seq<bv8>, pos: int)
    requires s.WellFormed() && 0 <= pos && pos + 2 <= |input| && input[pos] == IAC && input[pos + 1] == EOR
    ensures WriteOrders(s, codec, input, pos) == Outcome(s, pos + 2, true)
  {
  }

  /** The strict write loop at the end of the stream: the end-of-stream error. */
  lemma StrictWriteAtEnd(s: ScreenState, codec: Codec, input: seq<bv8>, pos: int)
    requires s.WellFormed() && 0 <= pos <= |input|
    requires pos == |input| || (pos + 1 == |input| && input[pos] == IAC)
    ensures WriteOrders(s, codec, input, pos) == EndOfStream(s, input)
  {
  }

  /**
   * An IAC that EOR does not follow is one 0xFF data byte, and the byte
   * after it is dropped.
   */
  lemma EscapedIacIsData(s: ScreenState, codec: Codec, input: seq<bv8>, pos: int)
    requires s.WellFormed() && 0 <= pos && pos + 1 < |input| && input[pos] == IAC && input[pos + 1] != EOR
    ensures WriteOrders(s, codec, input, pos) == WriteOrders(O.WriteCharacter(s, codec, IAC), codec, input, pos + 2)
    ensures O.WriteCharacter(s, codec, IAC).ebcdic[s.cursor] == 0xFF
  {
  }

  /** Any other byte is one pass of the switch; the loop goes on while the passes succeed. */
  lemma StrictWriteStep(s: ScreenState, codec: Codec, input: seq<bv8>, pos: int)
    requires s.WellFormed() && 0 <= pos < |input| && input[pos] != IAC
    ensures var t := WriteStep(s, codec, input, pos);
      WriteOrders(s, codec, input, pos) == if !t.ok then t else WriteOrders(t.screen, codec, input, t.pos)
  {
  }

  /** One data byte in the lenient write loop. */
  lemma LenientDataByte(s: ScreenState, codec: Codec, d: seq<bv8>, index: int, length: int)
    requires s.WellFormed() && 0 <= index < length <= |d| && d[index] != IAC && !O.IsOrder(d[index])
    ensures L.WriteOrders(s, codec, d, index, length) == L.WriteOrders(O.WriteCharacter(s, codec, d[index]), codec, d, index + 1, length)
  {
    assert L.WriteStep(s, codec, d, index, length) == L.Step(O.WriteCharacter(s, codec, d[index]), index + 1);
  }

  /** Plain data stays plain without its first byte. */
  lemma PlainDataTail(body: seq<bv8>)
    requires PlainData(body) && |body| > 0
    ensures PlainData(body[1..]) && body[0] != IAC && !O.IsOrder(body[0])
  {
    var rest := body[1..];
    forall j | 0 <= j < |rest|
      ensures rest[j] != IAC && !O.IsOrder(rest[j])
    {
      assert rest[j] == body[j + 1];
    }
  }

  /** A run of data bytes written one after the other at the cursor. */
  function WriteCharacters(s: ScreenState, codec: Codec, bytes: seq<bv8>): (r: ScreenState)
    requires s.WellFormed()
    ensures r.WellFormed()
    decreases |bytes|
  {
    if |bytes| == 0 then s else WriteCharacters(O.WriteCharacter(s, codec, bytes[0]), codec, bytes[1..])
  }

  /** The strict write loop writes plain data as it is and stops after the IAC EOR that follows. */
  lemma {:induction false} StrictPlainRun(s: ScreenState, codec: Codec, input: seq<bv8>, pos: int, n: int)
    requires s.WellFormed() && 0 <= pos && 0 <= n && pos + n + 2 <= |input|
    requires PlainData(input[pos..pos + n]) && input[pos + n] == IAC && input[pos + n + 1] == EOR
    ensures WriteOrders(s, codec, input, pos) == Outcome(WriteCharacters(s, codec, input[pos..pos + n]), pos + n + 2, true)
    decreases n
  {
    hide O.WriteCharacter, WriteStep;
    if n > 0 {
      var run := input[pos..pos + n];
      PlainDataTail(run);
      assert run[0] == input[pos];
      assert run[1..] == input[pos + 1..pos + 1 + (n - 1)];
      var t := O.WriteCharacter(s, codec, input[pos]);
      StrictDataByte(s, codec, input, pos);
      StrictPlainRun(t, codec, input, pos + 1, n - 1);
      assert WriteCharacters(s, codec, run) == WriteCharacters(t, codec, run[1..]);
    } else {
      StrictEndOfRecord(s, codec, input, pos);
    }
  }

  /** The lenient write loop writes plain data as it is, up to the end of the record. */
  lemma {:induction false} LenientPlainRun(s: ScreenState, codec: Codec, d: seq<bv8>, index: int, length: int)
    requires s.WellFormed() && 0 <= index <= length <= |d| && PlainData(d[index..length])
    ensures L.WriteOrders(s, codec, d, index, length) == L.Step(WriteCharacters(s, codec, d[index..length]), length)
    decreases length - index
  {
    hide O.WriteCharacter, L.WriteStep;
    if index < length {
      var run := d[index..length];
      PlainDataTail(run);
      assert run[0] == d[index];
      assert run[1..] == d[index + 1..length];
      var t := O.WriteCharacter(s, codec, d[index]);
      LenientDataByte(s, codec, d, index, length);
      LenientPlainRun(t, codec, d, index + 1, length);
      assert WriteCharacters(s, codec, run) == WriteCharacters(t, codec, run[1..]);
    }
  }

  /**
   * On plain data followed by IAC EOR, the strict write loop and the lenient
   * one (over the same bytes, wherever they sit in its record) leave the same
   * screen; the strict one ends just after the EOR.
   */
  lemma WriteOrdersAgreeOnPlainData(
    s: ScreenState, codec: Codec, input: seq<bv8>, p1: int, d: seq<bv8>, p2: int, n: int)
    requires s.WellFormed() && 0 <= p1 && 0 <= p2 && 0 <= n
    requires p1 + n + 2 <= |input| && p2 + n <= |d|
    requires input[p1 + n] == IAC && input[p1 + n + 1] == EOR
    requires input[p1..p1 + n] == d[p2..p2 + n] && PlainData(d[p2..p2 + n])
    ensures WriteOrders(s, codec, input, p1) == Outcome(L.WriteOrders(s, codec, d, p2, p2 + n).screen, p1 + n + 2, true)
  {
    hide WriteOrders, L.WriteOrders, WriteCharacters, O.WriteCharacter;
    StrictPlainRun(s, codec, input, p1, n);
    LenientPlainRun(s, codec, d, p2, p2 + n);
  }

  /** The Write commands, after normalisation. */
  predicate IsWrite(command: bv8) {
    command == WRITE || command == ERASE_WRITE || command == ERASE_WRITE_ALTERNATE
  }

  /**
   * The screen a Write record of plain data leaves before the end of record
   * is signalled: the command and the WCC applied, the data written from
   * the cursor, then the background restored for a Write whose WCC carries
   * bit 0x04.
   */
  function PlainWrite(s: ScreenState, codec: Codec, command: bv8, wcc: bv8, body: seq<bv8>): (r: ScreenState)
    requires s.WellFormed()
    ensures r.WellFormed()
  {
    var written := WriteCharacters(O.ApplyWcc(SetCommand(s, command), codec, command, wcc), codec, body);
    if command == WRITE && written.wcc.Some? && written.wcc.value & WCC_START_PRINTER != 0
    then RestoreDataFromBackground(written)
    else written
  }

  /** The strict parse of a plain Write record: it succeeds, reads it all, and signals the screen `PlainWrite` gives. */
  lemma StrictPlainWrite(s: ScreenState, codec: Codec, command: bv8, wcc: bv8, body: seq<bv8>)
    requires s.WellFormed() && IsWrite(command) && PlainData(body)
    ensures Commands(s, codec, command, [wcc] + body + [IAC, EOR], 0)
      == Outcome(SignalEor(PlainWrite(s, codec, command, wcc, body)).0, |body| + 3, true)
  {
    var input := [wcc] + body + [IAC, EOR];
    var commanded := SetCommand(s, command);
    var wccd := O.ApplyWcc(commanded, codec, command, wcc);
    assert input[1..1 + |body|] == body;
    StrictPlainRun(wccd, codec, input, 1, |body|);
    var written := WriteCharacters(wccd, codec, body);
    assert ProcessWrite(commanded, codec, command, input, 0) == Outcome(written, |body| + 3, true);
    assert CommandBody(s, codec, command, input, 0) == Outcome(PlainWrite(s, codec, command, wcc, body), |body| + 3, true);
  }

  /**
   * The lenient decoding of a plain Write record, wherever the collection
   * array continues after it, leaves the screen `PlainWrite` gives for the
   * normalised command.
   */
  lemma LenientPlainWrite(s: ScreenState, codec: Codec, d: seq<bv8>, body: seq<bv8>)
    requires s.WellFormed() && 2 + |body| <= |d| && d[2..2 + |body|] == body && PlainData(body)
    requires IsWrite(O.NormalizeCommand(d[0]))
    ensures L.DataStream(s, codec, d, 0, 2 + |body|).0 == PlainWrite(s, codec, O.NormalizeCommand(d[0]), d[1], body)
  {
    var length := 2 + |body|;
    var command := O.NormalizeCommand(d[0]);
    var data := d[0 := command];
    var commanded := SetCommand(s, command);
    var wccd := O.ApplyWcc(commanded, codec, command, d[1]);
    assert data[0] == command && data[1] == d[1];
    assert SetCommand(commanded, command) == commanded;
    assert L.WriteControlCharacter(commanded, codec, data, 1, length) == L.Step(wccd, 2);
    assert data[2..length] == body;
    LenientPlainRun(wccd, codec, data, 2, length);
    var written := WriteCharacters(wccd, codec, body);
    assert L.ProcessWrite(commanded, codec, data, 1, length) == L.Step(written, length);
    var c := L.ProcessCommand(s, codec, d, 0, length);
    assert c.screen == PlainWrite(s, codec, command, d[1], body) && c.next == length;
  }

  /** A byte read back from its `int` value modulo 256 is itself. */
  lemma ByteModulo(b: bv8)
    ensures ((b as int) % 256) as bv8 == b
  {
    var x := b as int;
    assert 0 <= x < 256;
    assert x % 256 == x;
  }

  /**
   * The two decoders agree on a Write record of plain data: fed the command,
   * the WCC, the data and IAC EOR from an empty collection, the lenient
   * framing leaves the same screen as the strict parse of that command over
   * the rest of the record, and the strict parse succeeds having read all
   * of it.
   */
  lemma PlainWriteRecordsAgree(f: L.Framer, codec: Codec, command: bv8, wcc: bv8, body: seq<bv8>)
    requires f.Valid() && !f.iac && f.pos == 0
    requires IsWrite(O.NormalizeCommand(command)) && command != IAC && wcc != IAC
    requires PlainData(body) && |body| + 2 <= L.DATA_BUFFER_SIZE
    ensures var strict := Parse(f.screen, codec, command as int, [wcc] + body + [IAC, EOR], 0);
      var lenient := L.Feed(f, codec, [command, wcc] + body + [IAC, EOR]);
      strict.ok && strict.pos == |body| + 3 && lenient.screen == strict.screen && lenient.pos == 0 && !lenient.iac
  {
    var cmd := O.NormalizeCommand(command);
    var record := [command, wcc] + body;
    assert [command, wcc] + body + [IAC, EOR] == record + [IAC, EOR];
    forall j | 0 <= j < |record|
      ensures record[j] != IAC
    {
      if j >= 2 {
        assert record[j] == body[j - 2];
      }
    }
    L.RecordIsDecodedWhole(f, codec, record);
    var dd := record + f.data[|record|..];
    assert dd[0] == command && dd[1] == wcc && dd[2..2 + |body|] == body;
    LenientPlainWrite(f.screen, codec, dd, body);
    ByteModulo(command);
    StrictPlainWrite(f.screen, codec, cmd, wcc, body);
  }
}
