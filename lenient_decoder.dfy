/**
 * The lenient decoder of `DataStreamParser.java` as functions over the bytes
 * `d[0 .. length)` of one record.  Every handler returns the new screen and
 * the index of the next unread byte; an order cut short by the end of the
 * record is skipped: one byte consumed, screen untouched.  The record is
 * framed by `parse`, which collects bytes until IAC EOR (or until 8192 bytes
 * are pending) and then decodes the collected bytes command by command.
 */
module LenientDecoder {
  import opened Wrappers
  import opened Tn3270Constants
  import opened ScreenModel
  import O = Orders

  /** A handler's result: the new screen and the index of the next unread byte. */
  datatype Step = Step(screen: ScreenState, next: int)

  /** A handler's precondition: a well-formed screen and an index inside the record. */
  predicate Inside(s: ScreenState, d: seq<bv8>, index: int, length: int) {
    s.WellFormed() && 0 <= index < length <= |d|
  }

  /** The screen stays well formed and the index moves forward, staying within the record. */
  predicate Progress(r: Step, index: int, length: int) {
    r.screen.WellFormed() && index < r.next <= length
  }

  /** `processCharacter`: the byte at `index` is data. */
  function Character(s: ScreenState, codec: Codec, d: seq<bv8>, index: int, length: int): (r: Step)
    requires Inside(s, d, index, length)
    ensures Progress(r, index, length) && r.next == index + 1
    ensures r.screen.orderCount == s.orderCount && r.screen.ebcdic[s.cursor] == d[index]
  {
    Step(O.WriteCharacter(s, codec, d[index]), index + 1)
  }

  /** `processStartField`: SF with its attribute byte. */
  function StartField(s: ScreenState, codec: Codec, d: seq<bv8>, index: int, length: int): (r: Step)
    requires Inside(s, d, index, length)
    ensures Progress(r, index, length) && r.screen.orderCount == s.orderCount
    ensures index + 1 >= length ==> r == Step(s, index + 1)
    ensures index + 1 < length ==> r.next == index + 2 && r.screen.starts[s.cursor]
  {
    if index + 1 >= length then Step(s, index + 1)
    else Step(O.StartField(s, codec, d[index + 1]), index + 2)
  }

  /**
   * How many type/value pairs SFE and MF read from `pos`: the count byte as a
   * signed Java byte (so 0x80 and above read none), cut short when fewer
   * than two bytes remain in the record.
   */
  function PairCount(count: bv8, pos: int, length: int): (k: int)
    requires pos <= length
    ensures 0 <= k && pos + 2 * k <= length
    ensures Signed(count) <= 0 ==> k == 0
    ensures Signed(count) >= 0 ==> k == Signed(count) || (k < Signed(count) && pos + 2 * k + 1 >= length)
  {
    var wanted := if Signed(count) < 0 then 0 else Signed(count);
    O.Min(wanted, (length - pos) / 2)
  }

  /** `processStartFieldExtended`: SFE with its count byte and pairs. */
  function StartFieldExtended(s: ScreenState, codec: Codec, d: seq<bv8>, index: int, length: int): (r: Step)
    requires Inside(s, d, index, length)
    ensures Progress(r, index, length) && r.screen.orderCount == s.orderCount
    ensures index + 1 >= length ==> r == Step(s, index + 1)
    ensures index + 1 < length ==>
      r.next == index + 2 + 2 * PairCount(d[index + 1], index + 2, length) && r.screen.starts[s.cursor]
  {
    if index + 1 >= length then Step(s, index + 1)
    else
      var k := PairCount(d[index + 1], index + 2, length);
      Step(O.StartFieldExtended(s, codec, O.Pairs(d, index + 2, k)), index + 2 + 2 * k)
  }

  /** `processSetBufferAddress`: SBA with its two address bytes. */
  function SetBufferAddress(s: ScreenState, d: seq<bv8>, index: int, length: int): (r: Step)
    requires Inside(s, d, index, length)
    ensures Progress(r, index, length) && r.screen == s.(cursor := r.screen.cursor)
    ensures index + 2 >= length ==> r == Step(s, index + 1)
    ensures index + 2 < length ==>
      r.next == index + 3
      && r.screen.cursor == (var a := O.DecodeAddress(d[index + 1], d[index + 2]);
                             if a < BUFFER_SIZE then a else s.cursor)
  {
    if index + 2 >= length then Step(s, index + 1)
    else Step(O.SetBufferAddress(s, O.DecodeAddress(d[index + 1], d[index + 2])), index + 3)
  }

  /** `processSetAttribute`: SA with its type and value bytes. */
  function SetAttributeOrder(s: ScreenState, d: seq<bv8>, index: int, length: int): (r: Step)
    requires Inside(s, d, index, length)
    ensures Progress(r, index, length) && r.screen.orderCount == s.orderCount
    ensures index + 2 >= length ==> r == Step(s, index + 1)
    ensures index + 2 < length ==> r.next == index + 3
    ensures index + 2 < length && d[index + 1] == BASIC_ATTRIBUTE ==>
      Attr(r.screen, s.cursor) == FieldAttributes.Parse(d[index + 2])
  {
    if index + 2 >= length then Step(s, index + 1)
    else Step(O.SetAttributeOrder(s, d[index + 1], d[index + 2]), index + 3)
  }

  /** `processModifyField`: MF with its count byte and pairs. */
  function ModifyField(s: ScreenState, d: seq<bv8>, index: int, length: int): (r: Step)
    requires Inside(s, d, index, length)
    ensures Progress(r, index, length) && r.screen.orderCount == s.orderCount
    ensures index + 2 >= length ==> r == Step(s, index + 1)
    ensures index + 2 < length ==> r.next == index + 2 + 2 * PairCount(d[index + 1], index + 2, length)
  {
    if index + 2 >= length then Step(s, index + 1)
    else
      var k := PairCount(d[index + 1], index + 2, length);
      Step(O.ModifyField(s, O.Pairs(d, index + 2, k)), index + 2 + 2 * k)
  }

  /** `processProgramTab`: PT takes no parameter. */
  function ProgramTab(s: ScreenState, index: int, length: int): (r: Step)
    requires s.WellFormed() && 0 <= index < length
    ensures Progress(r, index, length) && r.next == index + 1
    ensures r.screen == s.(cursor := r.screen.cursor)
  {
    Step(O.ProgramTab(s), index + 1)
  }

  /** `processRepeatToAddress`: RA with two address bytes and the fill byte. */
  function RepeatToAddress(s: ScreenState, codec: Codec, d: seq<bv8>, index: int, length: int): (r: Step)
    requires Inside(s, d, index, length)
    ensures Progress(r, index, length) && r.screen.orderCount == s.orderCount
    ensures index + 3 >= length ==> r == Step(s, index + 1)
    ensures index + 3 < length ==> r.next == index + 4
  {
    if index + 3 >= length then Step(s, index + 1)
    else Step(O.RepeatToAddress(s, codec, O.DecodeAddress(d[index + 1], d[index + 2]), d[index + 3]), index + 4)
  }

  /** `processEraseUntilAddress`: EUA with its two address bytes. */
  function EraseUntilAddress(s: ScreenState, codec: Codec, d: seq<bv8>, index: int, length: int): (r: Step)
    requires Inside(s, d, index, length)
    ensures Progress(r, index, length) && r.screen.orderCount == s.orderCount && r.screen.cursor == s.cursor
    ensures index + 2 >= length ==> r == Step(s, index + 1)
    ensures index + 2 < length ==> r.next == index + 3
  {
    if index + 2 >= length then Step(s, index + 1)
    else Step(O.EraseUntilAddress(s, codec, O.DecodeAddress(d[index + 1], d[index + 2])), index + 3)
  }

  /** `processGraphicsEscape`: GE with the byte it escapes, written as data. */
  function GraphicsEscape(s: ScreenState, codec: Codec, d: seq<bv8>, index: int, length: int): (r: Step)
    requires Inside(s, d, index, length)
    ensures Progress(r, index, length) && r.screen.orderCount == s.orderCount
    ensures index + 1 >= length ==> r == Step(s, index + 1)
    ensures index + 1 < length ==> r.next == index + 2 && r.screen.ebcdic[s.cursor] == d[index + 1]
  {
    if index + 1 >= length then Step(s, index + 1)
    else Step(O.WriteCharacter(s, codec, d[index + 1]), index + 2)
  }

  /**
   * One pass of `processWrite`'s loop at a byte other than IAC: an order is
   * counted and then handled; any other byte is data.
   */
  function WriteStep(s: ScreenState, codec: Codec, d: seq<bv8>, index: int, length: int): (r: Step)
    requires Inside(s, d, index, length)
    ensures Progress(r, index, length)
    ensures r.screen.orderCount == s.orderCount + (if O.IsOrder(d[index]) then 1 else 0)
    ensures !O.IsOrder(d[index]) ==> r == Step(O.WriteCharacter(s, codec, d[index]), index + 1)
  {
    if O.IsOrder(d[index]) then Order(IncOrderCount(s), codec, d, index, length)
    else Character(s, codec, d, index, length)
  }

  /** The handler of the order at `index`, once the order is counted. */
  function Order(s: ScreenState, codec: Codec, d: seq<bv8>, index: int, length: int): (r: Step)
    requires Inside(s, d, index, length) && O.IsOrder(d[index])
    ensures Progress(r, index, length) && r.screen.orderCount == s.orderCount
  {
    var b := d[index];
    if b == SF then StartField(s, codec, d, index, length)
    else if b == SFE then StartFieldExtended(s, codec, d, index, length)
    else if b == SBA then SetBufferAddress(s, d, index, length)
    else if b == SA then SetAttributeOrder(s, d, index, length)
    else if b == MF then ModifyField(s, d, index, length)
    else if b == IC then Step(s, index + 1)
    else if b == PT then ProgramTab(s, index, length)
    else if b == RA then RepeatToAddress(s, codec, d, index, length)
    else if b == EUA then EraseUntilAddress(s, codec, d, index, length)
    else GraphicsEscape(s, codec, d, index, length)
  }


  /** `processWrite`'s loop: orders and data up to the end of the record or the first IAC. */
  function WriteOrders(s: ScreenState, codec: Codec, d: seq<bv8>, index: int, length: int): (r: Step)
    requires s.WellFormed() && 0 <= index <= length <= |d|
    ensures r.screen.WellFormed() && index <= r.next <= length
    ensures r.next == length || d[r.next] == IAC
    decreases length - index
  {
    if index >= length || d[index] == IAC then Step(s, index)
    else
      var t := WriteStep(s, codec, d, index, length);
      WriteOrders(t.screen, codec, d, t.next, length)
  }

  /** `processWriteControlCharacter`: the command is the byte before the WCC. */
  function WriteControlCharacter(s: ScreenState, codec: Codec, d: seq<bv8>, index: int, length: int): (r: Step)
    requires s.WellFormed() && 1 <= index < length <= |d|
    ensures r.screen.WellFormed() && r.next == index + 1
    ensures r.screen.cmd == Some(d[index - 1]) && r.screen.wcc == Some(d[index])
  {
    var command := d[index - 1];
    O.ApplyWccEffect(SetCommand(s, command), codec, command, d[index]);
    Step(O.ApplyWcc(SetCommand(s, command), codec, command, d[index]), index + 1)
  }

  /** `processWrite`: the WCC (when present), then the orders. */
  function ProcessWrite(s: ScreenState, codec: Codec, d: seq<bv8>, index: int, length: int): (r: Step)
    requires s.WellFormed() && 1 <= index <= length <= |d|
    ensures r.screen.WellFormed() && index <= r.next <= length
    ensures index < length ==> index < r.next
    ensures r.next == length || d[r.next] == IAC
    ensures index >= length ==> r == Step(s, index)
  {
    if index >= length then Step(s, index)
    else
      var w := WriteControlCharacter(s, codec, d, index, length);
      WriteOrders(w.screen, codec, d, w.next, length)
  }

  /** A command's result: the new screen, the record with the command byte normalised in place, the next index. */
  datatype CommandStep = CommandStep(screen: ScreenState, data: seq<bv8>, next: int)

  predicate IsRead(c: bv8) {
    c == READ_BUFFER || c == READ_MODIFIED || c == READ_MODIFIED_ALL
  }

  /**
   * `processCommand`: normalise the command byte and write it back; a Write
   * restores the background afterwards when the last WCC stored carries bit
   * 0x04; a Read only records the command; any other byte is data.
   */
  function ProcessCommand(s: ScreenState, codec: Codec, d: seq<bv8>, index: int, length: int): (r: CommandStep)
    requires Inside(s, d, index, length)
    ensures r.screen.WellFormed() && index < r.next <= length
    ensures r.data == d[index := O.NormalizeCommand(d[index])]
    ensures IsRead(O.NormalizeCommand(d[index])) ==>
      r.screen == s.(cmd := Some(O.NormalizeCommand(d[index]))) && r.next == index + 1
  {
    var command := O.NormalizeCommand(d[index]);
    var data := d[index := command];
    var b := CommandBody(SetCommand(s, command), codec, data, index, length);
    CommandStep(b.screen, data, b.next)
  }

  /**
   * The switch of `processCommand` on the command at `index`, already
   * normalised and recorded: a Write restores the background afterwards
   * when the WCC stored carries bit 0x04; a Read is only skipped; any other
   * byte is treated as data.
   */
  function CommandBody(s: ScreenState, codec: Codec, d: seq<bv8>, index: int, length: int): (r: Step)
    requires Inside(s, d, index, length)
    ensures Progress(r, index, length)
    ensures IsRead(d[index]) ==> r == Step(s, index + 1)
  {
    var command := d[index];
    if command == WRITE then
      var w := ProcessWrite(s, codec, d, index + 1, length);
      var restore := w.screen.wcc.Some? && w.screen.wcc.value & WCC_START_PRINTER != 0;
      Step(if restore then RestoreDataFromBackground(w.screen) else w.screen, w.next)
    else if command == ERASE_WRITE || command == ERASE_WRITE_ALTERNATE then
      ProcessWrite(s, codec, d, index + 1, length)
    else if IsRead(command) then Step(s, index + 1)
    else Character(s, codec, d, index, length)
  }

  /** `processDataStream`: commands one after another until the record is used up. */
  function DataStream(s: ScreenState, codec: Codec, d: seq<bv8>, i: int, length: int): (r: (ScreenState, seq<bv8>))
    requires s.WellFormed() && 0 <= i <= length <= |d|
    ensures r.0.WellFormed() && |r.1| == |d|
    ensures i >= length ==> r == (s, d)
    decreases length - i
  {
    if i >= length then (s, d)
    else
      var c := ProcessCommand(s, codec, d, i, length);
      DataStream(c.screen, codec, c.data, c.next, length)
  }

  /** The size of `dataBuffer`. */
  const DATA_BUFFER_SIZE: int := 8192

  /**
   * The framing state of `parse`: the screen, the collection array (whose
   * first `pos` bytes are pending, and whose commands the decoder
   * normalises in place), and whether an IAC was seen.
   */
  datatype Framer = Framer(screen: ScreenState, data: seq<bv8>, pos: int, iac: bool)
  {
    predicate Valid() {
      screen.WellFormed() && |data| == DATA_BUFFER_SIZE && 0 <= pos <= DATA_BUFFER_SIZE
    }

    /** The bytes collected since the last end of record. */
    function Pending(): seq<bv8>
      requires Valid()
    {
      data[..pos]
    }
  }

  /** `processDataStream(dataBuffer, dataBufferPos)`: the new screen and the array after normalisation. */
  function Decode(f: Framer, codec: Codec): (r: (ScreenState, seq<bv8>))
    requires f.Valid()
    ensures r.0.WellFormed() && |r.1| == DATA_BUFFER_SIZE
  {
    DataStream(f.screen, codec, f.data, 0, f.pos)
  }

  /** `bufferByte`: collect the byte; when 8192 bytes are already pending, decode them first. */
  function BufferByte(f: Framer, codec: Codec, b: bv8): (r: Framer)
    requires f.Valid()
    ensures r.Valid() && r.iac == f.iac && r.pos > 0 && r.data[r.pos - 1] == b
  {
    if f.pos < DATA_BUFFER_SIZE then f.(data := f.data[f.pos := b], pos := f.pos + 1)
    else
      var decoded := Decode(f, codec);
      f.(screen := decoded.0, data := decoded.1[0 := b], pos := 1)
  }

  /**
   * Collecting a byte appends it to the pending bytes; only when 8192 bytes
   * are pending are they decoded first, and then the byte is all that is
   * pending.
   */
  lemma BufferByteEffect(f: Framer, codec: Codec, b: bv8)
    requires f.Valid()
    ensures var r := BufferByte(f, codec, b);
      && (f.pos < DATA_BUFFER_SIZE ==> r.screen == f.screen && r.Pending() == f.Pending() + [b])
      && (f.pos == DATA_BUFFER_SIZE ==> r.screen == Decode(f, codec).0 && r.Pending() == [b])
  {
    var r := BufferByte(f, codec, b);
    if f.pos < DATA_BUFFER_SIZE {
      assert r.Pending() == f.Pending() + [b];
    } else {
      assert r.Pending() == [b];
    }
  }

  /**
   * One byte of `parse`'s loop.  An IAC outside IAC mode is dropped and
   * enters IAC mode; in IAC mode EOR decodes the pending bytes, signals the
   * end of record, empties the collection and leaves IAC mode, while any
   * other byte, IAC included, is collected and IAC mode stays on.
   */
  function FeedByte(f: Framer, codec: Codec, b: bv8): (r: Framer)
    requires f.Valid()
    ensures r.Valid()
  {
    if !f.iac && b == IAC then f.(iac := true)
    else if f.iac && b == EOR then
      var decoded := Decode(f, codec);
      Framer(SignalEor(decoded.0).0, decoded.1, 0, false)
    else BufferByte(f, codec, b)
  }

  /**
   * What one byte does: IAC outside IAC mode only switches the mode on; EOR
   * in IAC mode signals the decoded screen and empties the collection;
   * every other byte ends up last in the collection, with IAC mode kept.
   */
  lemma FeedByteEffect(f: Framer, codec: Codec, b: bv8)
    requires f.Valid()
    ensures var r := FeedByte(f, codec, b);
      && (!f.iac && b == IAC ==> r == f.(iac := true))
      && (f.iac && b == EOR ==> r.screen == SignalEor(Decode(f, codec).0).0 && r.pos == 0 && !r.iac)
      && (f.iac && b != EOR ==> r.iac && r.pos > 0 && r.data[r.pos - 1] == b)
      && (!f.iac && b != IAC ==> !r.iac && r.pos > 0 && r.data[r.pos - 1] == b)
  {
  }

  function Feed(f: Framer, codec: Codec, input: seq<bv8>): (r: Framer)
    requires f.Valid()
    ensures r.Valid()
    decreases |input|
  {
    if |input| == 0 then f else Feed(FeedByte(f, codec, input[0]), codec, input[1..])
  }

  /**
   * `parse(firstByte)` over an input stream holding `input`: `firstByte`
   * (unless -1) is collected first, truncated to a byte; IAC mode starts off.
   */
  function Parse(s: ScreenState, codec: Codec, data: seq<bv8>, pos: int, firstByte: int, input: seq<bv8>): (r: Framer)
    requires Framer(s, data, pos, false).Valid()
    ensures r.Valid()
  {
    var start := Framer(s, data, pos, false);
    var primed := if firstByte != -1 then BufferByte(start, codec, (firstByte % 256) as bv8) else start;
    Feed(primed, codec, input)
  }

  lemma {:induction false} FeedAppend(f: Framer, codec: Codec, a: seq<bv8>, b: seq<bv8>)
    requires f.Valid()
    ensures Feed(f, codec, a + b) == Feed(Feed(f, codec, a), codec, b)
    decreases |a|
  {
    if |a| == 0 {
      assert a + b == b;
    } else {
      var g := FeedByte(f, codec, a[0]);
      assert (a + b)[0] == a[0] && (a + b)[1..] == a[1..] + b;
      assert Feed(f, codec, a + b) == Feed(g, codec, a[1..] + b);
      assert Feed(f, codec, a) == Feed(g, codec, a[1..]);
      FeedAppend(g, codec, a[1..], b);
    }
  }

  /** Bytes without IAC that fit in the array are only collected, after the pending ones. */
  lemma {:induction false} FeedCollects(f: Framer, codec: Codec, body: seq<bv8>)
    requires f.Valid() && !f.iac && f.pos + |body| <= DATA_BUFFER_SIZE
    requires forall j :: 0 <= j < |body| ==> body[j] != IAC
    ensures var r := Feed(f, codec, body);
      r.screen == f.screen && !r.iac && r.pos == f.pos + |body|
      && r.data == f.Pending() + body + f.data[f.pos + |body|..]
    decreases |body|
  {
    if |body| == 0 {
      assert f.data == f.Pending() + body + f.data[f.pos..];
    } else {
      var g := FeedByte(f, codec, body[0]);
      assert g == f.(data := f.data[f.pos := body[0]], pos := f.pos + 1);
      assert Feed(f, codec, body) == Feed(g, codec, body[1..]);
      FeedCollects(g, codec, body[1..]);
      assert g.Pending() == f.Pending() + [body[0]];
      assert g.data[g.pos + |body[1..]|..] == f.data[f.pos + |body|..];
      assert f.Pending() + body == (f.Pending() + [body[0]]) + body[1..];
    }
  }

  /**
   * A record without IAC bytes and of at most 8192 bytes, sent from an empty
   * collection and followed by IAC EOR, is decoded as a whole and then
   * signalled, leaving nothing pending.
   */
  lemma RecordIsDecodedWhole(f: Framer, codec: Codec, body: seq<bv8>)
    requires f.Valid() && !f.iac && f.pos == 0 && |body| <= DATA_BUFFER_SIZE
    requires forall j :: 0 <= j < |body| ==> body[j] != IAC
    ensures var r := Feed(f, codec, body + [IAC, EOR]);
      var g := Framer(f.screen, body + f.data[|body|..], |body|, false);
      r.screen == SignalEor(Decode(g, codec).0).0 && r.pos == 0 && !r.iac
  {
    FeedAppend(f, codec, body, [IAC, EOR]);
    FeedCollects(f, codec, body);
    var c := Feed(f, codec, body);
    var g := Framer(f.screen, body + f.data[|body|..], |body|, false);
    assert f.Pending() == [];
    assert c == g;
    var i := FeedByte(c, codec, IAC);
    assert i == c.(iac := true);
    assert [IAC, EOR][0] == IAC && [IAC, EOR][1..] == [EOR];
    assert Feed(c, codec, [IAC, EOR]) == Feed(i, codec, [EOR]);
    assert [EOR][1..] == [];
    assert Feed(i, codec, [EOR]) == FeedByte(i, codec, EOR);
    assert Decode(i, codec) == Decode(g, codec);
  }
}
