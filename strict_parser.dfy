/**
 * `DataStreamParser2.java`: the strict decoder as a class that reads the
 * host's bytes one at a time and drives a `Buffer`.  The input stream is
 * the sequence `input`; each method takes the position of the next byte to
 * read and returns the position after the bytes it read, and a method that
 * would throw an `IOException` returns `ok == false`.  Every method is
 * proved to leave the buffer, the position and the verdict that the
 * corresponding function of `StrictDecoder` computes from the old state.
 */
module StrictParsing {
  import opened Tn3270Constants
  import opened ScreenBuffer
  import M = ScreenModel
  import O = Orders
  import S = StrictDecoder
  import BufferOrders

  /**
   * A method whose proof needs it begins by noting that the parser is none
   * of the buffer's objects, so that `currentCommand` is seen to survive
   * the buffer's updates.
   */
  class StrictParser {
    const buffer: Buffer
    /** The bytes the input stream delivers, in order. */
    const input: seq<bv8>
    var currentCommand: bv8

    constructor (buffer: Buffer, input: seq<bv8>)
      ensures this.buffer == buffer && this.input == input && currentCommand == 0
    {
      this.buffer := buffer;
      this.input := input;
      currentCommand := 0;
    }

    /** `readByte` at position `at`: the byte there, or the end-of-stream error. */
    method ReadByte(at: int) returns (b: bv8, next: int, ok: bool)
      requires 0 <= at <= |input|
      ensures ok <==> at < |input|
      ensures ok ==> b == input[at] && next == at + 1
      ensures !ok ==> next == |input|
    {
      if at >= |input| {
        return 0, |input|, false;
      }
      return input[at], at + 1, true;
    }

    /** `parse()`: read the first command byte, then parse from it. */
    method ParseStream(pos: int) returns (next: int, ok: bool)
      requires buffer.Valid() && 0 <= pos <= |input|
      modifies this`currentCommand, buffer.Repr()
      ensures buffer.Valid()
      ensures S.Outcome(buffer.Snap(), next, ok) == S.ParseStream(old(buffer.Snap()), buffer.codec, input, pos)
    {
      hide S.Parse;
      ghost var s0 := buffer.Snap();
      var firstByte;
      firstByte, next, ok := ReadByte(pos);
      if !ok {
        return pos, false;
      }
      assert S.ParseStream(s0, buffer.codec, input, pos) == S.Parse(s0, buffer.codec, firstByte as int, input, next);
      next, ok := Parse(firstByte as int, next);
    }

    /**
     * `parse(firstByte)`: the first command, then one command after another
     * until the stream ends between two commands or an error occurs.
     */
    method Parse(firstByte: int, pos: int) returns (next: int, ok: bool)
      requires buffer.Valid() && 0 <= pos <= |input|
      modifies this`currentCommand, buffer.Repr()
      ensures buffer.Valid()
      ensures S.Outcome(buffer.Snap(), next, ok) == S.Parse(old(buffer.Snap()), buffer.codec, firstByte, input, pos)
    {
      hide S.Commands;
      var command := O.NormalizeCommand((firstByte % 256) as bv8);
      if !O.IsValidCommand(command) {
        return pos, false;
      }
      next := pos;
      ghost var target := S.Commands(buffer.Snap(), buffer.codec, command, input, next);
      while true
        invariant buffer.Valid() && 0 <= next <= |input|
        invariant S.Commands(buffer.Snap(), buffer.codec, command, input, next) == target
        decreases |input| - next
      {
        var done;
        next, ok, command, done := ParseStep(command, next);
        if done {
          return;
        }
      }
    }

    /**
     * One pass of `parse`'s loop: process `command`, then either the loop
     * ends (an error, or the end of the stream between two commands), with
     * the outcome of the whole loop, or it goes on from the next command.
     */
    method ParseStep(command: bv8, pos: int) returns (next: int, ok: bool, following: bv8, done: bool)
      requires buffer.Valid() && 0 <= pos <= |input|
      modifies this`currentCommand, buffer.Repr()
      ensures buffer.Valid()
      ensures done ==>
        S.Outcome(buffer.Snap(), next, ok) == S.Commands(old(buffer.Snap()), buffer.codec, command, input, pos)
      ensures !done ==>
        pos < next <= |input|
        && S.Commands(buffer.Snap(), buffer.codec, following, input, next)
           == S.Commands(old(buffer.Snap()), buffer.codec, command, input, pos)
    {
      // One pass needs only `CommandsStep`, not the definitions it unfolds.
      hide S.Commands, S.ProcessCommand;
      ghost var s := buffer.Snap();
      ghost var c := S.ProcessCommand(s, buffer.codec, command, input, pos);
      next, ok := ProcessCommand(command, pos);
      assert S.Outcome(buffer.Snap(), next, ok) == c;
      S.CommandsStep(s, buffer.codec, command, input, pos, c);
      if !ok || next == |input| {
        return next, ok, command, true;
      }
      var after, valid;
      following, after, valid := ReadCommand(next);
      if !valid {
        return after, false, following, true;
      }
      return after, true, following, false;
    }

    /**
     * The next command byte of `parse`'s loop, read at `at` and normalised;
     * `ok` says whether it is one of the six commands.
     */
    method ReadCommand(at: int) returns (command: bv8, next: int, ok: bool)
      requires 0 <= at < |input|
      ensures next == at + 1 && command == O.NormalizeCommand(input[at])
      ensures ok <==> O.IsValidCommand(command)
    {
      var b;
      b, next, ok := ReadByte(at);
      command := O.NormalizeCommand(b);
      ok := O.IsValidCommand(command);
    }

    /**
     * `processCommand`: record the command, run its body, then signal the
     * end of record whether or not the body failed.
     */
    method ProcessCommand(command: bv8, pos: int) returns (next: int, ok: bool)
      requires buffer.Valid() && 0 <= pos <= |input|
      modifies this`currentCommand, buffer.Repr()
      ensures buffer.Valid() && currentCommand == command
      ensures S.Outcome(buffer.Snap(), next, ok) == S.ProcessCommand(old(buffer.Snap()), buffer.codec, command, input, pos)
    {
      assert this as object !in buffer.Repr();
      currentCommand := command;
      buffer.SetIncomingCommandByte(command);
      if command == WRITE {
        next, ok := ProcessWrite(pos);
        if ok && buffer.wcc.Some? && buffer.wcc.value & WCC_START_PRINTER != 0 {
          buffer.RestoreDataFromBackground();
        }
      } else if command == ERASE_WRITE || command == ERASE_WRITE_ALTERNATE {
        next, ok := ProcessWrite(pos);
      } else if command == READ_BUFFER || command == READ_MODIFIED || command == READ_MODIFIED_ALL {
        next, ok := ExpectIacEor(pos);
      } else {
        next, ok := pos, false;
      }
      var _ := buffer.SignalEor();
    }

    /** `expectIacEor`: IAC and then EOR must follow; the screen is not touched. */
    method ExpectIacEor(pos: int) returns (next: int, ok: bool)
      requires 0 <= pos <= |input|
      ensures S.Outcome(buffer.Snap(), next, ok) == S.ExpectIacEor(buffer.Snap(), input, pos)
    {
      var iac, eor;
      iac, next, ok := ReadByte(pos);
      if !ok {
        return;
      }
      if iac != IAC {
        return next, false;
      }
      eor, next, ok := ReadByte(next);
      if !ok {
        return;
      }
      if eor != EOR {
        return next, false;
      }
    }

    /** `processWrite`: the WCC, then orders and data until IAC EOR. */
    method ProcessWrite(pos: int) returns (next: int, ok: bool)
      requires buffer.Valid() && 0 <= pos <= |input|
      modifies buffer.Repr()
      ensures buffer.Valid()
      ensures S.Outcome(buffer.Snap(), next, ok) == S.ProcessWrite(old(buffer.Snap()), buffer.codec, currentCommand, input, pos)
    {
      assert this as object !in buffer.Repr();
      next, ok := ProcessWriteControlCharacter(pos);
      if !ok {
        return;
      }
      next, ok := ProcessOrders(next);
    }

    /** `processWrite`'s loop: orders and data from `pos` until IAC EOR. */
    method ProcessOrders(pos: int) returns (next: int, ok: bool)
      requires buffer.Valid() && 0 <= pos <= |input|
      modifies buffer.Repr()
      ensures buffer.Valid()
      ensures S.Outcome(buffer.Snap(), next, ok) == S.WriteOrders(old(buffer.Snap()), buffer.codec, input, pos)
    {
      assert this as object !in buffer.Repr();
      ghost var target := S.WriteOrders(buffer.Snap(), buffer.codec, input, pos);
      next := pos;
      while true
        invariant buffer.Valid() && 0 <= next <= |input|
        invariant S.WriteOrders(buffer.Snap(), buffer.codec, input, next) == target
        decreases |input| - next
      {
        var done;
        next, ok, done := ProcessOrdersStep(next);
        if done {
          return;
        }
      }
    }

    /**
     * One pass of `processWrite`'s loop from `pos`: either the loop ends here
     * (IAC EOR, the end of the stream, or a failed order), with the outcome
     * of the whole loop, or it goes on from a later `next` towards the
     * same outcome.
     */
    method ProcessOrdersStep(pos: int) returns (next: int, ok: bool, done: bool)
      requires buffer.Valid() && 0 <= pos <= |input|
      modifies buffer.Repr()
      ensures buffer.Valid()
      ensures done ==>
        S.Outcome(buffer.Snap(), next, ok) == S.WriteOrders(old(buffer.Snap()), buffer.codec, input, pos)
      ensures !done ==>
        pos < next <= |input|
        && S.WriteOrders(buffer.Snap(), buffer.codec, input, next) == S.WriteOrders(old(buffer.Snap()), buffer.codec, input, pos)
    {
      assert this as object !in buffer.Repr();
      ghost var s := buffer.Snap();
      var b;
      b, next, ok := ReadByte(pos);
      if !ok {
        S.StrictWriteAtEnd(s, buffer.codec, input, pos);
        return next, ok, true;
      }
      if b == IAC {
        var second;
        second, next, ok := ReadByte(next);
        if !ok {
          S.StrictWriteAtEnd(s, buffer.codec, input, pos);
          return next, ok, true;
        }
        if second == EOR {
          S.StrictEndOfRecord(s, buffer.codec, input, pos);
          return next, ok, true;
        }
        // IAC followed by anything but EOR: one 0xFF data byte.
        S.EscapedIacIsData(s, buffer.codec, input, pos);
        BufferOrders.WriteCharacter(buffer, IAC);
        return next, ok, false;
      }
      S.StrictWriteStep(s, buffer.codec, input, pos);
      next, ok := ProcessOrderOrDataByte(pos);
      done := !ok;
    }

    /** `processWriteControlCharacter`: read the WCC and apply it for the current command. */
    method ProcessWriteControlCharacter(pos: int) returns (next: int, ok: bool)
      requires buffer.Valid() && 0 <= pos <= |input|
      modifies buffer.Repr()
      ensures buffer.Valid()
      ensures ok <==> pos < |input|
      ensures !ok ==> next == |input| && buffer.Snap() == old(buffer.Snap())
      ensures ok ==>
        next == pos + 1
        && buffer.Snap() == O.ApplyWcc(old(buffer.Snap()), buffer.codec, currentCommand, input[pos])
    {
      assert this as object !in buffer.Repr();
      var wcc;
      wcc, next, ok := ReadByte(pos);
      if !ok {
        return;
      }
      BufferOrders.ApplyWriteControlCharacter(buffer, currentCommand, wcc);
    }

    /**
     * One pass of `processWrite`'s switch, for the byte at `index` (not
     * IAC): an order is counted and handled, any other byte is data.
     */
    method ProcessOrderOrDataByte(index: int) returns (next: int, ok: bool)
      requires buffer.Valid() && 0 <= index < |input|
      modifies buffer.Repr()
      ensures buffer.Valid()
      ensures S.Outcome(buffer.Snap(), next, ok) == S.WriteStep(old(buffer.Snap()), buffer.codec, input, index)
    {
      assert this as object !in buffer.Repr();
      var b := input[index];
      if O.IsOrder(b) {
        buffer.IncOrderCount();
        next, ok := ProcessOrder(index);
      } else {
        BufferOrders.WriteCharacter(buffer, b);
        next, ok := index + 1, true;
      }
    }

    /** The switch on the order at `index`. */
    method ProcessOrder(index: int) returns (next: int, ok: bool)
      requires buffer.Valid() && 0 <= index < |input| && O.IsOrder(input[index])
      modifies buffer.Repr()
      ensures buffer.Valid()
      ensures S.Outcome(buffer.Snap(), next, ok) == S.Order(old(buffer.Snap()), buffer.codec, input, index)
    {
      assert this as object !in buffer.Repr();
      var b := input[index];
      if b == SF {
        next, ok := ProcessStartField(index);
      } else if b == SFE {
        next, ok := ProcessStartFieldExtended(index);
      } else if b == SBA {
        next, ok := ProcessSetBufferAddress(index);
      } else if b == SA {
        next, ok := ProcessSetAttribute(index);
      } else if b == MF {
        next, ok := ProcessModifyField(index);
      } else if b == IC {
        // Insert Cursor: nothing to do.
        next, ok := index + 1, true;
      } else if b == PT {
        BufferOrders.ProgramTab(buffer);
        next, ok := index + 1, true;
      } else if b == RA {
        next, ok := ProcessRepeatToAddress(index);
      } else if b == EUA {
        next, ok := ProcessEraseUntilAddress(index);
      } else {
        next, ok := ProcessGraphicsEscape(index);
      }
    }

    method ProcessStartField(index: int) returns (next: int, ok: bool)
      requires buffer.Valid() && 0 <= index < |input|
      modifies buffer.Repr()
      ensures buffer.Valid()
      ensures S.Outcome(buffer.Snap(), next, ok) == S.StartField(old(buffer.Snap()), buffer.codec, input, index)
    {
      assert this as object !in buffer.Repr();
      var attribute;
      attribute, next, ok := ReadByte(index + 1);
      if !ok {
        return;
      }
      var currentPos := BufferOrders.BeginField(buffer);
      buffer.SetAttribute(currentPos, attribute);
      BufferOrders.FinishField(buffer, currentPos);
    }

    /** Two `readByte` calls: a type byte and a value byte. */
    method ReadPair(at: int) returns (attrType: bv8, attrValue: bv8, next: int, ok: bool)
      requires 0 <= at <= |input|
      ensures ok <==> at + 2 <= |input|
      ensures ok ==> attrType == input[at] && attrValue == input[at + 1] && next == at + 2
      ensures !ok ==> next == |input|
    {
      attrType, next, ok := ReadByte(at);
      if !ok {
        return attrType, 0, next, false;
      }
      attrValue, next, ok := ReadByte(next);
    }

    /**
     * One pass of the pair loop of SFE and MF: the pair at `at == pos + 2 * i` is
     * read and applied at cell `p` on top of the `i` pairs applied before;
     * when the stream ends inside it nothing changes.
     */
    method ApplyNextPair(at: int, p: int, ghost s0: M.ScreenState, ghost pos: int, ghost i: int) returns (next: int, ok: bool)
      requires buffer.Valid() && s0.WellFormed() && 0 <= pos && 0 <= i && at == pos + 2 * i <= |input|
      requires buffer.Snap() == O.ApplyPairs(s0, p, O.Pairs(input, pos, i))
      modifies buffer.Repr()
      ensures buffer.Valid()
      ensures ok <==> pos + 2 * (i + 1) <= |input|
      ensures ok ==> next == pos + 2 * (i + 1) && buffer.Snap() == O.ApplyPairs(s0, p, O.Pairs(input, pos, i + 1))
      ensures !ok ==> next == |input| && buffer.Snap() == old(buffer.Snap())
    {
      hide O.ApplyPairs, O.Pairs;
      var attrType, attrValue;
      attrType, attrValue, next, ok := ReadPair(at);
      if ok {
        O.ApplyPairsNext(s0, p, input, pos, i);
        BufferOrders.ApplyPair(buffer, p, attrType, attrValue);
      }
    }

    /**
     * The pair loop of SFE and MF: `count` (a signed byte) type/value pairs
     * from `pos`, applied at cell `p`; when the stream ends inside them, the
     * complete pairs stay applied.
     */
    method ReadPairs(pos: int, count: bv8, p: int) returns (next: int, ok: bool)
      requires buffer.Valid() && 0 <= pos <= |input|
      modifies buffer.Repr()
      ensures buffer.Valid()
      ensures ok <==> pos + 2 * S.Wanted(count) <= |input|
      ensures ok ==>
        next == pos + 2 * S.Wanted(count)
        && buffer.Snap() == O.ApplyPairs(old(buffer.Snap()), p, O.Pairs(input, pos, S.Wanted(count)))
      ensures !ok ==>
        next == |input|
        && buffer.Snap() == O.ApplyPairs(old(buffer.Snap()), p, O.Pairs(input, pos, S.CompletePairs(input, pos)))
    {
      ghost var s0 := buffer.Snap();
      ghost var k := S.Wanted(count);
      next := pos;
      var i := 0;
      assert O.Pairs(input, pos, 0) == [];
      assert buffer.Snap() == O.ApplyPairs(s0, p, O.Pairs(input, pos, 0));
      // From here on each step needs only `ApplyNextPair`'s contract.
      hide O.ApplyPairs, O.Pairs;
      while i < Signed(count)
        invariant buffer.Valid() && 0 <= i <= k && next == pos + 2 * i <= |input|
        invariant buffer.Snap() == O.ApplyPairs(s0, p, O.Pairs(input, pos, i))
      {
        next, ok := ApplyNextPair(next, p, s0, pos, i);
        if !ok {
          assert S.CompletePairs(input, pos) == i;
          return;
        }
        i := i + 1;
      }
      assert i == k;
      ok := true;
    }

    method ProcessStartFieldExtended(index: int) returns (next: int, ok: bool)
      requires buffer.Valid() && 0 <= index < |input|
      modifies buffer.Repr()
      ensures buffer.Valid()
      ensures S.Outcome(buffer.Snap(), next, ok) == S.StartFieldExtended(old(buffer.Snap()), buffer.codec, input, index)
    {
      // The steps follow from the contracts of `BeginField`, `ReadPairs` and `FinishField`.
      hide O.ApplyPairs, O.Pairs, O.BeginField, O.FinishField;
      ghost var s0 := buffer.Snap();
      var paramCount;
      paramCount, next, ok := ReadByte(index + 1);
      if !ok {
        return;
      }
      ghost var k := S.Wanted(paramCount);
      var currentPos := BufferOrders.BeginField(buffer);
      ghost var begun := buffer.Snap();
      next, ok := ReadPairs(next, paramCount, currentPos);
      if !ok {
        ghost var complete := S.CompletePairs(input, index + 2);
        assert buffer.Snap() == O.ApplyPairs(begun, currentPos, O.Pairs(input, index + 2, complete));
        return;
      }
      ghost var pairs := O.Pairs(input, index + 2, k);
      assert buffer.Snap() == O.ApplyPairs(begun, currentPos, pairs);
      BufferOrders.FinishField(buffer, currentPos);
      assert buffer.Snap() == O.StartFieldExtended(s0, buffer.codec, pairs);
    }

    method ProcessSetBufferAddress(index: int) returns (next: int, ok: bool)
      requires buffer.Valid() && 0 <= index < |input|
      modifies buffer.Repr()
      ensures buffer.Valid()
      ensures S.Outcome(buffer.Snap(), next, ok) == S.SetBufferAddress(old(buffer.Snap()), input, index)
    {
      assert this as object !in buffer.Repr();
      var byte1, byte2;
      byte1, next, ok := ReadByte(index + 1);
      if !ok {
        return;
      }
      byte2, next, ok := ReadByte(next);
      if !ok {
        return;
      }
      BufferOrders.SetBufferAddress(buffer, O.DecodeAddress(byte1, byte2));
    }

    method ProcessSetAttribute(index: int) returns (next: int, ok: bool)
      requires buffer.Valid() && 0 <= index < |input|
      modifies buffer.Repr()
      ensures buffer.Valid()
      ensures S.Outcome(buffer.Snap(), next, ok) == S.SetAttributeOrder(old(buffer.Snap()), input, index)
    {
      assert this as object !in buffer.Repr();
      var attrType, attrValue;
      attrType, next, ok := ReadByte(index + 1);
      if !ok {
        return;
      }
      attrValue, next, ok := ReadByte(next);
      if !ok {
        return;
      }
      BufferOrders.ApplyPair(buffer, buffer.cursorPosition, attrType, attrValue);
    }

    method ProcessModifyField(index: int) returns (next: int, ok: bool)
      requires buffer.Valid() && 0 <= index < |input|
      modifies buffer.Repr()
      ensures buffer.Valid()
      ensures S.Outcome(buffer.Snap(), next, ok) == S.ModifyField(old(buffer.Snap()), input, index)
    {
      assert this as object !in buffer.Repr();
      var paramCount;
      paramCount, next, ok := ReadByte(index + 1);
      if !ok {
        return;
      }
      next, ok := ReadPairs(next, paramCount, buffer.cursorPosition);
    }

    method ProcessRepeatToAddress(index: int) returns (next: int, ok: bool)
      requires buffer.Valid() && 0 <= index < |input|
      modifies buffer.Repr()
      ensures buffer.Valid()
      ensures S.Outcome(buffer.Snap(), next, ok) == S.RepeatToAddress(old(buffer.Snap()), buffer.codec, input, index)
    {
      assert this as object !in buffer.Repr();
      var byte1, byte2, character;
      byte1, next, ok := ReadByte(index + 1);
      if !ok {
        return;
      }
      byte2, next, ok := ReadByte(next);
      if !ok {
        return;
      }
      character, next, ok := ReadByte(next);
      if !ok {
        return;
      }
      BufferOrders.RepeatToAddress(buffer, O.DecodeAddress(byte1, byte2), character);
    }

    method ProcessEraseUntilAddress(index: int) returns (next: int, ok: bool)
      requires buffer.Valid() && 0 <= index < |input|
      modifies buffer.Repr()
      ensures buffer.Valid()
      ensures S.Outcome(buffer.Snap(), next, ok) == S.EraseUntilAddress(old(buffer.Snap()), buffer.codec, input, index)
    {
      assert this as object !in buffer.Repr();
      var byte1, byte2;
      byte1, next, ok := ReadByte(index + 1);
      if !ok {
        return;
      }
      byte2, next, ok := ReadByte(next);
      if !ok {
        return;
      }
      BufferOrders.EraseUntilAddress(buffer, O.DecodeAddress(byte1, byte2));
    }

    method ProcessGraphicsEscape(index: int) returns (next: int, ok: bool)
      requires buffer.Valid() && 0 <= index < |input|
      modifies buffer.Repr()
      ensures buffer.Valid()
      ensures S.Outcome(buffer.Snap(), next, ok) == S.GraphicsEscape(old(buffer.Snap()), buffer.codec, input, index)
    {
      assert this as object !in buffer.Repr();
      var character;
      character, next, ok := ReadByte(index + 1);
      if !ok {
        return;
      }
      BufferOrders.WriteCharacter(buffer, character);
    }
  }
}
