/**
 * `DataStreamParser.java`: the lenient decoder as a class that drives a
 * `Buffer`.  Every handler is proved to leave the buffer, and to return the
 * index, that the corresponding function of `LenientDecoder` computes from
 * the old snapshot; `Parse` is proved against the framing function
 * `LenientDecoder.Parse`.
 */
module LenientParsing {
  import opened Tn3270Constants
  import opened ScreenBuffer
  import M = ScreenModel
  import O = Orders
  import L = LenientDecoder
  import BufferOrders

  class LenientParser {
    const buffer: Buffer
    /** The bytes collected since the last end of record. */
    const dataBuffer: array<bv8>
    var dataBufferPos: int

    /** The buffer is valid and the collection array is not one of its arrays. */
    ghost predicate Valid()
      reads this, buffer, buffer.Repr()
    {
      buffer.Valid() && dataBuffer.Length == L.DATA_BUFFER_SIZE
      && 0 <= dataBufferPos <= L.DATA_BUFFER_SIZE
      && dataBuffer as object !in buffer.Repr()
    }

    /** A record the handlers may read: not one of the buffer's arrays. */
    ghost predicate Apart(data: array<bv8>)
      reads buffer
    {
      data as object !in buffer.Repr()
    }

    /** The framing state of `parse`, given the current IAC mode. */
    ghost function Framing(iac: bool): (f: L.Framer)
      requires Valid()
      reads this, buffer, buffer.Repr(), dataBuffer
      ensures f.Valid()
    {
      L.Framer(buffer.Snap(), dataBuffer[..], dataBufferPos, iac)
    }

    constructor(buffer: Buffer)
      requires buffer.Valid()
      ensures Valid() && this.buffer == buffer && dataBufferPos == 0
    {
      this.buffer := buffer;
      dataBuffer := new bv8[L.DATA_BUFFER_SIZE](_ => 0x00);
      dataBufferPos := 0;
    }

    /**
     * `parse(firstByte)`, reading `input` as the stream's bytes up to its end:
     * the result is what `LenientDecoder.Parse` computes; IAC mode is local
     * to the call.
     */
    method Parse(firstByte: int, input: seq<bv8>)
      requires Valid()
      modifies this, dataBuffer, buffer.Repr()
      ensures Valid()
      ensures var r := L.Parse(old(buffer.Snap()), buffer.codec, old(dataBuffer[..]), old(dataBufferPos), firstByte, input);
        Framing(r.iac) == r
    {
      ghost var target := L.Parse(buffer.Snap(), buffer.codec, dataBuffer[..], dataBufferPos, firstByte, input);
      var iacMode := false;
      if firstByte != -1 {
        BufferByte((firstByte % 256) as bv8, false);
      }
      assert input[0..] == input;
      var i := 0;
      while i < |input|
        invariant Valid() && 0 <= i <= |input|
        invariant L.Feed(Framing(iacMode), buffer.codec, input[i..]) == target
      {
        ghost var f := Framing(iacMode);
        assert L.Feed(f, buffer.codec, input[i..]) == L.Feed(L.FeedByte(f, buffer.codec, input[i]), buffer.codec, input[i + 1..]);
        var b := input[i];
        i := i + 1;
        if !iacMode {
          if b == IAC {
            iacMode := true;
            continue;
          }
        } else if b == EOR {
          iacMode := false;
          ProcessDataStream(dataBuffer, dataBufferPos);
          assert (buffer.Snap(), dataBuffer[..]) == L.Decode(f, buffer.codec);
          dataBufferPos := 0;
          var _ := buffer.SignalEor();
          assert Framing(false) == L.FeedByte(f, buffer.codec, b);
          continue;
        }
        BufferByte(b, iacMode);
      }
      assert input[i..] == [];
    }

    /** `bufferByte`: collect `b`, first decoding the collected bytes when 8192 are pending. */
    method BufferByte(b: bv8, ghost iac: bool)
      requires Valid()
      modifies this, dataBuffer, buffer.Repr()
      ensures Valid() && Framing(iac) == L.BufferByte(old(Framing(iac)), buffer.codec, b)
    {
      ghost var f := Framing(iac);
      if dataBufferPos < dataBuffer.Length {
        dataBuffer[dataBufferPos] := b;
        dataBufferPos := dataBufferPos + 1;
      } else {
        ProcessDataStream(dataBuffer, dataBufferPos);
        assert (buffer.Snap(), dataBuffer[..]) == L.Decode(f, buffer.codec);
        dataBufferPos := 0;
        dataBuffer[dataBufferPos] := b;
        dataBufferPos := dataBufferPos + 1;
      }
    }

    /** `processDataStream`: commands one after another over `data[0 .. length)`. */
    method ProcessDataStream(data: array<bv8>, length: int)
      requires buffer.Valid() && Apart(data) && 0 <= length <= data.Length
      modifies buffer.Repr(), data
      ensures buffer.Valid()
      ensures (buffer.Snap(), data[..]) == L.DataStream(old(buffer.Snap()), buffer.codec, old(data[..]), 0, length)
    {
      var i := 0;
      while i < length
        invariant buffer.Valid() && 0 <= i <= length
        invariant L.DataStream(buffer.Snap(), buffer.codec, data[..], i, length)
               == L.DataStream(old(buffer.Snap()), buffer.codec, old(data[..]), 0, length)
        decreases length - i
      {
        i := ProcessCommand(data, i, length);
      }
    }

    /**
     * `processCommand`: a command byte below 0xF0 is normalised and written
     * back into `data`; past the end of the record nothing happens.
     */
    method ProcessCommand(data: array<bv8>, index: int, length: int) returns (next: int)
      requires buffer.Valid() && Apart(data) && 0 <= index <= length <= data.Length
      modifies buffer.Repr(), data
      ensures buffer.Valid()
      ensures index >= length ==> next == index && buffer.Snap() == old(buffer.Snap()) && data[..] == old(data[..])
      ensures index < length ==>
        L.CommandStep(buffer.Snap(), data[..], next)
        == L.ProcessCommand(old(buffer.Snap()), buffer.codec, old(data[..]), index, length)
    {
      if index >= length {
        return index;
      }
      ghost var s0 := buffer.Snap();
      ghost var d0 := data[..];
      var command := data[index];
      if command < 0xF0 {
        command := command + 0xF0;
        data[index] := command;
      }
      ghost var d := data[..];
      assert command == O.NormalizeCommand(d0[index]) && d == d0[index := command];
      buffer.SetIncomingCommandByte(command);
      assert buffer.Snap() == M.SetCommand(s0, command);
      next := ProcessCommandBody(data, index, length);
    }

    /** The switch of `processCommand` on the command at `index`, once normalised and recorded. */
    method ProcessCommandBody(data: array<bv8>, index: int, length: int) returns (next: int)
      requires buffer.Valid() && Apart(data) && 0 <= index < length <= data.Length
      modifies buffer.Repr()
      ensures buffer.Valid()
      ensures L.Step(buffer.Snap(), next) == L.CommandBody(old(buffer.Snap()), buffer.codec, data[..], index, length)
    {
      var command := data[index];
      if command == WRITE {
        next := ProcessWrite(data, index + 1, length);
        if buffer.wcc.Some? && buffer.wcc.value & WCC_START_PRINTER != 0 {
          buffer.RestoreDataFromBackground();
        }
      } else if command == ERASE_WRITE || command == ERASE_WRITE_ALTERNATE {
        next := ProcessWrite(data, index + 1, length);
      } else if command == READ_BUFFER || command == READ_MODIFIED || command == READ_MODIFIED_ALL {
        next := index + 1;
      } else {
        next := ProcessCharacter(data, index, length);
      }
    }

    /** `processWrite`: the WCC, then orders and data until the end of the record or an IAC. */
    method ProcessWrite(data: array<bv8>, index: int, length: int) returns (next: int)
      requires buffer.Valid() && Apart(data) && 1 <= index <= length <= data.Length
      modifies buffer.Repr()
      ensures buffer.Valid()
      ensures L.Step(buffer.Snap(), next) == L.ProcessWrite(old(buffer.Snap()), buffer.codec, data[..], index, length)
    {
      if index >= length {
        return index;
      }
      next := ProcessWriteControlCharacter(data, index, length);
      ghost var target := L.ProcessWrite(old(buffer.Snap()), buffer.codec, data[..], index, length);
      while next < length
        invariant buffer.Valid() && index < next <= length
        invariant L.WriteOrders(buffer.Snap(), buffer.codec, data[..], next, length) == target
        decreases length - next
      {
        var b := data[next];
        if b == IAC {
          break;
        }
        next := ProcessOrderOrCharacter(data, next, length);
      }
    }

    /** One pass of `processWrite`'s switch: an order is counted and handled, any other byte is data. */
    method ProcessOrderOrCharacter(data: array<bv8>, index: int, length: int) returns (next: int)
      requires buffer.Valid() && Apart(data) && 0 <= index < length <= data.Length
      modifies buffer.Repr()
      ensures buffer.Valid()
      ensures L.Step(buffer.Snap(), next) == L.WriteStep(old(buffer.Snap()), buffer.codec, data[..], index, length)
    {
      var b := data[index];
      if b == SF || b == SFE || b == SBA || b == SA || b == MF || b == IC || b == PT || b == RA || b == EUA || b == GE {
        buffer.IncOrderCount();
      }
      if b == SF {
        next := ProcessStartField(data, index, length);
      } else if b == SFE {
        next := ProcessStartFieldExtended(data, index, length);
      } else if b == SBA {
        next := ProcessSetBufferAddress(data, index, length);
      } else if b == SA {
        next := ProcessSetAttribute(data, index, length);
      } else if b == MF {
        next := ProcessModifyField(data, index, length);
      } else if b == IC {
        // Insert Cursor: the order is only skipped.
        next := index + 1;
      } else if b == PT {
        next := ProcessProgramTab(index, length);
      } else if b == RA {
        next := ProcessRepeatToAddress(data, index, length);
      } else if b == EUA {
        next := ProcessEraseUntilAddress(data, index, length);
      } else if b == GE {
        next := ProcessGraphicsEscape(data, index, length);
      } else {
        next := ProcessCharacter(data, index, length);
      }
    }

    /** `processWriteControlCharacter`: past the end of the record nothing happens. */
    method ProcessWriteControlCharacter(data: array<bv8>, index: int, length: int) returns (next: int)
      requires buffer.Valid() && Apart(data) && 1 <= index <= length <= data.Length
      modifies buffer.Repr()
      ensures buffer.Valid()
      ensures index >= length ==> next == index && buffer.Snap() == old(buffer.Snap())
      ensures index < length ==>
        L.Step(buffer.Snap(), next) == L.WriteControlCharacter(old(buffer.Snap()), buffer.codec, data[..], index, length)
    {
      if index >= length {
        return index;
      }
      var wcc := data[index];
      buffer.SetIncomingCommandByte(data[index - 1]);
      BufferOrders.ApplyWriteControlCharacter(buffer, data[index - 1], wcc);
      next := index + 1;
    }

    method ProcessStartField(data: array<bv8>, index: int, length: int) returns (next: int)
      requires buffer.Valid() && Apart(data) && 0 <= index < length <= data.Length
      modifies buffer.Repr()
      ensures buffer.Valid()
      ensures L.Step(buffer.Snap(), next) == L.StartField(old(buffer.Snap()), buffer.codec, data[..], index, length)
    {
      if index + 1 >= length {
        return index + 1;
      }
      var attribute := data[index + 1];
      var currentPos := BufferOrders.BeginField(buffer);
      buffer.SetAttribute(currentPos, attribute);
      BufferOrders.FinishField(buffer, currentPos);
      next := index + 2;
    }

    /**
     * One pass of the pair loop of SFE and MF: the pair at `at == pos + 2 * i`
     * is applied at cell `p` on top of the `i` pairs applied before.
     */
    method ApplyNextPair(data: array<bv8>, at: int, length: int, p: int, ghost s0: M.ScreenState, ghost pos: int, ghost i: int)
      requires buffer.Valid() && Apart(data) && s0.WellFormed()
      requires 0 <= pos && 0 <= i && at == pos + 2 * i && at + 1 < length <= data.Length
      requires buffer.Snap() == O.ApplyPairs(s0, p, O.Pairs(data[..], pos, i))
      modifies buffer.Repr()
      ensures buffer.Valid() && buffer.Snap() == O.ApplyPairs(s0, p, O.Pairs(data[..], pos, i + 1))
    {
      hide O.ApplyPairs, O.Pairs;
      O.ApplyPairsNext(s0, p, data[..], pos, i);
      var attrType := data[at];
      var attrValue := data[at + 1];
      BufferOrders.ApplyPair(buffer, p, attrType, attrValue);
    }

    /**
     * The pair loop of SFE and MF: at most `count` (a signed byte) pairs from
     * `pos`, while two bytes remain, applied at cell `p`.
     */
    method ProcessPairs(data: array<bv8>, pos: int, count: bv8, length: int, p: int) returns (next: int)
      requires buffer.Valid() && Apart(data) && 0 <= pos <= length <= data.Length
      modifies buffer.Repr()
      ensures buffer.Valid()
      ensures next == pos + 2 * L.PairCount(count, pos, length)
      ensures buffer.Snap() == O.ApplyPairs(old(buffer.Snap()), p, O.Pairs(data[..], pos, L.PairCount(count, pos, length)))
    {
      ghost var s0 := buffer.Snap();
      ghost var d := data[..];
      ghost var k := L.PairCount(count, pos, length);
      next := pos;
      var i := 0;
      assert O.Pairs(d, pos, 0) == [];
      assert buffer.Snap() == O.ApplyPairs(s0, p, O.Pairs(d, pos, 0));
      // From here on each step needs only `ApplyNextPair`'s contract.
      hide O.ApplyPairs, O.Pairs;
      while i < Signed(count) && next + 1 < length
        invariant buffer.Valid() && data[..] == d
        invariant 0 <= i <= k && next == pos + 2 * i
        invariant buffer.Snap() == O.ApplyPairs(s0, p, O.Pairs(d, pos, i))
      {
        ApplyNextPair(data, next, length, p, s0, pos, i);
        next := next + 2;
        i := i + 1;
      }
      assert i == k;
    }

    method ProcessStartFieldExtended(data: array<bv8>, index: int, length: int) returns (next: int)
      requires buffer.Valid() && Apart(data) && 0 <= index < length <= data.Length
      modifies buffer.Repr()
      ensures buffer.Valid()
      ensures L.Step(buffer.Snap(), next) == L.StartFieldExtended(old(buffer.Snap()), buffer.codec, data[..], index, length)
    {
      if index + 1 >= length {
        return index + 1;
      }
      var paramCount := data[index + 1];
      var currentPos := BufferOrders.BeginField(buffer);
      next := ProcessPairs(data, index + 2, paramCount, length, currentPos);
      BufferOrders.FinishField(buffer, currentPos);
    }

    method ProcessSetBufferAddress(data: array<bv8>, index: int, length: int) returns (next: int)
      requires buffer.Valid() && Apart(data) && 0 <= index < length <= data.Length
      modifies buffer.Repr()
      ensures buffer.Valid()
      ensures L.Step(buffer.Snap(), next) == L.SetBufferAddress(old(buffer.Snap()), data[..], index, length)
    {
      if index + 2 >= length {
        return index + 1;
      }
      var address := O.DecodeAddress(data[index + 1], data[index + 2]);
      BufferOrders.SetBufferAddress(buffer, address);
      next := index + 3;
    }

    method ProcessSetAttribute(data: array<bv8>, index: int, length: int) returns (next: int)
      requires buffer.Valid() && Apart(data) && 0 <= index < length <= data.Length
      modifies buffer.Repr()
      ensures buffer.Valid()
      ensures L.Step(buffer.Snap(), next) == L.SetAttributeOrder(old(buffer.Snap()), data[..], index, length)
    {
      if index + 2 >= length {
        return index + 1;
      }
      var attrType := data[index + 1];
      var attrValue := data[index + 2];
      var currentPos := buffer.cursorPosition;
      BufferOrders.ApplyPair(buffer, currentPos, attrType, attrValue);
      next := index + 3;
    }

    method ProcessModifyField(data: array<bv8>, index: int, length: int) returns (next: int)
      requires buffer.Valid() && Apart(data) && 0 <= index < length <= data.Length
      modifies buffer.Repr()
      ensures buffer.Valid()
      ensures L.Step(buffer.Snap(), next) == L.ModifyField(old(buffer.Snap()), data[..], index, length)
    {
      if index + 2 >= length {
        return index + 1;
      }
      var paramCount := data[index + 1];
      var currentPos := buffer.cursorPosition;
      next := ProcessPairs(data, index + 2, paramCount, length, currentPos);
    }

    method ProcessProgramTab(index: int, length: int) returns (next: int)
      requires buffer.Valid() && 0 <= index < length
      modifies buffer.Repr()
      ensures buffer.Valid()
      ensures L.Step(buffer.Snap(), next) == L.ProgramTab(old(buffer.Snap()), index, length)
    {
      BufferOrders.ProgramTab(buffer);
      next := index + 1;
    }

    method ProcessRepeatToAddress(data: array<bv8>, index: int, length: int) returns (next: int)
      requires buffer.Valid() && Apart(data) && 0 <= index < length <= data.Length
      modifies buffer.Repr()
      ensures buffer.Valid()
      ensures L.Step(buffer.Snap(), next) == L.RepeatToAddress(old(buffer.Snap()), buffer.codec, data[..], index, length)
    {
      if index + 3 >= length {
        return index + 1;
      }
      var address := O.DecodeAddress(data[index + 1], data[index + 2]);
      var character := data[index + 3];
      BufferOrders.RepeatToAddress(buffer, address, character);
      next := index + 4;
    }

    method ProcessEraseUntilAddress(data: array<bv8>, index: int, length: int) returns (next: int)
      requires buffer.Valid() && Apart(data) && 0 <= index < length <= data.Length
      modifies buffer.Repr()
      ensures buffer.Valid()
      ensures L.Step(buffer.Snap(), next) == L.EraseUntilAddress(old(buffer.Snap()), buffer.codec, data[..], index, length)
    {
      if index + 2 >= length {
        return index + 1;
      }
      var address := O.DecodeAddress(data[index + 1], data[index + 2]);
      BufferOrders.EraseUntilAddress(buffer, address);
      next := index + 3;
    }

    method ProcessGraphicsEscape(data: array<bv8>, index: int, length: int) returns (next: int)
      requires buffer.Valid() && Apart(data) && 0 <= index < length <= data.Length
      modifies buffer.Repr()
      ensures buffer.Valid()
      ensures L.Step(buffer.Snap(), next) == L.GraphicsEscape(old(buffer.Snap()), buffer.codec, data[..], index, length)
    {
      if index + 1 >= length {
        return index + 1;
      }
      BufferOrders.WriteCharacter(buffer, data[index + 1]);
      next := index + 2;
    }

    method ProcessCharacter(data: array<bv8>, index: int, length: int) returns (next: int)
      requires buffer.Valid() && Apart(data) && 0 <= index < length <= data.Length
      modifies buffer.Repr()
      ensures buffer.Valid()
      ensures L.Step(buffer.Snap(), next) == L.Character(old(buffer.Snap()), buffer.codec, data[..], index, length)
    {
      BufferOrders.WriteCharacter(buffer, data[index]);
      next := index + 1;
    }
  }
}
