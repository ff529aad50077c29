/**
 * `Screen.java` as a class: the terminal's keyboard and display side.  It
 * reads the buffer's characters as text, types into unprotected cells
 * (shifting the rest of a field right in insert mode), moves the cursor,
 * and answers the host with an AID reply when a key is pressed.  The
 * output stream is the sequence `output` of bytes written so far;
 * `hasOutput` is false for a screen built without a stream.  Every method
 * is proved against the functions of `ScreenView`.
 */
module TerminalScreen {
  import opened Tn3270Constants
  import ScreenBuffer
  import M = ScreenModel
  import V = ScreenView
  import FieldScan
  import Orders

  /** The keys that send their AID and nothing else (`pf1` … `pf12`, `enter`, `pa1` … `pa3`). */
  datatype Key = PF1 | PF2 | PF3 | PF4 | PF5 | PF6 | PF7 | PF8 | PF9 | PF10 | PF11 | PF12
               | Enter | PA1 | PA2 | PA3

  /** The attention identifier each key sends. */
  function AidOf(k: Key): bv8 {
    match k
    case PF1 => AID_PF1   case PF2 => AID_PF2   case PF3 => AID_PF3   case PF4 => AID_PF4
    case PF5 => AID_PF5   case PF6 => AID_PF6   case PF7 => AID_PF7   case PF8 => AID_PF8
    case PF9 => AID_PF9   case PF10 => AID_PF10 case PF11 => AID_PF11 case PF12 => AID_PF12
    case Enter => AID_ENTER
    case PA1 => AID_PA1   case PA2 => AID_PA2   case PA3 => AID_PA3
  }

  /** The host can tell every key apart by its AID, and none is taken for the Clear key. */
  lemma KeysDistinguishable(k1: Key, k2: Key)
    ensures AidOf(k1) == AidOf(k2) <==> k1 == k2
    ensures AidOf(k1) != AID_CLEAR
  {
  }

  class Screen {
    const buffer: ScreenBuffer.Buffer
    /** Whether the screen was built with an output stream. */
    const hasOutput: bool
    /** The bytes written to the output stream so far. */
    var output: seq<bv8>
    var insertMode: bool

    ghost predicate Valid()
      reads this, buffer, buffer.Repr()
    {
      buffer.Valid() && this !in buffer.Repr()
    }

    constructor(buffer: ScreenBuffer.Buffer, hasOutput: bool)
      requires buffer.Valid()
      ensures Valid() && this.buffer == buffer && this.hasOutput == hasOutput
      ensures output == [] && !insertMode
    {
      this.buffer := buffer;
      this.hasOutput := hasOutput;
      output := [];
      insertMode := false;
    }

    // ---------------------------------------------------------- reading text

    /** `getString()`: the rows separated by newlines. */
    method GetString() returns (r: seq<char>)
      requires Valid()
      ensures r == V.ScreenText(buffer.Snap(), "\n")
    {
      r := GetStringSeparated("\n");
    }

    /** `getString(separator)`. */
    method GetStringSeparated(separator: seq<char>) returns (r: seq<char>)
      requires Valid()
      ensures r == V.ScreenText(buffer.Snap(), separator)
    {
      r := [];
      for row := 0 to SCREEN_HEIGHT
        invariant r == V.Rows(buffer.Snap(), separator, row)
      {
        if row > 0 {
          r := r + separator;
        }
        var text := GetRow(row);
        r := r + text;
      }
    }

    /** `getString(row)`. */
    method GetRow(row: int) returns (r: seq<char>)
      requires Valid()
      ensures r == V.RowText(buffer.Snap(), row)
    {
      if row < 0 || row >= SCREEN_HEIGHT {
        return [];
      }
      var text := [];
      var startPos := row * SCREEN_WIDTH;
      for col := 0 to SCREEN_WIDTH
        invariant |text| == col
        invariant forall k :: 0 <= k < col ==> text[k] == buffer.Snap().ascii[startPos + k]
      {
        var c := buffer.GetAsciiCharacter(startPos + col);
        text := text + [c];
      }
      assert text == M.RowString(buffer.Snap(), row);
      r := V.TrimEnd(text);
    }

    /** `getString(position, length)`. */
    method GetWindow(position: int, length: int) returns (r: seq<char>)
      requires Valid()
      ensures r == V.Window(buffer.Snap(), position, length)
    {
      if position < 0 || position >= BUFFER_SIZE || length <= 0 {
        return [];
      }
      r := [];
      var i := 0;
      while i < length && position + i < BUFFER_SIZE
        invariant 0 <= i <= length && position + i <= BUFFER_SIZE && |r| == i
        invariant forall k :: 0 <= k < i ==> r[k] == buffer.Snap().ascii[position + k]
      {
        var c := buffer.GetAsciiCharacter(position + i);
        r := r + [c];
        i := i + 1;
      }
    }

    /** `getString(row, col, length)`. */
    method GetCells(row: int, col: int, length: int) returns (r: seq<char>)
      requires Valid()
      ensures r == V.CellText(buffer.Snap(), row, col, length)
    {
      if row < 0 || row >= SCREEN_HEIGHT || col < 0 || col >= SCREEN_WIDTH {
        return [];
      }
      r := GetWindow(row * SCREEN_WIDTH + col, length);
    }

    // ---------------------------------------------------------- typing

    /** `putString(text)`: type at the cursor. */
    method PutStringAtCursor(text: seq<char>)
      requires Valid()
      modifies buffer.Repr()
      ensures Valid()
      ensures buffer.Snap() == V.PutString(old(buffer.Snap()), buffer.codec, insertMode, old(buffer.Snap()).cursor, text)
    {
      PutString(buffer.cursorPosition, text);
    }

    /** `putString(position, text)`. */
    method PutString(position: int, text: seq<char>)
      requires Valid()
      modifies buffer.Repr()
      ensures Valid()
      ensures buffer.Snap() == V.PutString(old(buffer.Snap()), buffer.codec, insertMode, position, text)
    {
      if |text| == 0 || position < 0 || position >= BUFFER_SIZE {
        return;
      }
      TypeText(position, text);
    }

    /** The loop of `putString`, then the cursor after the last cell visited. */
    method TypeText(position: int, text: seq<char>)
      requires Valid() && 0 <= position < BUFFER_SIZE
      modifies buffer.Repr()
      ensures Valid()
      ensures buffer.Snap() == V.TypeFrom(old(buffer.Snap()), buffer.codec, insertMode, text, 0, position)
    {
      hide V.TypeOne, M.SetCursor, Orders.Min, ScreenBuffer.Buffer.Valid, M.ScreenState.WellFormed;
      ghost var target := V.TypeFrom(buffer.Snap(), buffer.codec, insertMode, text, 0, position);
      var currentPos := position;
      var i := 0;
      {
        // Each character needs only the contract of `TypeNext`.
        hide V.TypeFrom;
        while i < |text| && currentPos < BUFFER_SIZE
          invariant Valid() && 0 <= i <= |text| && currentPos == position + i
          invariant V.TypeFrom(buffer.Snap(), buffer.codec, insertMode, text, i, currentPos) == target
          decreases |text| - i
        {
          TypeNext(text, i, currentPos, target);
          currentPos := currentPos + 1;
          i := i + 1;
        }
      }
      buffer.SetCursorPosition(Orders.Min(currentPos, BUFFER_SIZE - 1));
    }

    /** One pass of `putString`'s loop, stated against the rest of the loop. */
    method TypeNext(text: seq<char>, i: nat, pos: int, ghost target: M.ScreenState)
      requires Valid() && i < |text| && 0 <= pos < BUFFER_SIZE
      requires V.TypeFrom(buffer.Snap(), buffer.codec, insertMode, text, i, pos) == target
      modifies buffer.Repr()
      ensures Valid()
      ensures V.TypeFrom(buffer.Snap(), buffer.codec, insertMode, text, i + 1, pos + 1) == target
    {
      TypeCharacter(text[i], pos);
    }

    /** One character of `putString`'s loop: a protected cell is skipped. */
    method TypeCharacter(c: char, pos: int)
      requires Valid() && 0 <= pos < BUFFER_SIZE
      modifies buffer.Repr()
      ensures Valid()
      ensures buffer.Snap() == V.TypeOne(old(buffer.Snap()), buffer.codec, insertMode, c, pos)
    {
      var isProtected := buffer.IsProtected(pos);
      if !isProtected {
        if insertMode {
          ShiftCharactersRight(pos);
        }
        buffer.SetAsciiCharacter(pos, c);
      }
    }

    /** `shiftCharactersRight(startPos)`. */
    method ShiftCharactersRight(startPos: int)
      requires Valid() && 0 <= startPos < BUFFER_SIZE
      modifies buffer.Repr()
      ensures Valid()
      ensures buffer.Snap() == V.Shift(old(buffer.Snap()), buffer.codec, startPos)
    {
      hide V.ShiftOne, FieldScan.FindFieldEnd, ScreenBuffer.Buffer.Valid, M.ScreenState.WellFormed;
      var endPos := FindFieldEnd(startPos);
      ghost var target := V.Shift(buffer.Snap(), buffer.codec, startPos);
      var i := endPos - 1;
      {
        // Each cell needs only the contract of `ShiftNext`.
        hide V.ShiftDown, V.Shift;
        while i > startPos
          invariant Valid() && startPos <= i < BUFFER_SIZE
          invariant V.ShiftDown(buffer.Snap(), buffer.codec, startPos, i) == target
        {
          ShiftNext(startPos, i, target);
          i := i - 1;
        }
      }
    }

    /** One pass of `shiftCharactersRight`'s loop, stated against the rest of the loop. */
    method ShiftNext(startPos: int, i: int, ghost target: M.ScreenState)
      requires Valid() && 0 <= startPos < i < BUFFER_SIZE
      requires V.ShiftDown(buffer.Snap(), buffer.codec, startPos, i) == target
      modifies buffer.Repr()
      ensures Valid()
      ensures V.ShiftDown(buffer.Snap(), buffer.codec, startPos, i - 1) == target
    {
      ShiftCell(i);
    }

    /** One step of `shiftCharactersRight`'s loop: an unprotected cell takes its left neighbour's character. */
    method ShiftCell(i: int)
      requires Valid() && 0 < i < BUFFER_SIZE
      modifies buffer.Repr()
      ensures Valid()
      ensures buffer.Snap() == V.ShiftOne(old(buffer.Snap()), buffer.codec, i)
    {
      var isProtected := buffer.IsProtected(i);
      if !isProtected {
        var c := buffer.GetAsciiCharacter(i - 1);
        buffer.SetAsciiCharacter(i, c);
      }
    }

    /** `findFieldEnd(position)`. */
    method FindFieldEnd(position: int) returns (r: int)
      requires Valid() && -1 <= position < BUFFER_SIZE
      ensures r == FieldScan.FindFieldEnd(buffer.Snap().starts, position)
    {
      var i := position + 1;
      while i < BUFFER_SIZE
        invariant position < i <= BUFFER_SIZE
        invariant forall j :: position < j < i ==> !buffer.Snap().starts[j]
      {
        var isStart := buffer.IsFieldStart(i);
        if isStart {
          return i;
        }
        i := i + 1;
      }
      return BUFFER_SIZE;
    }

    /** `insert()`: toggle insert mode. */
    method Insert()
      requires Valid()
      modifies this
      ensures Valid() && insertMode == !old(insertMode) && output == old(output)
    {
      insertMode := !insertMode;
    }

    // ---------------------------------------------------------- cursor keys

    /** `tab()`. */
    method Tab()
      requires Valid()
      modifies buffer.Repr()
      ensures Valid() && buffer.Snap() == V.Tab(old(buffer.Snap()))
    {
      var currentPos := buffer.cursorPosition;
      var nextField := buffer.FindNextUnprotectedField(currentPos);
      buffer.SetCursorPosition(nextField);
    }

    /** `home()`. */
    method Home()
      requires Valid()
      modifies buffer.Repr()
      ensures Valid() && buffer.Snap() == V.Home(old(buffer.Snap()))
    {
      buffer.SetCursorPosition(0);
      var firstUnprotected := buffer.FindNextUnprotectedField(-1);
      if firstUnprotected >= 0 {
        buffer.SetCursorPosition(firstUnprotected);
      }
    }

    // ---------------------------------------------------------- AID keys

    /** `pf1()` … `pf12()`, `enter()`, `pa1()` … `pa3()`. */
    method Press(k: Key)
      requires Valid()
      modifies this
      ensures Valid() && insertMode == old(insertMode)
      ensures output == old(output) + if hasOutput then V.AidReply(buffer.Snap(), AidOf(k)) else []
    {
      SendAid(AidOf(k));
    }

    /** `clear()`: clear the buffer, then send the Clear AID. */
    method Clear()
      requires Valid()
      modifies this, buffer.Repr()
      ensures Valid() && insertMode == old(insertMode)
      ensures buffer.Snap() == M.Clear(old(buffer.Snap()))
      ensures output == old(output) + if hasOutput then V.AidReply(buffer.Snap(), AID_CLEAR) else []
    {
      buffer.Clear();
      SendAid(AID_CLEAR);
    }

    /** `sendAID(aid)`: nothing without an output stream. */
    method SendAid(aid: bv8)
      requires Valid()
      modifies this
      ensures Valid() && insertMode == old(insertMode)
      ensures output == old(output) + if hasOutput then V.AidReply(buffer.Snap(), aid) else []
    {
      if !hasOutput {
        return;
      }
      ghost var snap := buffer.Snap();
      ghost var reply := V.AidReply(snap, aid);
      assert reply == [aid] + V.EncodeAddress(snap.cursor) + V.ModifiedFields(snap, BUFFER_SIZE) + [IAC, SE];
      hide V.ModifiedFields, V.EncodeAddress, V.AidReply, ScreenBuffer.Buffer.Valid;
      output := output + [aid];
      output := output + V.EncodeAddress(buffer.cursorPosition);
      SendModifiedFields();
      output := output + [IAC, SE];
      assert output == old(output) + reply;
    }

    /** `sendModifiedFields()`: every field start whose attribute carries the MDT bit, in order. */
    method SendModifiedFields()
      requires Valid()
      modifies this
      ensures Valid() && insertMode == old(insertMode)
      ensures output == old(output) + V.ModifiedFields(buffer.Snap(), BUFFER_SIZE)
    {
      hide V.FieldBytes, V.IsModifiedField, M.ScreenState.WellFormed, ScreenBuffer.Buffer.Valid;
      for i := 0 to BUFFER_SIZE
        invariant Valid() && insertMode == old(insertMode)
        invariant output == old(output) + V.ModifiedFields(buffer.Snap(), i)
      {
        SendIfModified(i);
      }
    }

    /** One pass of `sendModifiedFields`' loop: a field start with the MDT bit set is sent. */
    method SendIfModified(i: int)
      requires Valid() && 0 <= i < BUFFER_SIZE
      modifies this
      ensures Valid() && insertMode == old(insertMode)
      ensures output == old(output) + if V.IsModifiedField(buffer.Snap(), i) then V.FieldBytes(buffer.Snap(), i) else []
    {
      var isStart := buffer.IsFieldStart(i);
      if isStart {
        var attr := buffer.GetAttribute(i);
        if attr.ToAttributeByte() & ATTR_MDT != 0 {
          SendField(i);
        }
      }
    }

    /** `sendField(fieldStart)`: the field's address, then its data up to the next field. */
    method SendField(fieldStart: int)
      requires Valid() && 0 <= fieldStart < BUFFER_SIZE
      modifies this
      ensures Valid() && insertMode == old(insertMode)
      ensures output == old(output) + V.FieldBytes(buffer.Snap(), fieldStart)
    {
      hide ScreenBuffer.Buffer.Valid;
      ghost var snap := buffer.Snap();
      ghost var target := old(output) + V.FieldBytes(snap, fieldStart);
      output := output + V.EncodeAddress(fieldStart);
      var pos := fieldStart + 1;
      var atStart := buffer.IsFieldStart(pos);
      {
        // Each step needs only the contract of `SendFieldCell`.
        hide V.FieldData, V.FieldBytes, V.EncodeAddress, M.ScreenState.WellFormed;
        while pos < BUFFER_SIZE && !atStart
          invariant Valid() && insertMode == old(insertMode) && buffer.Snap() == snap
          invariant fieldStart < pos <= BUFFER_SIZE
          invariant atStart <==> pos < BUFFER_SIZE && snap.starts[pos]
          invariant output + V.FieldData(snap, fieldStart, pos) == target
          decreases BUFFER_SIZE - pos
        {
          SendFieldCell(fieldStart, pos);
          pos := pos + 1;
          atStart := buffer.IsFieldStart(pos);
        }
      }
    }

    /** One cell of `sendField`'s loop: its byte, unless it is a space past the first data cell. */
    method SendFieldCell(fieldStart: int, pos: int)
      requires Valid() && 0 <= fieldStart < pos < BUFFER_SIZE && !buffer.Snap().starts[pos]
      modifies this
      ensures Valid() && insertMode == old(insertMode)
      ensures output + V.FieldData(buffer.Snap(), fieldStart, pos + 1) == old(output) + V.FieldData(buffer.Snap(), fieldStart, pos)
    {
      var ch := buffer.GetAsciiCharacter(pos);
      if ch != ' ' || pos == fieldStart + 1 {
        output := output + [V.ByteOf(ch)];
      }
    }
  }
}
