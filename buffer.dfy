/**
 * `Buffer.java` as a class over seven fixed-size arrays, proved against the
 * value model `ScreenModel`: every method leaves `Snap()` equal to the
 * corresponding function applied to the old snapshot, and every query
 * returns what the corresponding function computes.
 *
 * The Java `FieldAttribute[] attributes` array of object references is kept
 * as `attributeRefs` (per cell, the index of an object) into
 * `attributeObjects` (the objects allocated since the last `clear`).
 */
module ScreenBuffer {
  import opened Wrappers
  import opened Tn3270Constants
  import opened FieldAttributes
  import FieldScan
  import BufferPositions
  import M = ScreenModel

  /** `Arrays.fill` on a screen-sized array, one method per element type. */
  method FillChars(a: array<char>, v: char)
    requires a.Length == BUFFER_SIZE
    modifies a
    ensures a[..] == M.Fill(v)
  {
    forall i | 0 <= i < BUFFER_SIZE { a[i] := v; }
  }

  method FillBytes(a: array<bv8>, v: bv8)
    requires a.Length == BUFFER_SIZE
    modifies a
    ensures a[..] == M.Fill(v)
  {
    forall i | 0 <= i < BUFFER_SIZE { a[i] := v; }
  }

  method FillFlags(a: array<bool>, v: bool)
    requires a.Length == BUFFER_SIZE
    modifies a
    ensures a[..] == M.Fill(v)
  {
    forall i | 0 <= i < BUFFER_SIZE { a[i] := v; }
  }

  method FillRefs(a: array<nat>, v: nat)
    requires a.Length == BUFFER_SIZE
    modifies a
    ensures a[..] == M.Fill(v)
  {
    forall i | 0 <= i < BUFFER_SIZE { a[i] := v; }
  }

  class Buffer {
    const codec: M.Codec
    const ascii: array<char>
    const ebcdic: array<bv8>
    const asciiWriteBuffer: array<char>
    const ebcdicWriteBuffer: array<bv8>
    const ebcdicModified: array<bool>
    const attributeRefs: array<nat>
    const fieldStarts: array<bool>
    var attributeObjects: seq<FieldAttribute>
    var cursorPosition: int
    var fieldCount: int
    var ebcdicCount: int
    var orderCount: int
    var cmd: Option<bv8>
    var wcc: Option<bv8>
    var cmdKey: Option<int>
    var ack: int
    var ignoreAckCount: bool

    /** The buffer's contents as a value of the model. */
    function Snap(): M.ScreenState
      reads this, ascii, ebcdic, asciiWriteBuffer, ebcdicWriteBuffer, ebcdicModified, attributeRefs, fieldStarts
    {
      M.ScreenState(
        ascii[..], ebcdic[..], asciiWriteBuffer[..], ebcdicWriteBuffer[..], ebcdicModified[..],
        attributeRefs[..], attributeObjects, fieldStarts[..],
        cursorPosition, fieldCount, ebcdicCount, orderCount, cmd, wcc, cmdKey, ack, ignoreAckCount)
    }

    /** The objects the buffer's methods may change. */
    ghost function Repr(): set<object>
      reads this
    {
      {this, ascii, ebcdic, asciiWriteBuffer, ebcdicWriteBuffer, ebcdicModified, attributeRefs, fieldStarts}
    }

    /**
     * A byte array is none of the other arrays (the verifier does not infer
     * this from the element types).
     */
    ghost predicate BytesApart(a: array<bv8>)
      reads this
    {
      a as object != ascii && a as object != asciiWriteBuffer && a as object != ebcdicModified
      && a as object != attributeRefs && a as object != fieldStarts
    }

    /** The arrays are distinct and their snapshot is a well-formed buffer. */
    ghost predicate Valid()
      reads this, ascii, ebcdic, asciiWriteBuffer, ebcdicWriteBuffer, ebcdicModified, attributeRefs, fieldStarts
      ensures Valid() ==> Snap().WellFormed()
    {
      ascii.Length == BUFFER_SIZE && ebcdic.Length == BUFFER_SIZE
      && asciiWriteBuffer.Length == BUFFER_SIZE && ebcdicWriteBuffer.Length == BUFFER_SIZE
      && ebcdicModified.Length == BUFFER_SIZE && attributeRefs.Length == BUFFER_SIZE
      && fieldStarts.Length == BUFFER_SIZE
      && ascii != asciiWriteBuffer && ebcdic != ebcdicWriteBuffer && ebcdicModified != fieldStarts
      && BytesApart(ebcdic) && BytesApart(ebcdicWriteBuffer)
      && (forall i :: 0 <= i < BUFFER_SIZE ==> attributeRefs[i] < |attributeObjects|)
      && 0 <= cursorPosition < BUFFER_SIZE
      && fieldCount >= 0
      && (fieldCount == 0 ==> forall i :: 0 <= i < BUFFER_SIZE ==> !fieldStarts[i])
      && ack >= 0
    }

    constructor(codec: M.Codec)
      ensures Valid() && Snap() == M.Initial() && this.codec == codec
    {
      this.codec := codec;
      ascii := new char[BUFFER_SIZE](_ => ' ');
      ebcdic := new bv8[BUFFER_SIZE](_ => 0x00);
      asciiWriteBuffer := new char[BUFFER_SIZE](_ => ' ');
      ebcdicWriteBuffer := new bv8[BUFFER_SIZE](_ => 0x00);
      ebcdicModified := new bool[BUFFER_SIZE](_ => false);
      attributeRefs := new nat[BUFFER_SIZE](_ => 0);
      fieldStarts := new bool[BUFFER_SIZE](_ => false);
      attributeObjects := [Default()];
      cursorPosition := 0;
      fieldCount := 0;
      ebcdicCount := 0;
      orderCount := 0;
      cmd := None;
      wcc := None;
      cmdKey := None;
      ack := 0;
      ignoreAckCount := false;
      new;
      assert ascii[..] == M.Fill(' ');
      assert ebcdic[..] == M.Fill(0x00);
      assert asciiWriteBuffer[..] == M.Fill(' ');
      assert ebcdicWriteBuffer[..] == M.Fill(0x00);
      assert ebcdicModified[..] == M.Fill(false);
      assert attributeRefs[..] == M.Fill(0);
      assert fieldStarts[..] == M.Fill(false);
    }

    method Clear()
      requires Valid()
      modifies this, ascii, ebcdic, asciiWriteBuffer, ebcdicWriteBuffer, ebcdicModified, attributeRefs, fieldStarts
      ensures Valid() && Snap() == M.Clear(old(Snap()))
    {
      hide M.Fill;
      FillChars(ascii, ' ');
      FillBytes(ebcdic, 0x00);
      FillChars(asciiWriteBuffer, ' ');
      FillBytes(ebcdicWriteBuffer, 0x00);
      FillFlags(ebcdicModified, false);
      attributeObjects := [Default()];
      FillRefs(attributeRefs, 0);
      FillFlags(fieldStarts, false);
      cursorPosition := 0;
      fieldCount := 0;
      ebcdicCount := 0;
      orderCount := 0;
      ack := 0;
    }

    method ClearPreCommandCounts()
      requires Valid()
      modifies this
      ensures Valid() && Snap() == M.ClearPreCommandCounts(old(Snap()))
    {
      orderCount := 0;
      ebcdicCount := 0;
      ack := 0;
    }

    method CopyDataToBackground()
      requires Valid()
      modifies asciiWriteBuffer, ebcdicWriteBuffer, ascii, ebcdic
      ensures Valid() && Snap() == M.CopyDataToBackground(old(Snap()))
    {
      forall i | 0 <= i < BUFFER_SIZE { asciiWriteBuffer[i] := ascii[i]; }
      forall i | 0 <= i < BUFFER_SIZE { ebcdicWriteBuffer[i] := ebcdic[i]; }
      FillChars(ascii, ' ');
      FillBytes(ebcdic, 0x00);
    }

    /** The null test of one span in `restoreDataFromBackground`, leaving at the first non-null byte. */
    method IsNullSpan(lo: int, hi: int) returns (isNull: bool)
      requires Valid() && 0 <= lo <= hi <= BUFFER_SIZE
      ensures isNull == M.AllNull(Snap(), lo, hi)
    {
      isNull := true;
      var j := lo;
      while j < hi
        invariant lo <= j <= hi
        invariant isNull && forall k :: lo <= k < j ==> ebcdic[k] == 0x00
      {
        if ebcdic[j] != 0x00 {
          isNull := false;
          return;
        }
        j := j + 1;
      }
    }

    /** The two `System.arraycopy` calls that bring `[lo, hi)` back from the background. */
    method CopyBack(lo: int, hi: int)
      requires Valid() && 0 <= lo && hi <= BUFFER_SIZE
      modifies ascii, ebcdic
      ensures Valid() && Snap() == M.CopyBack(old(Snap()), lo, hi)
    {
      forall j | lo <= j < hi { ascii[j] := asciiWriteBuffer[j]; }
      forall j | lo <= j < hi { ebcdic[j] := ebcdicWriteBuffer[j]; }
    }

    /**
     * The body of `restoreDataFromBackground` for the field at `i` ending at
     * `endIndex`: copy the span back if it is all null, in two pieces when it
     * wraps round the end of the buffer.
     */
    method RestoreSpan(i: int, endIndex: int)
      requires Valid() && 0 <= i < BUFFER_SIZE && 0 <= endIndex < BUFFER_SIZE
      modifies ascii, ebcdic
      ensures Valid() && Snap() == M.RestoreSpan(old(Snap()), i, endIndex)
    {
      if endIndex > i {
        var isNull := IsNullSpan(i, endIndex);
        if isNull {
          CopyBack(i, endIndex);
        }
      } else {
        var tailNull := IsNullSpan(i, BUFFER_SIZE);
        var headNull := IsNullSpan(0, endIndex);
        if tailNull && headNull {
          CopyBack(i, BUFFER_SIZE);
          CopyBack(0, endIndex);
        }
      }
    }

    method RestoreDataFromBackground()
      requires Valid()
      modifies ascii, ebcdic
      ensures Valid() && Snap() == M.RestoreDataFromBackground(old(Snap()))
    {
      if fieldCount <= 0 {
        return;
      }
      var i := 0;
      while i < BUFFER_SIZE
        invariant 0 <= i <= BUFFER_SIZE && Valid()
        invariant M.RestoreFrom(Snap(), i) == M.RestoreFrom(old(Snap()), 0)
        decreases BUFFER_SIZE - i
      {
        i := RestoreStep(i);
      }
    }

    /**
     * One pass of `restoreDataFromBackground`'s loop at cell `i`: at a field
     * start, its span is restored and the loop goes on after the span's end.
     */
    method RestoreStep(i: int) returns (next: int)
      requires Valid() && 0 <= i < BUFFER_SIZE
      modifies ascii, ebcdic
      ensures Valid() && i < next <= BUFFER_SIZE
      ensures M.RestoreFrom(Snap(), next) == M.RestoreFrom(old(Snap()), i)
    {
      hide M.RestoreSpan, M.FindNextField;
      ghost var before := Snap();
      next := i;
      if fieldStarts[i] {
        var endIndex;
        if i + 1 < BUFFER_SIZE {
          endIndex := FindNextField(i + 1);
        } else {
          endIndex := BUFFER_SIZE - 1;
        }
        assert endIndex == M.RestoreEnd(before, i);
        if endIndex != -1 {
          RestoreSpan(i, endIndex);
          if endIndex > i {
            next := endIndex;
          }
        }
      }
      next := next + 1;
    }

    /** The MDT reset `resetMdtFlags` applies on leaving the field starting at `cur`. */
    method FlushField(cur: int)
      requires Valid() && -1 <= cur < BUFFER_SIZE
      modifies this
      ensures Valid() && Snap() == M.Flush(old(Snap()), cur)
    {
      if cur >= 0 {
        var k := attributeRefs[cur];
        var attribute := attributeObjects[k];
        if !attribute.IsProtected() && attribute.modified {
          attributeObjects := attributeObjects[k := attribute.WithModified(false)];
        }
      }
    }

    method ResetMdtFlags()
      requires Valid()
      modifies this
      ensures Valid() && Snap() == M.ResetMdtFlags(old(Snap()))
    {
      if fieldCount <= 0 {
        return;
      }
      var currentFieldStart := -1;
      for i := 0 to BUFFER_SIZE
        invariant Valid() && -1 <= currentFieldStart < BUFFER_SIZE
        invariant M.ResetMdtFrom(Snap(), i, currentFieldStart) == M.ResetMdtFrom(old(Snap()), 0, -1)
      {
        currentFieldStart := ResetMdtStep(i, currentFieldStart);
      }
      FlushField(currentFieldStart);
    }

    /**
     * One pass of `resetMdtFlags`'s loop at cell `i`, inside the field
     * starting at `cur`: leaving a field flushes it; the field now entered
     * is returned.
     */
    method ResetMdtStep(i: int, cur: int) returns (next: int)
      requires Valid() && 0 <= i < BUFFER_SIZE && -1 <= cur < BUFFER_SIZE
      modifies this
      ensures Valid() && -1 <= next < BUFFER_SIZE
      ensures M.ResetMdtFrom(Snap(), i + 1, next) == M.ResetMdtFrom(old(Snap()), i, cur)
    {
      hide M.Flush, M.Owner;
      next := cur;
      var fieldStart := FindFieldStart(i);
      if fieldStart < 0 {
        FlushField(cur);
      } else if fieldStart != cur {
        FlushField(cur);
        next := fieldStart;
      }
    }

    method EraseAllUnprotected()
      requires Valid()
      modifies this, ascii, ebcdic, ebcdicModified
      ensures Valid() && Snap() == M.EraseAllUnprotected(old(Snap()), codec)
    {
      if fieldCount <= 0 {
        return;
      }
      var currentFieldStart := -1;
      var currentRef := 0;
      for i := 0 to BUFFER_SIZE
        invariant Valid()
        invariant M.EraseFrom(Snap(), codec, i) == M.EraseFrom(old(Snap()), codec, 0)
        invariant -1 <= currentFieldStart < BUFFER_SIZE
        invariant currentFieldStart >= 0 ==> currentRef == attributeRefs[currentFieldStart]
        invariant attributeRefs[..] == old(attributeRefs[..]) && attributeObjects == old(attributeObjects)
      {
        var fieldStart := FindFieldStart(i);
        if fieldStart < 0 {
          continue;
        }
        if fieldStart != currentFieldStart {
          currentFieldStart := fieldStart;
          currentRef := attributeRefs[fieldStart];
        }
        if attributeObjects[currentRef].IsProtected() {
          continue;
        }
        SetEbcdicCharacter(i, 0x00);
      }
    }

    method SetIncomingCommandByte(b: bv8)
      requires Valid()
      modifies this
      ensures Valid() && Snap() == M.SetCommand(old(Snap()), b)
    {
      cmd := Some(b);
    }

    method SetIncomingWriteControlCharacterByte(b: bv8)
      requires Valid()
      modifies this
      ensures Valid() && Snap() == M.SetWcc(old(Snap()), b)
    {
      wcc := Some(b);
    }

    method SetAidKey(key: Option<int>)
      requires Valid()
      modifies this
      ensures Valid() && Snap() == M.SetAidKey(old(Snap()), key)
    {
      ClearPreCommandCounts();
      cmdKey := key;
    }

    method IncOrderCount()
      requires Valid()
      modifies this
      ensures Valid() && Snap() == M.IncOrderCount(old(Snap()))
    {
      orderCount := orderCount + 1;
    }

    method HasFields() returns (b: bool)
      requires Valid()
      ensures b <==> Snap().fieldCount > 0
      ensures !b ==> forall i :: 0 <= i < BUFFER_SIZE ==> !Snap().starts[i]
    {
      b := fieldCount > 0;
    }

    /**
     * `signalEor()`: returns whether the waiting reader is woken; otherwise
     * `ack` is counted up.
     */
    method SignalEor() returns (signalled: bool)
      requires Valid()
      modifies this
      ensures Valid() && (Snap(), signalled) == M.SignalEor(old(Snap()))
    {
      if cmd.None? || cmdKey.None?
         || (wcc.Some? && wcc.value & WCC_START_PRINTER != 0)
         || ack > 0 || ignoreAckCount
         || (orderCount > 0 && ebcdicCount > 1)
         || (orderCount == 0 && M.IsShortReadKey(cmdKey.value))
      {
        return true;
      }
      ack := ack + 1;
      return false;
    }

    method SetEbcdicCharacter(position: int, b: bv8)
      requires Valid()
      modifies this, ascii, ebcdic, ebcdicModified
      ensures Valid() && Snap() == M.SetEbcdicCharacter(old(Snap()), codec, position, b)
    {
      hide FieldScan.FindFieldStart;
      ebcdicCount := ebcdicCount + 1;
      if 0 <= position < BUFFER_SIZE {
        ebcdic[position] := b;
        ascii[position] := codec.toAscii(b);
        assert fieldStarts[..] == old(fieldStarts[..]) && attributeRefs[..] == old(attributeRefs[..]);
        var sf := FindFieldStart(position);
        var attribute := GetAttribute(sf);
        if attribute.modified {
          ebcdicModified[position] := true;
        }
      }
    }

    method SetAsciiCharacter(position: int, c: char)
      requires Valid()
      modifies this, ascii, ebcdic, ebcdicModified
      ensures Valid() && Snap() == M.SetAsciiCharacter(old(Snap()), codec, position, c)
    {
      if 0 <= position < BUFFER_SIZE {
        ascii[position] := c;
        ebcdic[position] := codec.toEbcdic(c);
        ebcdicModified[position] := true;
        var fieldStart := FindFieldStart(position);
        if fieldStart >= 0 {
          var k := attributeRefs[fieldStart];
          attributeObjects := attributeObjects[k := attributeObjects[k].WithModified(true)];
        }
      }
    }

    method GetAsciiCharacter(position: int) returns (c: char)
      requires Valid()
      ensures 0 <= position < BUFFER_SIZE ==> c == Snap().ascii[position]
      ensures !(0 <= position < BUFFER_SIZE) ==> c == ' '
    {
      c := if 0 <= position < BUFFER_SIZE then ascii[position] else ' ';
    }

    /** Off screen this reads an EBCDIC space (0x40), unlike the 0x00 `clear` stores. */
    method GetEbcdicByte(position: int) returns (b: bv8)
      requires Valid()
      ensures 0 <= position < BUFFER_SIZE ==> b == Snap().ebcdic[position]
      ensures !(0 <= position < BUFFER_SIZE) ==> b == 0x40
    {
      b := if 0 <= position < BUFFER_SIZE then ebcdic[position] else 0x40;
    }

    method SetAttribute(position: int, b: bv8)
      requires Valid()
      modifies this, attributeRefs
      ensures Valid() && Snap() == M.SetAttribute(old(Snap()), position, b)
    {
      if 0 <= position < BUFFER_SIZE {
        attributeRefs[position] := |attributeObjects|;
        attributeObjects := attributeObjects + [Parse(b)];
      }
    }

    method GetAttribute(position: int) returns (a: FieldAttribute)
      requires Valid()
      ensures a == M.Attr(Snap(), position)
    {
      a := if 0 <= position < BUFFER_SIZE then attributeObjects[attributeRefs[position]] else Default();
    }

    /** `getAttributeAt(p)`: the attribute of the field owning `p`. */
    method GetAttributeAt(position: int) returns (a: FieldAttribute)
      requires Valid() && -1 <= position < BUFFER_SIZE
      ensures a == M.Attr(Snap(), M.Owner(Snap(), position))
    {
      var fieldStart := FindFieldStart(position);
      a := GetAttribute(fieldStart);
    }

    method SetFieldStart(position: int, isFieldStart: bool)
      requires Valid()
      modifies this, fieldStarts
      ensures Valid() && Snap() == M.SetFieldStart(old(Snap()), position, isFieldStart)
    {
      if 0 <= position < BUFFER_SIZE {
        if isFieldStart {
          fieldCount := fieldCount + 1;
        }
        fieldStarts[position] := isFieldStart;
      }
    }

    method IsFieldStart(position: int) returns (b: bool)
      requires Valid()
      ensures b <==> 0 <= position < BUFFER_SIZE && Snap().starts[position]
    {
      b := 0 <= position < BUFFER_SIZE && fieldStarts[position];
    }

    method IsProtected(position: int) returns (b: bool)
      requires Valid()
      ensures b == M.IsProtected(Snap(), position)
    {
      if !(0 <= position < BUFFER_SIZE) {
        return true;
      }
      var fieldPos := FindFieldStart(position);
      if fieldPos >= 0 {
        var owner := FindFieldStart(fieldPos);
        return attributeObjects[attributeRefs[owner]].IsProtected();
      }
      return false;
    }

    method IsEbcdicModified(position: int) returns (b: bool)
      requires Valid()
      ensures b <==> 0 <= position < BUFFER_SIZE && Snap().ebcdicModified[position]
    {
      b := 0 <= position < BUFFER_SIZE && ebcdicModified[position];
    }

    /** `findFieldStart(p)`: scan down from `p`, then down from the end of the buffer to just above `p`. */
    method FindFieldStart(position: int) returns (r: int)
      requires Valid() && -1 <= position < BUFFER_SIZE
      ensures r == M.Owner(Snap(), position)
    {
      var i := position;
      while i >= 0
        invariant -1 <= i <= position
        invariant forall j :: i < j <= position ==> !fieldStarts[j]
      {
        if fieldStarts[i] {
          return i;
        }
        i := i - 1;
      }
      i := BUFFER_SIZE - 1;
      while i > position
        invariant position <= i < BUFFER_SIZE
        invariant forall j :: i < j < BUFFER_SIZE ==> !fieldStarts[j]
      {
        if fieldStarts[i] {
          return i;
        }
        i := i - 1;
      }
      return -1;
    }

    /** `findNextField(sp)`: scan up from `sp + 1`, then wrap round over `0..sp`. */
    method FindNextField(startPosition: int) returns (r: int)
      requires Valid() && -1 <= startPosition < BUFFER_SIZE
      ensures r == M.FindNextField(Snap(), startPosition)
    {
      if fieldCount <= 0 {
        return -1;
      }
      var i := startPosition + 1;
      while i < BUFFER_SIZE
        invariant startPosition + 1 <= i <= BUFFER_SIZE
        invariant forall j :: startPosition + 1 <= j < i ==> !fieldStarts[j]
      {
        if fieldStarts[i] {
          return i;
        }
        i := i + 1;
      }
      i := 0;
      while i <= startPosition
        invariant 0 <= i <= startPosition + 1
        invariant forall j :: 0 <= j < i ==> !fieldStarts[j]
      {
        if fieldStarts[i] {
          return i;
        }
        i := i + 1;
      }
      return startPosition;
    }

    /** The test of both unprotected-field scans: a field start whose next cell is not protected. */
    method QualifiesAsUnprotectedStart(i: int) returns (b: bool)
      requires Valid() && 0 <= i < BUFFER_SIZE
      ensures b == M.UnprotectedStarts(Snap())[i]
    {
      var isProtected := IsProtected(i + 1);
      b := fieldStarts[i] && !isProtected;
    }

    /** `findNextUnprotectedField(sp)`: like `findNextField`, for starts whose next cell is unprotected. */
    method FindNextUnprotectedField(startPosition: int) returns (r: int)
      requires Valid() && -1 <= startPosition < BUFFER_SIZE
      ensures r == M.FindNextUnprotectedField(Snap(), startPosition)
    {
      if fieldCount <= 0 {
        return -1;
      }
      ghost var flags := M.UnprotectedStarts(Snap());
      var i := startPosition + 1;
      while i < BUFFER_SIZE
        invariant startPosition + 1 <= i <= BUFFER_SIZE && Snap() == old(Snap())
        invariant FieldScan.FirstIn(flags, i, BUFFER_SIZE) == FieldScan.FirstIn(flags, startPosition + 1, BUFFER_SIZE)
      {
        var qualifies := QualifiesAsUnprotectedStart(i);
        if qualifies {
          return i;
        }
        i := i + 1;
      }
      i := 0;
      while i <= startPosition
        invariant 0 <= i <= startPosition + 1 && Snap() == old(Snap())
        invariant FieldScan.FirstIn(flags, i, startPosition + 1) == FieldScan.FirstIn(flags, 0, startPosition + 1)
      {
        var qualifies := QualifiesAsUnprotectedStart(i);
        if qualifies {
          return i;
        }
        i := i + 1;
      }
      return startPosition;
    }

    /**
     * `findPreviousUnprotectedField(sp)`: from the start of the field owning
     * `sp`, scan down, then wrap round from the end of the buffer.
     */
    method FindPreviousUnprotectedField(startPosition: int) returns (r: int)
      requires Valid() && -1 <= startPosition < BUFFER_SIZE
      ensures r == M.FindPreviousUnprotectedField(Snap(), startPosition)
    {
      if fieldCount <= 0 {
        return -1;
      }
      var currentFieldStart := FindFieldStart(startPosition);
      if currentFieldStart == -1 {
        return startPosition;
      }
      ghost var flags := M.UnprotectedStarts(Snap());
      var i := currentFieldStart - 1;
      while i >= 0
        invariant -1 <= i < currentFieldStart && Snap() == old(Snap())
        invariant FieldScan.LastIn(flags, 0, i + 1) == FieldScan.LastIn(flags, 0, currentFieldStart)
      {
        var qualifies := QualifiesAsUnprotectedStart(i);
        if qualifies {
          return i;
        }
        i := i - 1;
      }
      i := BUFFER_SIZE - 1;
      while i > currentFieldStart
        invariant currentFieldStart <= i < BUFFER_SIZE && Snap() == old(Snap())
        invariant FieldScan.LastIn(flags, currentFieldStart + 1, i + 1)
               == FieldScan.LastIn(flags, currentFieldStart + 1, BUFFER_SIZE)
      {
        var qualifies := QualifiesAsUnprotectedStart(i);
        if qualifies {
          return i;
        }
        i := i - 1;
      }
      return startPosition;
    }

    method SetCursorPosition(position: int)
      requires Valid()
      modifies this
      ensures Valid() && Snap() == M.SetCursor(old(Snap()), position)
    {
      if 0 <= position < BUFFER_SIZE {
        cursorPosition := position;
      }
    }

    method SetCursorRowCol(row: int, col: int)
      requires Valid()
      modifies this
      ensures Valid() && Snap() == M.SetCursorRowCol(old(Snap()), row, col)
    {
      var pos := BufferPositions.FromRowCol(row, col);
      if pos.IsValid() {
        cursorPosition := pos.position;
      }
    }

    /**
     * `string(start, length)`: the characters of an on-screen window, else,
     * cell by cell, a blank for every cell off screen.
     */
    method StringAt(start: int, length: int) returns (r: seq<char>)
      requires Valid()
      ensures r == M.StringAt(Snap(), start, length)
    {
      if 0 <= start && 0 <= length && start + length <= BUFFER_SIZE {
        return ascii[start..start + length];
      }
      r := [];
      var i := start;
      while i < start + length
        invariant length >= 0 ==> start <= i <= start + length
        invariant length < 0 ==> i == start
        invariant |r| == i - start
        invariant forall k :: 0 <= k < |r| ==>
          r[k] == if 0 <= start + k < BUFFER_SIZE then ascii[start + k] else ' '
      {
        r := r + [if 0 <= i < BUFFER_SIZE then ascii[i] else ' '];
        i := i + 1;
      }
    }

    /** `string(row)`. */
    method RowString(row: int) returns (r: seq<char>)
      requires Valid()
      ensures r == M.RowString(Snap(), row)
    {
      r := StringAt(row * SCREEN_WIDTH, SCREEN_WIDTH);
    }
  }
}
