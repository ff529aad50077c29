/**
 * The `Buffer` call sequences both decoders issue for the WCC and for each
 * order once its parameter bytes are in hand, proved against `Orders`.
 */
module BufferOrders {
  import opened Tn3270Constants
  import opened ScreenBuffer
  import M = ScreenModel
  import O = Orders

  /** A data byte: written at the cursor, which then moves on. */
  method WriteCharacter(buffer: Buffer, b: bv8)
    requires buffer.Valid()
    modifies buffer.Repr()
    ensures buffer.Valid() && buffer.Snap() == O.WriteCharacter(old(buffer.Snap()), buffer.codec, b)
  {
    var currentPos := buffer.cursorPosition;
    buffer.SetEbcdicCharacter(currentPos, b);
    buffer.SetCursorPosition(O.NextCursor(currentPos));
  }

  /** SF/SFE: the cursor cell becomes a field start; its position is returned. */
  method BeginField(buffer: Buffer) returns (p: int)
    requires buffer.Valid()
    modifies buffer.Repr()
    ensures buffer.Valid() && buffer.Snap() == O.BeginField(old(buffer.Snap()))
    ensures p == old(buffer.Snap()).cursor
  {
    p := buffer.cursorPosition;
    buffer.SetFieldStart(p, true);
  }

  /** One type/value pair of SFE, SA or MF applied at cell `p`. */
  method ApplyPair(buffer: Buffer, p: int, attrType: bv8, value: bv8)
    requires buffer.Valid()
    modifies buffer.Repr()
    ensures buffer.Valid() && buffer.Snap() == O.ApplyPairs(old(buffer.Snap()), p, [(attrType, value)])
  {
    assert [(attrType, value)][..0] == [];
    if attrType == BASIC_ATTRIBUTE {
      buffer.SetAttribute(p, value);
    }
  }

  /** SF/SFE: the field's own cell shows a blank and the cursor moves past it. */
  method FinishField(buffer: Buffer, p: int)
    requires buffer.Valid() && M.ValidPosition(p)
    modifies buffer.Repr()
    ensures buffer.Valid() && buffer.Snap() == O.FinishField(old(buffer.Snap()), buffer.codec, p)
  {
    buffer.SetEbcdicCharacter(p, 0x40);
    buffer.SetCursorPosition(O.NextCursor(p));
  }

  /** SBA once the address is decoded. */
  method SetBufferAddress(buffer: Buffer, address: int)
    requires buffer.Valid() && 0 <= address
    modifies buffer.Repr()
    ensures buffer.Valid() && buffer.Snap() == O.SetBufferAddress(old(buffer.Snap()), address)
  {
    if address >= 0 && address < BUFFER_SIZE {
      buffer.SetCursorPosition(address);
    }
  }

  /** PT. */
  method ProgramTab(buffer: Buffer)
    requires buffer.Valid()
    modifies buffer.Repr()
    ensures buffer.Valid() && buffer.Snap() == O.ProgramTab(old(buffer.Snap()))
  {
    var currentPos := buffer.cursorPosition;
    var nextField := buffer.FindNextUnprotectedField(currentPos);
    buffer.SetCursorPosition(nextField + 1);
  }

  /**
   * RA once address and byte are decoded, with the loop entered only for an
   * on-screen address (see `Orders.RepeatToAddress`).
   */
  method RepeatToAddress(buffer: Buffer, address: int, character: bv8)
    requires buffer.Valid() && 0 <= address
    modifies buffer.Repr()
    ensures buffer.Valid() && buffer.Snap() == O.RepeatToAddress(old(buffer.Snap()), buffer.codec, address, character)
  {
    if address >= BUFFER_SIZE {
      return;
    }
    var currentPos := buffer.cursorPosition;
    ghost var s0 := buffer.Snap();
    while currentPos != address && currentPos < BUFFER_SIZE
      invariant buffer.Valid() && 0 <= currentPos < BUFFER_SIZE
      invariant buffer.Snap().cursor == s0.cursor
      invariant O.RepeatCells(buffer.Snap(), buffer.codec, currentPos, O.Distance(currentPos, address), character)
             == O.RepeatCells(s0, buffer.codec, s0.cursor, O.Distance(s0.cursor, address), character)
      decreases O.Distance(currentPos, address)
    {
      O.DistanceStep(currentPos, address);
      buffer.SetEbcdicCharacter(currentPos, character);
      currentPos := (currentPos + 1) % BUFFER_SIZE;
    }
    buffer.SetCursorPosition(currentPos);
  }

  /** One cell of EUA. */
  method EraseCell(buffer: Buffer, p: int)
    requires buffer.Valid()
    modifies buffer.Repr()
    ensures buffer.Valid() && buffer.Snap() == O.EraseCell(old(buffer.Snap()), buffer.codec, p)
  {
    var isProtected := buffer.IsProtected(p);
    if !isProtected {
      buffer.SetEbcdicCharacter(p, 0x00);
    }
  }

  /** EUA once the address is decoded, as written: no wrap at the end of the buffer. */
  method EraseUntilAddress(buffer: Buffer, address: int)
    requires buffer.Valid()
    modifies buffer.Repr()
    ensures buffer.Valid() && buffer.Snap() == O.EraseUntilAddress(old(buffer.Snap()), buffer.codec, address)
  {
    // Each step needs only the contracts of `EraseCell` and `EraseCellsStep`.
    hide O.EraseCell, M.SetEbcdicCharacter, M.IsProtected;
    var currentPos := buffer.cursorPosition;
    ghost var s0 := buffer.Snap();
    ghost var e := O.EraseEnd(currentPos, address);
    ghost var target := O.EraseCells(s0, buffer.codec, currentPos, e);
    while currentPos != address && currentPos < BUFFER_SIZE
      invariant buffer.Valid() && s0.cursor <= currentPos <= e
      invariant currentPos < e <==> currentPos != address && currentPos < BUFFER_SIZE
      invariant O.EraseCells(buffer.Snap(), buffer.codec, currentPos, e) == target
      decreases BUFFER_SIZE - currentPos
    {
      ghost var before := buffer.Snap();
      O.EraseCellsStep(before, buffer.codec, currentPos, e);
      EraseCell(buffer, currentPos);
      ghost var after := buffer.Snap();
      assert after == O.EraseCell(before, buffer.codec, currentPos);
      assert O.EraseCells(after, buffer.codec, currentPos + 1, e) == target;
      currentPos := currentPos + 1;
    }
    assert currentPos == e;
    assert target == O.EraseUntilAddress(s0, buffer.codec, address);
  }

  /** The WCC step of `processWriteControlCharacter`, after the command is known. */
  method ApplyWriteControlCharacter(buffer: Buffer, command: bv8, wcc: bv8)
    requires buffer.Valid()
    modifies buffer.Repr()
    ensures buffer.Valid() && buffer.Snap() == O.ApplyWcc(old(buffer.Snap()), buffer.codec, command, wcc)
  {
    buffer.SetIncomingWriteControlCharacterByte(wcc);
    if command == ERASE_WRITE || command == ERASE_WRITE_ALTERNATE {
      buffer.Clear();
    } else if command == WRITE {
      if wcc & WCC_ERASE_ALL_UNPROTECTED != 0 {
        buffer.ResetMdtFlags();
        buffer.EraseAllUnprotected();
      }
      if wcc & WCC_START_PRINTER != 0 {
        buffer.CopyDataToBackground();
      }
    }
  }
}
