/**
 * The screen effect of the 3270 write control character and of every order
 * of a Write, shared by the lenient decoder (`DataStreamParser.java`) and the
 * strict one (`DataStreamParser2.java`).  The two decoders differ only in how
 * they obtain the order's parameter bytes; what they then do to the buffer is
 * the same sequence of `Buffer` calls, stated here once over `ScreenState`.
 */
module Orders {
  import opened Wrappers
  import opened Tn3270Constants
  import opened FieldAttributes
  import opened ScreenModel
  import ScreenLemmas

  /** `decodeAddress`: the low six bits of each byte form a 12-bit address. */
  function DecodeAddress(b1: bv8, b2: bv8): (a: int)
    ensures 0 <= a < 4096
    ensures a / 64 == (b1 & 0x3F) as int && a % 64 == (b2 & 0x3F) as int
  {
    (b1 & 0x3F) as int * 64 + (b2 & 0x3F) as int
  }

  /** The six command codes `isValid3270Command` accepts. */
  predicate IsValidCommand(c: bv8) {
    c == WRITE || c == ERASE_WRITE || c == ERASE_WRITE_ALTERNATE
    || c == READ_BUFFER || c == READ_MODIFIED || c == READ_MODIFIED_ALL
  }

  /**
   * Command normalisation: a byte below 0xF0 gets 0xF0 added in byte
   * arithmetic.  Only bytes below 0x10 land in 0xF0-0xFF; the others wrap.
   */
  function NormalizeCommand(b: bv8): (c: bv8)
    ensures b < 0xF0 ==> c as int == (b as int + 0xF0) % 256
    ensures b >= 0xF0 ==> c == b
    ensures c >= 0xF0 <==> (b < 0x10 || b >= 0xF0)
  {
    if b < 0xF0 then b + 0xF0 else b
  }

  /**
   * The raw bytes a decoder accepts as a command.  The Erase/Write Alternate
   * code 0x7E itself normalises to Read Modified All (0x6E); Erase/Write
   * Alternate is reached only from 0x8E.
   */
  lemma AcceptedCommandBytes(b: bv8)
    ensures IsValidCommand(NormalizeCommand(b)) <==>
      b in {0x01, 0x02, 0x05, 0x06, 0x7E, 0x8E, 0xF1, 0xF2, 0xF5, 0xF6}
    ensures NormalizeCommand(ERASE_WRITE_ALTERNATE) == READ_MODIFIED_ALL
    ensures NormalizeCommand(0x8E) == ERASE_WRITE_ALTERNATE
  {
  }

  function Min(a: int, b: int): int {
    if a < b then a else b
  }

  /** The cursor after writing one cell: `min(p + 1 < size ? p + 1 : 0, size - 1)`. */
  function NextCursor(p: int): (r: int)
    ensures 0 <= p < BUFFER_SIZE ==> r == (p + 1) % BUFFER_SIZE
  {
    var n := p + 1;
    Min(if n < BUFFER_SIZE then n else 0, BUFFER_SIZE - 1)
  }

  /** Everything but the cell contents, their counters and the cursor is as before. */
  predicate OnlyCellsAndCursor(s: ScreenState, r: ScreenState) {
    r == s.(ascii := r.ascii, ebcdic := r.ebcdic, ebcdicModified := r.ebcdicModified,
            ebcdicCount := r.ebcdicCount, cursor := r.cursor)
  }

  /** `processCharacter` / `processDataByte`: the byte goes to the cursor cell, the cursor moves on, wrapping. */
  function WriteCharacter(s: ScreenState, codec: Codec, b: bv8): (r: ScreenState)
    requires s.WellFormed()
    ensures r.WellFormed() && OnlyCellsAndCursor(s, r)
    ensures r.ebcdic == s.ebcdic[s.cursor := b] && r.ascii == s.ascii[s.cursor := codec.toAscii(b)]
    ensures forall q :: 0 <= q < BUFFER_SIZE && q != s.cursor ==> r.ebcdicModified[q] == s.ebcdicModified[q]
    ensures r.cursor == (s.cursor + 1) % BUFFER_SIZE
    ensures r.ebcdicCount == s.ebcdicCount + 1
  {
    SetCursor(SetEbcdicCharacter(s, codec, s.cursor, b), NextCursor(s.cursor))
  }

  /** The first step of SF and SFE: the cursor cell becomes a field start. */
  function BeginField(s: ScreenState): (r: ScreenState)
    requires s.WellFormed()
    ensures r.WellFormed()
  {
    SetFieldStart(s, s.cursor, true)
  }

  /** The last step of SF and SFE: the field's own cell shows a blank (0x40) and the cursor moves past it. */
  function FinishField(s: ScreenState, codec: Codec, p: int): (r: ScreenState)
    requires s.WellFormed() && ValidPosition(p)
    ensures r.WellFormed()
  {
    SetCursor(SetEbcdicCharacter(s, codec, p, 0x40), NextCursor(p))
  }

  /** The index of the last attribute pair of type 0xC0, or -1 when there is none. */
  function LastBasic(pairs: seq<(bv8, bv8)>): (k: int)
    ensures -1 <= k < |pairs|
    ensures k >= 0 ==> pairs[k].0 == BASIC_ATTRIBUTE
    ensures forall j :: k < j < |pairs| ==> pairs[j].0 != BASIC_ATTRIBUTE
  {
    if |pairs| == 0 then -1
    else if pairs[|pairs| - 1].0 == BASIC_ATTRIBUTE then |pairs| - 1
    else LastBasic(pairs[..|pairs| - 1])
  }

  /**
   * The type/value pairs of SFE, SA and MF applied in order at cell `p`: each
   * pair of type 0xC0 gives the cell a fresh attribute, so the last one wins;
   * pairs of any other type are ignored.
   */
  function ApplyPairs(s: ScreenState, p: int, pairs: seq<(bv8, bv8)>): (r: ScreenState)
    requires s.WellFormed()
    ensures r.WellFormed()
    ensures r == s.(attrRef := r.attrRef, attrs := r.attrs)
    ensures forall q :: ValidPosition(q) && q != p ==> Attr(r, q) == Attr(s, q)
    ensures ValidPosition(p) && LastBasic(pairs) >= 0 ==> Attr(r, p) == Parse(pairs[LastBasic(pairs)].1)
    ensures LastBasic(pairs) == -1 ==> r == s
    decreases |pairs|
  {
    if |pairs| == 0 then s
    else
      var earlier := ApplyPairs(s, p, pairs[..|pairs| - 1]);
      var last := pairs[|pairs| - 1];
      if last.0 == BASIC_ATTRIBUTE then SetAttribute(earlier, p, last.1) else earlier
  }

  /** `k` consecutive type/value pairs of `d` starting at `pos`. */
  function Pairs(d: seq<bv8>, pos: int, k: int): (r: seq<(bv8, bv8)>)
    requires 0 <= pos && 0 <= k && pos + 2 * k <= |d|
    ensures |r| == k && forall j :: 0 <= j < k ==> r[j] == (d[pos + 2 * j], d[pos + 2 * j + 1])
  {
    seq(k, j requires 0 <= j < k => (d[pos + 2 * j], d[pos + 2 * j + 1]))
  }

  /** Applying one more pair read from the input extends the pairs applied so far. */
  lemma ApplyPairsNext(s: ScreenState, p: int, d: seq<bv8>, pos: int, k: int)
    requires s.WellFormed() && 0 <= pos && 0 <= k && pos + 2 * (k + 1) <= |d|
    ensures ApplyPairs(s, p, Pairs(d, pos, k + 1))
         == ApplyPairs(ApplyPairs(s, p, Pairs(d, pos, k)), p, [(d[pos + 2 * k], d[pos + 2 * k + 1])])
  {
    assert Pairs(d, pos, k + 1)[..k] == Pairs(d, pos, k);
    assert [(d[pos + 2 * k], d[pos + 2 * k + 1])][..0] == [];
  }

  /** SF: the cursor cell starts a field with attribute `attr`, shows a blank, and the cursor moves on. */
  function StartField(s: ScreenState, codec: Codec, attr: bv8): (r: ScreenState)
    requires s.WellFormed()
    ensures r.WellFormed()
    ensures r.starts == s.starts[s.cursor := true] && r.fieldCount == s.fieldCount + 1
    ensures Attr(r, s.cursor) == Parse(attr)
    ensures forall q :: ValidPosition(q) && q != s.cursor ==> Attr(r, q) == Attr(s, q)
    ensures r.ebcdic == s.ebcdic[s.cursor := 0x40]
    ensures r.cursor == (s.cursor + 1) % BUFFER_SIZE
    ensures r.orderCount == s.orderCount
  {
    FinishField(SetAttribute(BeginField(s), s.cursor, attr), codec, s.cursor)
  }

  /**
   * SFE: like SF, but the attribute comes from the pairs; with no pair of
   * type 0xC0 the new field keeps the attribute object the cell had.
   */
  function StartFieldExtended(s: ScreenState, codec: Codec, pairs: seq<(bv8, bv8)>): (r: ScreenState)
    requires s.WellFormed()
    ensures r.WellFormed()
    ensures r.starts == s.starts[s.cursor := true] && r.fieldCount == s.fieldCount + 1
    ensures LastBasic(pairs) >= 0 ==> Attr(r, s.cursor) == Parse(pairs[LastBasic(pairs)].1)
    ensures LastBasic(pairs) == -1 ==> Attr(r, s.cursor) == Attr(s, s.cursor)
    ensures forall q :: ValidPosition(q) && q != s.cursor ==> Attr(r, q) == Attr(s, q)
    ensures r.ebcdic == s.ebcdic[s.cursor := 0x40]
    ensures r.cursor == (s.cursor + 1) % BUFFER_SIZE
    ensures r.orderCount == s.orderCount
  {
    FinishField(ApplyPairs(BeginField(s), s.cursor, pairs), codec, s.cursor)
  }

  /** SF is SFE with the single pair (0xC0, attr). */
  lemma StartFieldIsExtendedWithOnePair(s: ScreenState, codec: Codec, attr: bv8)
    requires s.WellFormed()
    ensures StartField(s, codec, attr) == StartFieldExtended(s, codec, [(BASIC_ATTRIBUTE, attr)])
  {
    var pairs := [(BASIC_ATTRIBUTE, attr)];
    assert pairs[..0] == [];
  }

  /** SA: a pair of type 0xC0 gives the cursor cell a fresh attribute; any other type changes nothing. */
  function SetAttributeOrder(s: ScreenState, attrType: bv8, value: bv8): (r: ScreenState)
    requires s.WellFormed()
    ensures r.WellFormed()
    ensures attrType == BASIC_ATTRIBUTE ==> Attr(r, s.cursor) == Parse(value)
    ensures attrType != BASIC_ATTRIBUTE ==> r == s
    ensures forall q :: ValidPosition(q) && q != s.cursor ==> Attr(r, q) == Attr(s, q)
    ensures r == s.(attrRef := r.attrRef, attrs := r.attrs)
  {
    ApplyPairs(s, s.cursor, [(attrType, value)])
  }

  /** MF: the pairs applied at the cursor cell; the cursor does not move. */
  function ModifyField(s: ScreenState, pairs: seq<(bv8, bv8)>): (r: ScreenState)
    requires s.WellFormed()
    ensures r.WellFormed()
    ensures LastBasic(pairs) >= 0 ==> Attr(r, s.cursor) == Parse(pairs[LastBasic(pairs)].1)
    ensures LastBasic(pairs) == -1 ==> r == s
    ensures forall q :: ValidPosition(q) && q != s.cursor ==> Attr(r, q) == Attr(s, q)
    ensures r == s.(attrRef := r.attrRef, attrs := r.attrs)
  {
    ApplyPairs(s, s.cursor, pairs)
  }

  /** SBA: the cursor moves to the address if it is on screen; nothing else changes. */
  function SetBufferAddress(s: ScreenState, a: int): (r: ScreenState)
    requires s.WellFormed() && 0 <= a
    ensures r.WellFormed() && r == s.(cursor := r.cursor)
    ensures a < BUFFER_SIZE ==> r.cursor == a
    ensures a >= BUFFER_SIZE ==> r == s
  {
    if a < BUFFER_SIZE then SetCursor(s, a) else s
  }

  /**
   * PT: the cursor moves one past the next unprotected field start (to 0
   * when there are no fields, and one past itself when the search finds no
   * other start); a start at the last cell leaves it in place.
   */
  function ProgramTab(s: ScreenState): (r: ScreenState)
    requires s.WellFormed()
    ensures r.WellFormed() && r == s.(cursor := r.cursor)
    ensures s.fieldCount == 0 ==> r.cursor == 0
    ensures s.fieldCount > 0 && FindNextUnprotectedField(s, s.cursor) != s.cursor ==>
      var f := FindNextUnprotectedField(s, s.cursor);
      s.starts[f] && !IsProtected(s, f + 1) && (f + 1 < BUFFER_SIZE ==> r.cursor == f + 1)
    ensures s.fieldCount > 0 && FindNextUnprotectedField(s, s.cursor) == s.cursor < BUFFER_SIZE - 1 ==>
      r.cursor == s.cursor + 1
    ensures FindNextUnprotectedField(s, s.cursor) == BUFFER_SIZE - 1 ==> r == s
  {
    SetCursor(s, FindNextUnprotectedField(s, s.cursor) + 1)
  }

  /** The number of cyclic steps from `from` forward to `to`. */
  function Distance(from: int, to: int): (n: int)
    requires ValidPosition(from) && ValidPosition(to)
    ensures 0 <= n < BUFFER_SIZE && (from + n) % BUFFER_SIZE == to
    ensures n == 0 <==> from == to
  {
    (to - from) % BUFFER_SIZE
  }

  lemma DistanceStep(from: int, to: int)
    requires ValidPosition(from) && ValidPosition(to) && from != to
    ensures Distance((from + 1) % BUFFER_SIZE, to) == Distance(from, to) - 1
  {
  }

  /** Cell `q` is among the `n` cells from `p` iff it is `p` or among the `n - 1` cells from `p + 1`. */
  lemma RunStep(p: int, n: int, q: int)
    requires ValidPosition(p) && ValidPosition(q) && 0 < n <= BUFFER_SIZE
    ensures Distance((p + 1) % BUFFER_SIZE, q) < n - 1 <==> q != p && Distance(p, q) < n
    ensures q == p ==> Distance(p, q) < n
  {
    if q != p {
      DistanceStep(p, q);
    }
  }

  /** `n` cells written with `ch`, cyclically from `p`. */
  function RepeatCells(s: ScreenState, codec: Codec, p: int, n: int, ch: bv8): (r: ScreenState)
    requires s.WellFormed() && ValidPosition(p) && 0 <= n
    ensures r.WellFormed()
    decreases n
  {
    if n == 0 then s
    else RepeatCells(SetEbcdicCharacter(s, codec, p, ch), codec, (p + 1) % BUFFER_SIZE, n - 1, ch)
  }

  /** The first step of `RepeatCells`. */
  lemma RepeatCellsStep(s: ScreenState, codec: Codec, p: int, n: int, ch: bv8)
    requires s.WellFormed() && ValidPosition(p) && 0 < n
    ensures RepeatCells(s, codec, p, n, ch)
         == RepeatCells(SetEbcdicCharacter(s, codec, p, ch), codec, (p + 1) % BUFFER_SIZE, n - 1, ch)
  {
  }

  lemma {:induction false} RepeatCellsOnlyCells(s: ScreenState, codec: Codec, p: int, n: int, ch: bv8)
    requires s.WellFormed() && ValidPosition(p) && 0 <= n <= BUFFER_SIZE
    ensures var r := RepeatCells(s, codec, p, n, ch);
      ScreenLemmas.OnlyCells(s, r) && r.ebcdicCount == s.ebcdicCount + n
    decreases n
  {
    hide SetEbcdicCharacter;
    if n > 0 {
      var t := SetEbcdicCharacter(s, codec, p, ch);
      var r := RepeatCells(t, codec, (p + 1) % BUFFER_SIZE, n - 1, ch);
      RepeatCellsStep(s, codec, p, n, ch);
      ScreenLemmas.SetEbcdicCharacterUpdates(s, codec, p, ch);
      RepeatCellsOnlyCells(t, codec, (p + 1) % BUFFER_SIZE, n - 1, ch);
      ScreenLemmas.OnlyCellsTransitive(s, t, r);
    }
  }

  lemma {:induction false} RepeatCellsAt(s: ScreenState, codec: Codec, p: int, n: int, ch: bv8, q: int)
    requires s.WellFormed() && ValidPosition(p) && 0 <= n <= BUFFER_SIZE && ValidPosition(q)
    ensures var r := RepeatCells(s, codec, p, n, ch);
      r.ebcdic[q] == (if Distance(p, q) < n then ch else s.ebcdic[q])
      && r.ascii[q] == (if Distance(p, q) < n then codec.toAscii(ch) else s.ascii[q])
    decreases n
  {
    hide SetEbcdicCharacter;
    if n > 0 {
      var t := SetEbcdicCharacter(s, codec, p, ch);
      var r := RepeatCells(t, codec, (p + 1) % BUFFER_SIZE, n - 1, ch);
      RepeatCellsStep(s, codec, p, n, ch);
      ScreenLemmas.SetEbcdicCharacterAt(s, codec, p, ch, q);
      RepeatCellsAt(t, codec, (p + 1) % BUFFER_SIZE, n - 1, ch, q);
      RunStep(p, n, q);
    }
  }

  lemma RepeatCellsEffect(s: ScreenState, codec: Codec, p: int, n: int, ch: bv8)
    requires s.WellFormed() && ValidPosition(p) && 0 <= n <= BUFFER_SIZE
    ensures var r := RepeatCells(s, codec, p, n, ch);
      ScreenLemmas.OnlyCells(s, r) && r.ebcdicCount == s.ebcdicCount + n
      && forall q :: 0 <= q < BUFFER_SIZE ==>
           r.ebcdic[q] == (if Distance(p, q) < n then ch else s.ebcdic[q])
           && r.ascii[q] == (if Distance(p, q) < n then codec.toAscii(ch) else s.ascii[q])
  {
    RepeatCellsOnlyCells(s, codec, p, n, ch);
    forall q | 0 <= q < BUFFER_SIZE
      ensures var r := RepeatCells(s, codec, p, n, ch);
        r.ebcdic[q] == (if Distance(p, q) < n then ch else s.ebcdic[q])
        && r.ascii[q] == (if Distance(p, q) < n then codec.toAscii(ch) else s.ascii[q])
    {
      RepeatCellsAt(s, codec, p, n, ch, q);
    }
  }


  /**
   * RA with the loop bounded as intended: for an on-screen address, every
   * cell from the cursor cyclically up to (not including) the address gets
   * the byte and the cursor moves to the address; an address off screen is
   * ignored, like SBA ignores one.
   */
  function RepeatToAddress(s: ScreenState, codec: Codec, a: int, ch: bv8): (r: ScreenState)
    requires s.WellFormed() && 0 <= a
    ensures r.WellFormed()
    ensures OnlyCellsAndCursor(s, r)
    ensures a >= BUFFER_SIZE ==> r == s
    ensures a < BUFFER_SIZE ==> r.cursor == a
  {
    if a >= BUFFER_SIZE then s
    else
      RepeatCellsEffect(s, codec, s.cursor, Distance(s.cursor, a), ch);
      SetCursor(RepeatCells(s, codec, s.cursor, Distance(s.cursor, a), ch), a)
  }

  lemma RepeatToAddressEffect(s: ScreenState, codec: Codec, a: int, ch: bv8)
    requires s.WellFormed() && 0 <= a < BUFFER_SIZE
    ensures var r := RepeatToAddress(s, codec, a, ch);
      OnlyCellsAndCursor(s, r) && r.cursor == a
      && r.ebcdicCount == s.ebcdicCount + Distance(s.cursor, a)
      && (forall q :: 0 <= q < BUFFER_SIZE && Distance(s.cursor, q) < Distance(s.cursor, a) ==>
            r.ebcdic[q] == ch && r.ascii[q] == codec.toAscii(ch))
      && (forall q :: 0 <= q < BUFFER_SIZE && Distance(s.cursor, q) >= Distance(s.cursor, a) ==>
            r.ebcdic[q] == s.ebcdic[q] && r.ascii[q] == s.ascii[q])
  {
    RepeatCellsEffect(s, codec, s.cursor, Distance(s.cursor, a), ch);
  }

  /**
   * RA as `processRepeatToAddress` writes it: `while (cur != address && cur
   * < size) { set(cur); cur = (cur + 1) % size; }`, run for at most `fuel`
   * iterations; `None` means the loop has not exited.
   */
  function RepeatToAddressAsWritten(s: ScreenState, codec: Codec, cur: int, a: int, ch: bv8, fuel: nat)
    : (r: Option<ScreenState>)
    requires s.WellFormed() && 0 <= cur
    decreases fuel
  {
    if cur == a || cur >= BUFFER_SIZE then Some(SetCursor(s, cur))
    else if fuel == 0 then None
    else RepeatToAddressAsWritten(SetEbcdicCharacter(s, codec, cur, ch), codec, (cur + 1) % BUFFER_SIZE, a, ch, fuel - 1)
  }

  /** One iteration of the loop as written. */
  lemma RepeatToAddressAsWrittenStep(s: ScreenState, codec: Codec, cur: int, a: int, ch: bv8, fuel: nat)
    requires s.WellFormed() && ValidPosition(cur) && cur != a && fuel > 0
    ensures RepeatToAddressAsWritten(s, codec, cur, a, ch, fuel)
         == RepeatToAddressAsWritten(SetEbcdicCharacter(s, codec, cur, ch), codec, (cur + 1) % BUFFER_SIZE, a, ch, fuel - 1)
  {
  }

  /** With an address of 1920 or more the loop as written never exits, whatever the fuel. */
  lemma {:induction false} RepeatToAddressAsWrittenNeverExits(
    s: ScreenState, codec: Codec, cur: int, a: int, ch: bv8, fuel: nat)
    requires s.WellFormed() && ValidPosition(cur) && a >= BUFFER_SIZE
    ensures RepeatToAddressAsWritten(s, codec, cur, a, ch, fuel) == None
    decreases fuel
  {
    hide SetEbcdicCharacter;
    if fuel > 0 {
      RepeatToAddressAsWrittenNeverExits(
        SetEbcdicCharacter(s, codec, cur, ch), codec, (cur + 1) % BUFFER_SIZE, a, ch, fuel - 1);
    }
  }

  /** For an on-screen address the loop as written exits and agrees with `RepeatToAddress`. */
  lemma RepeatToAddressAsWrittenAgrees(s: ScreenState, codec: Codec, a: int, ch: bv8, fuel: nat)
    requires s.WellFormed() && 0 <= a < BUFFER_SIZE && fuel >= Distance(s.cursor, a)
    ensures RepeatToAddressAsWritten(s, codec, s.cursor, a, ch, fuel) == Some(RepeatToAddress(s, codec, a, ch))
  {
    RepeatLoopAgrees(s, codec, s.cursor, a, ch, fuel);
  }

  lemma {:induction false} RepeatLoopAgrees(s: ScreenState, codec: Codec, p: int, a: int, ch: bv8, fuel: nat)
    requires s.WellFormed() && ValidPosition(p) && 0 <= a < BUFFER_SIZE && fuel >= Distance(p, a)
    ensures RepeatToAddressAsWritten(s, codec, p, a, ch, fuel)
         == Some(SetCursor(RepeatCells(s, codec, p, Distance(p, a), ch), a))
    decreases fuel
  {
    // The proof needs only the shape of the two loops, not what one cell write does.
    hide SetEbcdicCharacter;
    if p != a {
      var t := SetEbcdicCharacter(s, codec, p, ch);
      var p' := (p + 1) % BUFFER_SIZE;
      var n := Distance(p, a);
      DistanceStep(p, a);
      RepeatToAddressAsWrittenStep(s, codec, p, a, ch, fuel);
      RepeatCellsStep(s, codec, p, n, ch);
      RepeatLoopAgrees(t, codec, p', a, ch, fuel - 1);
    }
  }

  /**
   * Where EUA's loop stops: at the address when it lies ahead of the cursor
   * on screen, otherwise at the end of the buffer (the loop does not wrap).
   */
  function EraseEnd(cursor: int, a: int): (e: int)
    requires ValidPosition(cursor)
    ensures cursor <= e <= BUFFER_SIZE
  {
    if a == cursor then cursor else if cursor < a < BUFFER_SIZE then a else BUFFER_SIZE
  }

  /** Cells `i` .. `end - 1` in order: each one not protected gets 0x00. */
  function EraseCells(s: ScreenState, codec: Codec, i: int, end: int): (r: ScreenState)
    requires s.WellFormed() && 0 <= i
    ensures r.WellFormed()
    decreases end - i
  {
    if i >= end then s
    else EraseCells(EraseCell(s, codec, i), codec, i + 1, end)
  }

  /** The first step of `EraseCells`, for loops that erase one cell at a time. */
  lemma EraseCellsStep(s: ScreenState, codec: Codec, i: int, end: int)
    requires s.WellFormed() && 0 <= i < end
    ensures EraseCells(s, codec, i, end) == EraseCells(EraseCell(s, codec, i), codec, i + 1, end)
  {
  }

  /** One cell of EUA: set to 0x00 unless it is protected. */
  function EraseCell(s: ScreenState, codec: Codec, i: int): (r: ScreenState)
    requires s.WellFormed()
    ensures r.WellFormed()
  {
    if IsProtected(s, i) then s else SetEbcdicCharacter(s, codec, i, 0x00)
  }

  lemma {:induction false} EraseCellsEffect(s: ScreenState, codec: Codec, i: int, end: int)
    requires s.WellFormed() && 0 <= i <= end <= BUFFER_SIZE
    ensures var r := EraseCells(s, codec, i, end);
      ScreenLemmas.OnlyCells(s, r)
      && forall q :: 0 <= q < BUFFER_SIZE ==>
           r.ebcdic[q] == (if i <= q < end && !IsProtected(s, q) then 0x00 else s.ebcdic[q])
    decreases end - i
  {
    hide SetEbcdicCharacter, IsProtected;
    if i < end {
      if IsProtected(s, i) {
        EraseCellsEffect(s, codec, i + 1, end);
      } else {
        var t := SetEbcdicCharacter(s, codec, i, 0x00);
        ScreenLemmas.SetEbcdicCharacterUpdates(s, codec, i, 0x00);
        ScreenLemmas.SameFieldsSameProtection(s, t);
        EraseCellsEffect(t, codec, i + 1, end);
      }
    }
  }

  /** EUA as written: unprotected cells from the cursor up to `EraseEnd` become 0x00. */
  function EraseUntilAddress(s: ScreenState, codec: Codec, a: int): (r: ScreenState)
    requires s.WellFormed()
    ensures r.WellFormed() && ScreenLemmas.OnlyCells(s, r)
  {
    EraseCellsEffect(s, codec, s.cursor, EraseEnd(s.cursor, a));
    EraseCells(s, codec, s.cursor, EraseEnd(s.cursor, a))
  }

  /**
   * EUA leaves the cursor, the protected cells and every cell outside
   * [cursor, end) alone; in particular it never wraps to the cells before the
   * cursor, even when the address lies behind it.
   */
  lemma EraseUntilAddressEffect(s: ScreenState, codec: Codec, a: int)
    requires s.WellFormed()
    ensures var r := EraseUntilAddress(s, codec, a);
      var e := EraseEnd(s.cursor, a);
      ScreenLemmas.OnlyCells(s, r)
      && (forall q :: s.cursor <= q < e && !IsProtected(s, q) ==> r.ebcdic[q] == 0x00)
      && (forall q :: 0 <= q < BUFFER_SIZE && (q < s.cursor || q >= e || IsProtected(s, q)) ==>
            r.ebcdic[q] == s.ebcdic[q])
  {
    EraseCellsEffect(s, codec, s.cursor, EraseEnd(s.cursor, a));
  }

  /**
   * `processWriteControlCharacter` after the WCC is stored: Erase/Write and
   * Erase/Write Alternate clear the buffer; Write with bit 0x40 resets the
   * MDT flags and then erases unprotected cells, and Write with bit 0x04
   * copies the screen to the background; other commands do nothing more.
   */
  function ApplyWcc(s: ScreenState, codec: Codec, command: bv8, wcc: bv8): (r: ScreenState)
    requires s.WellFormed()
    ensures r.WellFormed()
    ensures command != WRITE && command != ERASE_WRITE && command != ERASE_WRITE_ALTERNATE ==> r == s.(wcc := Some(wcc))
  {
    var stored := SetWcc(s, wcc);
    if command == ERASE_WRITE || command == ERASE_WRITE_ALTERNATE then Clear(stored)
    else if command == WRITE then
      var erased := if wcc & WCC_ERASE_ALL_UNPROTECTED != 0 then EraseAllUnprotected(ResetMdtFlags(stored), codec) else stored;
      if wcc & WCC_START_PRINTER != 0 then CopyDataToBackground(erased) else erased
    else stored
  }

  /**
   * What the WCC does: Erase/Write clears everything; Write keeps the cursor,
   * the fields and the order count, nulls the cells of unprotected fields
   * under bit 0x40, and under bit 0x04 saves the screen to the background
   * and blanks it; without either bit Write only records the WCC.
   */
  lemma ApplyWccEffect(s: ScreenState, codec: Codec, command: bv8, wcc: bv8)
    requires s.WellFormed()
    ensures var r := ApplyWcc(s, codec, command, wcc);
      r.wcc == Some(wcc) && r.cmd == s.cmd && r.cmdKey == s.cmdKey
      && ((command == ERASE_WRITE || command == ERASE_WRITE_ALTERNATE) ==>
            r.cursor == 0 && r.fieldCount == 0 && r.orderCount == 0
            && forall j :: 0 <= j < BUFFER_SIZE ==> !r.starts[j] && r.ebcdic[j] == 0x00)
      && (command == WRITE ==>
            r.cursor == s.cursor && r.starts == s.starts && r.fieldCount == s.fieldCount
            && r.orderCount == s.orderCount)
      && (command == WRITE && wcc & WCC_START_PRINTER != 0 ==>
            forall j :: 0 <= j < BUFFER_SIZE ==> r.ebcdic[j] == 0x00)
      && (command == WRITE && wcc & WCC_START_PRINTER != 0 && wcc & WCC_ERASE_ALL_UNPROTECTED == 0 ==>
            r.ebcdicBackground == s.ebcdic && r.asciiBackground == s.ascii)
      && (command == WRITE && wcc & WCC_START_PRINTER == 0 && wcc & WCC_ERASE_ALL_UNPROTECTED != 0 ==>
            forall j :: 0 <= j < BUFFER_SIZE ==>
              r.ebcdic[j] == (if InUnprotectedField(s, j) then 0x00 else s.ebcdic[j]))
      && (command == WRITE && wcc & WCC_START_PRINTER == 0 && wcc & WCC_ERASE_ALL_UNPROTECTED == 0 ==>
            r == s.(wcc := Some(wcc)))
  {
    var stored := SetWcc(s, wcc);
    if command == ERASE_WRITE || command == ERASE_WRITE_ALTERNATE {
      ScreenLemmas.ClearResets(stored);
    } else if command == WRITE {
      var erased := stored;
      if wcc & WCC_ERASE_ALL_UNPROTECTED != 0 {
        var m := ResetMdtFlags(stored);
        ScreenLemmas.ResetMdtFlagsEffect(stored);
        ScreenLemmas.EraseAllUnprotectedEffect(m, codec);
        forall j | 0 <= j < BUFFER_SIZE
          ensures InUnprotectedField(m, j) == InUnprotectedField(s, j)
        {
          var o := Owner(s, j);
          assert Owner(m, j) == o;
        }
        erased := EraseAllUnprotected(m, codec);
      }
      if wcc & WCC_START_PRINTER != 0 {
        ScreenLemmas.CopyDataToBackgroundEffect(erased);
      }
    }
  }

  /** The order codes `processWrite` dispatches on; every other byte is data. */
  predicate IsOrder(b: bv8) {
    b == SF || b == SFE || b == SBA || b == SA || b == MF || b == IC || b == PT || b == RA || b == EUA || b == GE
  }
}
