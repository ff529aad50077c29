/**
 * Value model of the 3270 screen buffer (`Buffer.java`): the reference
 * semantics that the imperative `Buffer` class is proved against.
 *
 * Field attributes are Java objects, and `clear` fills the whole attribute
 * array with ONE shared object that later `setAsciiCharacter` and
 * `resetMdtFlags` mutate in place.  The model keeps that aliasing: each cell
 * holds a reference (`attrRef`) into a heap of attribute values (`attrs`);
 * `setAttribute` allocates a fresh entry, and mutation through one cell is
 * seen by every cell holding the same reference.
 */
module ScreenModel {
  import opened Wrappers
  import opened Tn3270Constants
  import opened FieldAttributes
  import opened FieldScan
  import BufferPositions

  /** `Tn3270Conversions`, which is not part of this model, as a pair of total functions. */
  datatype Codec = Codec(toAscii: bv8 -> char, toEbcdic: char -> bv8)

  datatype ScreenState = ScreenState(
    ascii: seq<char>,
    ebcdic: seq<bv8>,
    asciiBackground: seq<char>,
    ebcdicBackground: seq<bv8>,
    ebcdicModified: seq<bool>,
    attrRef: seq<nat>,
    attrs: seq<FieldAttribute>,
    starts: seq<bool>,
    cursor: int,
    fieldCount: int,
    ebcdicCount: int,
    orderCount: int,
    cmd: Option<bv8>,
    wcc: Option<bv8>,
    cmdKey: Option<int>,
    ack: int,
    ignoreAckCount: bool)
  {
    /**
     * The invariant every buffer operation keeps: seven arrays of 1920 cells,
     * every cell referring to an allocated attribute, the cursor on screen,
     * and no field start unless some start has been counted.
     */
    predicate WellFormed() {
      |ascii| == BUFFER_SIZE && |ebcdic| == BUFFER_SIZE
      && |asciiBackground| == BUFFER_SIZE && |ebcdicBackground| == BUFFER_SIZE
      && |ebcdicModified| == BUFFER_SIZE && |attrRef| == BUFFER_SIZE
      && |starts| == BUFFER_SIZE
      && (forall i :: 0 <= i < BUFFER_SIZE ==> attrRef[i] < |attrs|)
      && 0 <= cursor < BUFFER_SIZE
      && fieldCount >= 0
      && (fieldCount == 0 ==> forall i :: 0 <= i < BUFFER_SIZE ==> !starts[i])
      && ack >= 0
    }
  }

  /** 1920 cells of one value: what `Arrays.fill` leaves behind. */
  function Fill<T>(v: T): (r: seq<T>)
    ensures |r| == BUFFER_SIZE && forall i :: 0 <= i < BUFFER_SIZE ==> r[i] == v
  {
    seq(BUFFER_SIZE, i => v)
  }

  predicate ValidPosition(p: int) {
    0 <= p < BUFFER_SIZE
  }

  /** `getAttribute(p)`: the attribute object of cell `p`, a fresh default one off screen. */
  function Attr(s: ScreenState, p: int): (a: FieldAttribute)
    requires s.WellFormed()
    ensures !ValidPosition(p) ==> a == Default()
    ensures ValidPosition(p) ==> a == s.attrs[s.attrRef[p]]
  {
    if ValidPosition(p) then s.attrs[s.attrRef[p]] else Default()
  }

  /** `findFieldStart(p)`. */
  function Owner(s: ScreenState, p: int): (r: int)
    requires s.WellFormed() && -1 <= p < BUFFER_SIZE
    ensures -1 <= r < BUFFER_SIZE
    ensures r != -1 ==> s.starts[r]
  {
    FindFieldStart(s.starts, p)
  }

  /**
   * `isProtected(p)`: true off screen, false when the buffer has no field,
   * otherwise the protection of the owning field's attribute.
   */
  function IsProtected(s: ScreenState, p: int): (b: bool)
    requires s.WellFormed()
    ensures !ValidPosition(p) ==> b
    ensures ValidPosition(p) && Owner(s, p) == -1 ==> !b
    ensures ValidPosition(p) && Owner(s, p) != -1 ==> b == Attr(s, Owner(s, p)).IsProtected()
  {
    if !ValidPosition(p) then true
    else
      var fieldPos := Owner(s, p);
      if fieldPos >= 0 then
        FieldStartOwnsItself(s.starts, fieldPos);
        Attr(s, Owner(s, fieldPos)).IsProtected()
      else false
  }

  /** Cells at which `findNextUnprotectedField` stops: a field start whose next cell is unprotected. */
  function UnprotectedStarts(s: ScreenState): (q: seq<bool>)
    requires s.WellFormed()
    ensures |q| == BUFFER_SIZE
    ensures forall i :: 0 <= i < BUFFER_SIZE ==> q[i] == (s.starts[i] && !IsProtected(s, i + 1))
  {
    seq(BUFFER_SIZE, i requires 0 <= i < BUFFER_SIZE => s.starts[i] && !IsProtected(s, i + 1))
  }

  /** `findNextField(sp)`. */
  function FindNextField(s: ScreenState, sp: int): (r: int)
    requires s.WellFormed() && -1 <= sp < BUFFER_SIZE
    ensures s.fieldCount == 0 ==> r == -1
    ensures s.fieldCount > 0 ==> -1 <= r < BUFFER_SIZE
    ensures s.fieldCount > 0 && r != sp ==>
      0 <= r && s.starts[r] && forall j :: 0 <= j < BUFFER_SIZE && CyclicallyBetween(sp, j, r) ==> !s.starts[j]
    ensures s.fieldCount > 0 && r == sp ==>
      forall j :: 0 <= j < BUFFER_SIZE && j != sp ==> !s.starts[j]
  {
    if s.fieldCount <= 0 then -1
    else
      var found := NextCyclic(s.starts, sp);
      if found >= 0 then found else sp
  }

  /** `findNextUnprotectedField(sp)`. */
  function FindNextUnprotectedField(s: ScreenState, sp: int): (r: int)
    requires s.WellFormed() && -1 <= sp < BUFFER_SIZE
    ensures s.fieldCount == 0 ==> r == -1
    ensures s.fieldCount > 0 ==> -1 <= r < BUFFER_SIZE
    ensures s.fieldCount > 0 && r != sp ==>
      0 <= r < BUFFER_SIZE - 1 && UnprotectedStarts(s)[r]
      && forall j :: 0 <= j < BUFFER_SIZE && CyclicallyBetween(sp, j, r) ==> !UnprotectedStarts(s)[j]
    ensures s.fieldCount > 0 && r == sp ==>
      forall j :: 0 <= j < BUFFER_SIZE && j != sp ==> !UnprotectedStarts(s)[j]
  {
    if s.fieldCount <= 0 then -1
    else
      NextUnprotectedFound(s, sp);
      var found := NextCyclic(UnprotectedStarts(s), sp);
      if found >= 0 then found else sp
  }

  /**
   * What the circular search over `UnprotectedStarts` gives: a cell it
   * finds other than `sp` is an unprotected field start before the last
   * cell with no such start between `sp` and it; otherwise no cell but `sp`
   * qualifies.
   */
  lemma NextUnprotectedFound(s: ScreenState, sp: int)
    requires s.WellFormed() && -1 <= sp < BUFFER_SIZE
    ensures var found := NextCyclic(UnprotectedStarts(s), sp);
      var r := if found >= 0 then found else sp;
      (r != sp ==>
        0 <= r < BUFFER_SIZE - 1 && UnprotectedStarts(s)[r]
        && forall j :: 0 <= j < BUFFER_SIZE && CyclicallyBetween(sp, j, r) ==> !UnprotectedStarts(s)[j])
      && (r == sp ==> forall j :: 0 <= j < BUFFER_SIZE && j != sp ==> !UnprotectedStarts(s)[j])
  {
    var u := UnprotectedStarts(s);
    NextCyclicOnlySelf(u, sp);
    var found := NextCyclic(u, sp);
    if found >= 0 {
      UnprotectedStartBeforeLast(s, found);
    }
  }

  /** A cell of `UnprotectedStarts` is a field start followed by an unprotected cell, so it is not the last cell. */
  lemma UnprotectedStartBeforeLast(s: ScreenState, i: int)
    requires s.WellFormed() && 0 <= i < BUFFER_SIZE && UnprotectedStarts(s)[i]
    ensures i < BUFFER_SIZE - 1 && s.starts[i] && !IsProtected(s, i + 1)
  {
    hide IsProtected;
    assert !IsProtected(s, i + 1);
  }

  /** `findPreviousUnprotectedField(sp)`. */
  function FindPreviousUnprotectedField(s: ScreenState, sp: int): (r: int)
    requires s.WellFormed() && -1 <= sp < BUFFER_SIZE
    ensures s.fieldCount == 0 ==> r == -1
    ensures s.fieldCount > 0 && Owner(s, sp) == -1 ==> r == sp
    ensures s.fieldCount > 0 && Owner(s, sp) != -1 && r != sp ==>
      0 <= r < BUFFER_SIZE && r != Owner(s, sp) && UnprotectedStarts(s)[r]
      && forall j :: 0 <= j < BUFFER_SIZE && CyclicallyBetween(r, j, Owner(s, sp)) ==> !UnprotectedStarts(s)[j]
  {
    if s.fieldCount <= 0 then -1
    else
      var current := Owner(s, sp);
      if current == -1 then sp
      else
        var found := PrevCyclic(UnprotectedStarts(s), current);
        if found >= 0 then found else sp
  }

  /** The backward search gives back `sp` inside a field exactly when no other field is an unprotected one. */
  lemma FindPreviousOnlyWhenAlone(s: ScreenState, sp: int)
    requires s.WellFormed() && -1 <= sp < BUFFER_SIZE
    ensures s.fieldCount > 0 && Owner(s, sp) != -1 ==>
      (FindPreviousUnprotectedField(s, sp) == sp
       <==> forall j :: 0 <= j < BUFFER_SIZE && j != Owner(s, sp) ==> !UnprotectedStarts(s)[j])
  {
  }

  /**
   * `setEbcdicCharacter(p, b)`: counts the byte even off screen; on screen it
   * stores the byte and its translation and marks the cell modified when the
   * owning field's attribute carries the MDT.
   */
  function SetEbcdicCharacter(s: ScreenState, codec: Codec, p: int, b: bv8): (r: ScreenState)
    requires s.WellFormed()
    ensures r.WellFormed()
  {
    var counted := s.(ebcdicCount := s.ebcdicCount + 1);
    if !ValidPosition(p) then counted
    else
      var attribute := Attr(s, Owner(s, p));
      counted.(
        ebcdic := s.ebcdic[p := b],
        ascii := s.ascii[p := codec.toAscii(b)],
        ebcdicModified := if attribute.modified then s.ebcdicModified[p := true] else s.ebcdicModified)
  }

  /**
   * `setAsciiCharacter(p, c)`: stores the character and its translation,
   * marks the cell modified and sets the MDT of the owning field's attribute
   * object (seen by every cell sharing that object).
   */
  function SetAsciiCharacter(s: ScreenState, codec: Codec, p: int, c: char): (r: ScreenState)
    requires s.WellFormed()
    ensures r.WellFormed()
  {
    if !ValidPosition(p) then s
    else
      var fieldStart := Owner(s, p);
      var cells := s.(
        ascii := s.ascii[p := c],
        ebcdic := s.ebcdic[p := codec.toEbcdic(c)],
        ebcdicModified := s.ebcdicModified[p := true]);
      if fieldStart >= 0 then
        var k := s.attrRef[fieldStart];
        cells.(attrs := s.attrs[k := s.attrs[k].WithModified(true)])
      else cells
  }

  /** `setAttribute(p, b)`: cell `p` gets a fresh attribute object parsed from `b`. */
  function SetAttribute(s: ScreenState, p: int, b: bv8): (r: ScreenState)
    requires s.WellFormed()
    ensures r.WellFormed()
  {
    if !ValidPosition(p) then s
    else s.(attrs := s.attrs + [Parse(b)], attrRef := s.attrRef[p := |s.attrs|])
  }

  /** `setFieldStart(p, flag)`: counts every `true` call, even on a cell that already starts a field. */
  function SetFieldStart(s: ScreenState, p: int, flag: bool): (r: ScreenState)
    requires s.WellFormed()
    ensures r.WellFormed()
  {
    if !ValidPosition(p) then s
    else s.(fieldCount := if flag then s.fieldCount + 1 else s.fieldCount, starts := s.starts[p := flag])
  }

  /** `setCursorPosition(p)`: positions off screen are ignored. */
  function SetCursor(s: ScreenState, p: int): (r: ScreenState)
    requires s.WellFormed()
    ensures r.WellFormed() && r == s.(cursor := r.cursor)
    ensures ValidPosition(p) ==> r.cursor == p
    ensures !ValidPosition(p) ==> r == s
  {
    if ValidPosition(p) then s.(cursor := p) else s
  }

  /** `setCursorPosition(row, col)`: ignored unless row and column are both on screen. */
  function SetCursorRowCol(s: ScreenState, row: int, col: int): (r: ScreenState)
    requires s.WellFormed()
    ensures r.WellFormed()
  {
    var pos := BufferPositions.FromRowCol(row, col);
    if pos.IsValid() then s.(cursor := pos.position) else s
  }

  /**
   * A freshly constructed buffer: `new Buffer()` leaves command, WCC and AID
   * key unset and then calls `clear()`.
   */
  function Initial(): (r: ScreenState)
    ensures r.WellFormed()
    ensures r.cmd.None? && r.wcc.None? && r.cmdKey.None? && !r.ignoreAckCount
  {
    ScreenState(
      ascii := Fill(' '), ebcdic := Fill(0x00), asciiBackground := Fill(' '), ebcdicBackground := Fill(0x00),
      ebcdicModified := Fill(false), attrRef := Fill(0), attrs := [Default()], starts := Fill(false),
      cursor := 0, fieldCount := 0, ebcdicCount := 0, orderCount := 0,
      cmd := None, wcc := None, cmdKey := None, ack := 0, ignoreAckCount := false)
  }

  /** `clear()`: blank screen, no fields, one shared default attribute, cursor and counters zero. */
  function Clear(s: ScreenState): (r: ScreenState)
    requires s.WellFormed()
    ensures r.WellFormed()
  {
    ScreenState(
      ascii := Fill(' '), ebcdic := Fill(0x00), asciiBackground := Fill(' '), ebcdicBackground := Fill(0x00),
      ebcdicModified := Fill(false), attrRef := Fill(0), attrs := [Default()], starts := Fill(false),
      cursor := 0, fieldCount := 0, ebcdicCount := 0, orderCount := 0,
      cmd := s.cmd, wcc := s.wcc, cmdKey := s.cmdKey, ack := 0, ignoreAckCount := s.ignoreAckCount)
  }

  function ClearPreCommandCounts(s: ScreenState): (r: ScreenState)
    requires s.WellFormed()
    ensures r.WellFormed() && r.orderCount == 0 && r.ebcdicCount == 0 && r.ack == 0
    ensures r.(orderCount := s.orderCount, ebcdicCount := s.ebcdicCount, ack := s.ack) == s
  {
    s.(orderCount := 0, ebcdicCount := 0, ack := 0)
  }

  /** `copyDataToBackground()`: save the live cells, then blank them. */
  function CopyDataToBackground(s: ScreenState): (r: ScreenState)
    requires s.WellFormed()
    ensures r.WellFormed()
  {
    s.(asciiBackground := s.ascii, ebcdicBackground := s.ebcdic, ascii := Fill(' '), ebcdic := Fill(0x00))
  }

  /** Every live EBCDIC byte of `[lo, hi)` is 0x00. */
  predicate AllNull(s: ScreenState, lo: int, hi: int)
    requires s.WellFormed() && 0 <= lo && hi <= BUFFER_SIZE
  {
    forall j :: lo <= j < hi ==> s.ebcdic[j] == 0x00
  }

  /** Copy `[lo, hi)` of both background arrays back into the live arrays. */
  function CopyBack(s: ScreenState, lo: int, hi: int): (r: ScreenState)
    requires s.WellFormed() && 0 <= lo && hi <= BUFFER_SIZE
    ensures r.WellFormed() && r == s.(ascii := r.ascii, ebcdic := r.ebcdic)
    ensures forall j :: 0 <= j < BUFFER_SIZE && lo <= j < hi ==>
      r.ascii[j] == s.asciiBackground[j] && r.ebcdic[j] == s.ebcdicBackground[j]
    ensures forall j :: 0 <= j < BUFFER_SIZE && !(lo <= j < hi) ==> r.ascii[j] == s.ascii[j] && r.ebcdic[j] == s.ebcdic[j]
  {
    s.(ascii := seq(BUFFER_SIZE, j requires 0 <= j < BUFFER_SIZE =>
                      if lo <= j < hi then s.asciiBackground[j] else s.ascii[j]),
       ebcdic := seq(BUFFER_SIZE, j requires 0 <= j < BUFFER_SIZE =>
                      if lo <= j < hi then s.ebcdicBackground[j] else s.ebcdic[j]))
  }

  /**
   * End of the span restored for the field starting at `i`: the next field
   * start after `i + 1`, or the last cell for a field starting there.
   */
  function RestoreEnd(s: ScreenState, i: int): (e: int)
    requires s.WellFormed() && 0 <= i < BUFFER_SIZE
  {
    if i + 1 < BUFFER_SIZE then FindNextField(s, i + 1) else BUFFER_SIZE - 1
  }

  /**
   * One step of `restoreDataFromBackground` for the field starting at `i`
   * whose span ends at `e`: a span that does not wrap is copied back if it is
   * entirely null; a wrapping span is checked and copied in two pieces.
   */
  function RestoreSpan(s: ScreenState, i: int, e: int): (r: ScreenState)
    requires s.WellFormed() && 0 <= i < BUFFER_SIZE && 0 <= e < BUFFER_SIZE
    ensures r.WellFormed()
  {
    if e > i then
      if AllNull(s, i, e) then CopyBack(s, i, e) else s
    else if AllNull(s, i, BUFFER_SIZE) && AllNull(s, 0, e) then
      CopyBack(CopyBack(s, i, BUFFER_SIZE), 0, e)
    else s
  }

  /** The loop of `restoreDataFromBackground` from cell `i` on. */
  function RestoreFrom(s: ScreenState, i: int): (r: ScreenState)
    requires s.WellFormed() && 0 <= i <= BUFFER_SIZE
    ensures r.WellFormed()
    decreases BUFFER_SIZE - i
  {
    if i == BUFFER_SIZE then s
    else if !s.starts[i] then RestoreFrom(s, i + 1)
    else
      var e := RestoreEnd(s, i);
      if e == -1 then RestoreFrom(s, i + 1)
      else
        var next := if e > i then e + 1 else i + 1;
        RestoreFrom(RestoreSpan(s, i, e), next)
  }

  /** `restoreDataFromBackground()`: a no-op without fields. */
  function RestoreDataFromBackground(s: ScreenState): (r: ScreenState)
    requires s.WellFormed()
    ensures r.WellFormed()
  {
    if s.fieldCount <= 0 then s else RestoreFrom(s, 0)
  }

  /** Unprotected or without MDT: nothing for `resetMdtFlags` to do at start `q`. */
  predicate Clean(s: ScreenState, q: int)
    requires s.WellFormed() && 0 <= q < BUFFER_SIZE
  {
    Attr(s, q).IsProtected() || !Attr(s, q).modified
  }

  /**
   * The MDT reset `resetMdtFlags` applies when it leaves the field starting at
   * `cur`: the shared attribute object loses its MDT if it is unprotected.
   */
  function Flush(s: ScreenState, cur: int): (r: ScreenState)
    requires s.WellFormed() && -1 <= cur < BUFFER_SIZE
    ensures r.WellFormed()
  {
    if cur >= 0 && !Attr(s, cur).IsProtected() && Attr(s, cur).modified then
      s.(attrs := s.attrs[s.attrRef[cur] := Attr(s, cur).WithModified(false)])
    else s
  }

  /** The loop of `resetMdtFlags` from cell `i` on, currently inside the field starting at `cur`. */
  function ResetMdtFrom(s: ScreenState, i: int, cur: int): (r: ScreenState)
    requires s.WellFormed() && 0 <= i <= BUFFER_SIZE && -1 <= cur < BUFFER_SIZE
    ensures r.WellFormed()
    decreases BUFFER_SIZE - i
  {
    if i == BUFFER_SIZE then Flush(s, cur)
    else
      var fieldStart := Owner(s, i);
      if fieldStart < 0 then ResetMdtFrom(Flush(s, cur), i + 1, cur)
      else if fieldStart != cur then ResetMdtFrom(Flush(s, cur), i + 1, fieldStart)
      else ResetMdtFrom(s, i + 1, cur)
  }

  /** `resetMdtFlags()`: a no-op without fields. */
  function ResetMdtFlags(s: ScreenState): (r: ScreenState)
    requires s.WellFormed()
    ensures r.WellFormed()
  {
    if s.fieldCount <= 0 then s else ResetMdtFrom(s, 0, -1)
  }

  /** Cell `i` belongs to an unprotected field. */
  predicate InUnprotectedField(s: ScreenState, i: int)
    requires s.WellFormed() && 0 <= i < BUFFER_SIZE
  {
    Owner(s, i) >= 0 && !Attr(s, Owner(s, i)).IsProtected()
  }

  /** The loop of `eraseAllUnprotected` from cell `i` on. */
  function EraseFrom(s: ScreenState, codec: Codec, i: int): (r: ScreenState)
    requires s.WellFormed() && 0 <= i <= BUFFER_SIZE
    ensures r.WellFormed()
    decreases BUFFER_SIZE - i
  {
    if i == BUFFER_SIZE then s
    else if InUnprotectedField(s, i) then EraseFrom(SetEbcdicCharacter(s, codec, i, 0x00), codec, i + 1)
    else EraseFrom(s, codec, i + 1)
  }

  /** `eraseAllUnprotected()`: a no-op without fields. */
  function EraseAllUnprotected(s: ScreenState, codec: Codec): (r: ScreenState)
    requires s.WellFormed()
    ensures r.WellFormed()
  {
    if s.fieldCount <= 0 then s else EraseFrom(s, codec, 0)
  }

  function SetCommand(s: ScreenState, cmd: bv8): (r: ScreenState)
    requires s.WellFormed()
    ensures r.WellFormed() && r.cmd == Some(cmd) && r == s.(cmd := r.cmd)
  {
    s.(cmd := Some(cmd))
  }

  function SetWcc(s: ScreenState, wcc: bv8): (r: ScreenState)
    requires s.WellFormed()
    ensures r.WellFormed() && r.wcc == Some(wcc) && r == s.(wcc := r.wcc)
  {
    s.(wcc := Some(wcc))
  }

  /** `setAidKey(key)`: resets the per-command counters, then records the key. */
  function SetAidKey(s: ScreenState, key: Option<int>): (r: ScreenState)
    requires s.WellFormed()
    ensures r.WellFormed()
  {
    ClearPreCommandCounts(s).(cmdKey := key)
  }

  function IncOrderCount(s: ScreenState): (r: ScreenState)
    requires s.WellFormed()
    ensures r.WellFormed() && r.orderCount == s.orderCount + 1 && r == s.(orderCount := r.orderCount)
  {
    s.(orderCount := s.orderCount + 1)
  }

  /** The AID keys after which a screen without orders is complete. */
  predicate IsShortReadKey(key: int) {
    key == AID_PA1 as int || key == AID_PA2 as int || key == AID_PA3 as int || key == AID_CLEAR as int
  }

  /** The completion decision of `signalEor`. */
  predicate Signals(s: ScreenState) {
    s.cmd.None?
    || s.cmdKey.None?
    || (s.wcc.Some? && s.wcc.value & WCC_START_PRINTER != 0)
    || s.ack > 0 || s.ignoreAckCount
    || (s.orderCount > 0 && s.ebcdicCount > 1)
    || (s.orderCount == 0 && IsShortReadKey(s.cmdKey.value))
  }

  /** `signalEor()`: either the waiting reader is signalled, or `ack` is counted up. */
  function SignalEor(s: ScreenState): (r: (ScreenState, bool))
    requires s.WellFormed()
    ensures r.0.WellFormed()
    ensures r.1 == Signals(s)
    ensures r.1 ==> r.0 == s
    ensures !r.1 ==> r.0 == s.(ack := s.ack + 1)
  {
    if Signals(s) then (s, true) else (s.(ack := s.ack + 1), false)
  }

  /** `string(start, length)`: characters of the window, a blank for each cell off screen. */
  function StringAt(s: ScreenState, start: int, length: int): (r: seq<char>)
    requires s.WellFormed()
    ensures |r| == if length < 0 then 0 else length
  {
    seq(if length < 0 then 0 else length,
        k => if 0 <= start + k < BUFFER_SIZE then s.ascii[start + k] else ' ')
  }

  /** `string(row)`. */
  function RowString(s: ScreenState, row: int): (r: seq<char>)
    requires s.WellFormed()
    ensures |r| == SCREEN_WIDTH
  {
    StringAt(s, row * SCREEN_WIDTH, SCREEN_WIDTH)
  }
}
