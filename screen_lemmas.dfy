/**
 * Properties of the screen-buffer model: what the bulk operations of
 * `Buffer.java` do to every cell, the `signalEor` handshake, and the effect of
 * the shared default attribute object.
 */
module ScreenLemmas {
  import opened Wrappers
  import opened Tn3270Constants
  import opened FieldAttributes
  import opened FieldScan
  import opened ScreenModel

  /** Two states that agree on field starts and attribute objects agree on field ownership. */
  predicate SameFields(s: ScreenState, t: ScreenState) {
    s.starts == t.starts && s.attrRef == t.attrRef && s.attrs == t.attrs
  }

  /** `r` differs from `s` at most in the cell contents and the byte counter. */
  predicate OnlyCells(s: ScreenState, r: ScreenState) {
    r == s.(ascii := r.ascii, ebcdic := r.ebcdic, ebcdicModified := r.ebcdicModified, ebcdicCount := r.ebcdicCount)
  }

  lemma OnlyCellsTransitive(s: ScreenState, m: ScreenState, r: ScreenState)
    requires OnlyCells(s, m) && OnlyCells(m, r)
    ensures OnlyCells(s, r)
  {
  }

  lemma SameFieldsSameProtection(s: ScreenState, t: ScreenState)
    requires s.WellFormed() && t.WellFormed() && SameFields(s, t)
    ensures forall j :: 0 <= j < BUFFER_SIZE ==> InUnprotectedField(s, j) == InUnprotectedField(t, j)
    ensures forall j :: IsProtected(s, j) == IsProtected(t, j)
  {
  }

  // ---------------------------------------------------------------- clear

  /** `clear` blanks every cell, drops every field and zeroes cursor and counters; command state survives. */
  lemma ClearResets(s: ScreenState)
    requires s.WellFormed()
    ensures var r := Clear(s);
      (forall i :: 0 <= i < BUFFER_SIZE ==>
         r.ascii[i] == ' ' && r.ebcdic[i] == 0x00 && !r.starts[i] && !r.ebcdicModified[i]
         && Attr(r, i) == Default())
      && r.cursor == 0 && r.fieldCount == 0 && r.ebcdicCount == 0 && r.orderCount == 0 && r.ack == 0
      && r.cmd == s.cmd && r.wcc == s.wcc && r.cmdKey == s.cmdKey
  {
  }

  lemma ClearIdempotent(s: ScreenState)
    requires s.WellFormed()
    ensures Clear(Clear(s)) == Clear(s)
  {
  }

  /** After `clear` no cell is protected and no field is found. */
  lemma ClearedBufferHasNoFields(s: ScreenState, p: int)
    requires s.WellFormed() && -1 <= p < BUFFER_SIZE
    ensures ValidPosition(p) ==> !IsProtected(Clear(s), p)
    ensures FindNextField(Clear(s), p) == -1 && FindNextUnprotectedField(Clear(s), p) == -1
  {
  }

  // ---------------------------------------------------------------- single cells

  /**
   * `setEbcdicCharacter` counts every call, changes at most cell `p`, and
   * marks `p` modified exactly when it was already or the owning attribute
   * carries the MDT.
   */
  lemma SetEbcdicCharacterEffect(s: ScreenState, codec: Codec, p: int, b: bv8)
    requires s.WellFormed()
    ensures var r := SetEbcdicCharacter(s, codec, p, b);
      r.ebcdicCount == s.ebcdicCount + 1 && OnlyCells(s, r)
      && SameFields(s, r) && r.cursor == s.cursor
      && (forall j :: 0 <= j < BUFFER_SIZE && j != p ==>
            r.ebcdic[j] == s.ebcdic[j] && r.ascii[j] == s.ascii[j] && r.ebcdicModified[j] == s.ebcdicModified[j])
      && (ValidPosition(p) ==>
            r.ebcdic[p] == b && r.ascii[p] == codec.toAscii(b)
            && r.ebcdicModified[p] == (s.ebcdicModified[p] || Attr(s, Owner(s, p)).modified))
      && (!ValidPosition(p) ==> r == s.(ebcdicCount := s.ebcdicCount + 1))
  {
  }

  /** The same effect stated as sequence updates, for proofs that chain many writes. */
  lemma SetEbcdicCharacterUpdates(s: ScreenState, codec: Codec, p: int, b: bv8)
    requires s.WellFormed()
    ensures var r := SetEbcdicCharacter(s, codec, p, b);
      OnlyCells(s, r) && r.ebcdicCount == s.ebcdicCount + 1
      && (ValidPosition(p) ==> r.ebcdic == s.ebcdic[p := b] && r.ascii == s.ascii[p := codec.toAscii(b)])
      && (!ValidPosition(p) ==> r.ebcdic == s.ebcdic && r.ascii == s.ascii)
  {
  }

  /** The contents of one cell `q`, for proofs about single cells. */
  lemma SetEbcdicCharacterAt(s: ScreenState, codec: Codec, p: int, b: bv8, q: int)
    requires s.WellFormed() && ValidPosition(p) && ValidPosition(q)
    ensures var r := SetEbcdicCharacter(s, codec, p, b);
      r.ebcdic[q] == (if q == p then b else s.ebcdic[q])
      && r.ascii[q] == (if q == p then codec.toAscii(b) else s.ascii[q])
  {
  }

  /**
   * `setAsciiCharacter` on an on-screen cell stores the character and its
   * EBCDIC translation at `p`, marks `p` modified, and sets the MDT of the
   * owning field's attribute object (every cell sharing that object sees it);
   * no other cell, no field start, no counter and not the cursor changes.
   * Off screen it changes nothing.
   */
  lemma SetAsciiCharacterEffect(s: ScreenState, codec: Codec, p: int, c: char)
    requires s.WellFormed()
    ensures var r := SetAsciiCharacter(s, codec, p, c);
      (!ValidPosition(p) ==> r == s)
      && (ValidPosition(p) ==>
            r == s.(ascii := r.ascii, ebcdic := r.ebcdic, ebcdicModified := r.ebcdicModified, attrs := r.attrs)
            && r.ascii[p] == c && r.ebcdic[p] == codec.toEbcdic(c) && r.ebcdicModified[p]
            && (forall j :: 0 <= j < BUFFER_SIZE && j != p ==>
                  r.ascii[j] == s.ascii[j] && r.ebcdic[j] == s.ebcdic[j] && r.ebcdicModified[j] == s.ebcdicModified[j])
            && |r.attrs| == |s.attrs|
            && (Owner(s, p) < 0 ==> r.attrs == s.attrs)
            && (Owner(s, p) >= 0 ==>
                  var k := s.attrRef[Owner(s, p)];
                  r.attrs[k] == s.attrs[k].WithModified(true)
                  && forall m :: 0 <= m < |s.attrs| && m != k ==> r.attrs[m] == s.attrs[m]))
  {
  }

  /** Marking a start twice counts it twice, though the buffer holds the same single start. */
  lemma SetFieldStartCountsEveryCall(s: ScreenState, p: int)
    requires s.WellFormed() && ValidPosition(p)
    ensures var once := SetFieldStart(s, p, true);
      var twice := SetFieldStart(once, p, true);
      twice.starts == once.starts && twice.fieldCount == s.fieldCount + 2
  {
  }

  /**
   * Field starts created by SF/SFE without a basic attribute share the single
   * default object that `clear` installed: typing into one field sets the
   * MDT of the other as well.  A field given its own attribute is unaffected.
   */
  lemma SharedDefaultAttributeIsAliased(s: ScreenState, codec: Codec)
    requires s.WellFormed()
    ensures var t := SetFieldStart(SetFieldStart(Clear(s), 10, true), 100, true);
      !Attr(t, 100).modified && Attr(SetAsciiCharacter(t, codec, 11, 'x'), 100).modified
    ensures var t := SetAttribute(SetFieldStart(SetFieldStart(Clear(s), 10, true), 100, true), 10, 0x00);
      !Attr(SetAsciiCharacter(t, codec, 11, 'x'), 100).modified
  {
    var t := SetFieldStart(SetFieldStart(Clear(s), 10, true), 100, true);
    assert t.starts[10] && !t.starts[11];
    assert forall j :: 0 <= j < BUFFER_SIZE && j != 10 && j != 100 ==> !t.starts[j];
    assert Owner(t, 11) == 10;
    var u := SetAttribute(t, 10, 0x00);
    assert Owner(u, 11) == 10;
  }

  // ---------------------------------------------------------------- eraseAllUnprotected

  lemma {:induction false} EraseFromEffect(s: ScreenState, codec: Codec, i: int)
    requires s.WellFormed() && 0 <= i <= BUFFER_SIZE
    ensures var r := EraseFrom(s, codec, i);
      OnlyCells(s, r) && SameFields(s, r) && r.cursor == s.cursor
      && (forall j :: 0 <= j < i ==> r.ebcdic[j] == s.ebcdic[j] && r.ascii[j] == s.ascii[j])
      && (forall j :: i <= j < BUFFER_SIZE ==>
            r.ebcdic[j] == (if InUnprotectedField(s, j) then 0x00 else s.ebcdic[j])
            && r.ascii[j] == (if InUnprotectedField(s, j) then codec.toAscii(0x00) else s.ascii[j]))
    decreases BUFFER_SIZE - i
  {
    if i < BUFFER_SIZE {
      if InUnprotectedField(s, i) {
        var t := SetEbcdicCharacter(s, codec, i, 0x00);
        SetEbcdicCharacterEffect(s, codec, i, 0x00);
        SameFieldsSameProtection(s, t);
        EraseFromEffect(t, codec, i + 1);
      } else {
        EraseFromEffect(s, codec, i + 1);
      }
    }
  }

  /**
   * `eraseAllUnprotected` nulls exactly the cells of unprotected fields and
   * leaves protected cells, field starts, attributes and cursor alone; without
   * fields it changes nothing.
   */
  lemma EraseAllUnprotectedEffect(s: ScreenState, codec: Codec)
    requires s.WellFormed()
    ensures var r := EraseAllUnprotected(s, codec);
      OnlyCells(s, r) && SameFields(s, r) && r.cursor == s.cursor
      && forall j :: 0 <= j < BUFFER_SIZE ==>
           r.ebcdic[j] == (if InUnprotectedField(s, j) then 0x00 else s.ebcdic[j])
    ensures s.fieldCount == 0 ==> EraseAllUnprotected(s, codec) == s
  {
    if s.fieldCount > 0 {
      EraseFromEffect(s, codec, 0);
    }
  }

  // ---------------------------------------------------------------- resetMdtFlags

  /** `r` differs from `s` only in MDT bits cleared on unprotected attribute objects. */
  predicate OnlyMdtCleared(s: ScreenState, r: ScreenState) {
    r == s.(attrs := r.attrs) && |r.attrs| == |s.attrs|
    && forall k :: 0 <= k < |s.attrs| ==>
         r.attrs[k] == s.attrs[k] || (!s.attrs[k].IsProtected() && r.attrs[k] == s.attrs[k].WithModified(false))
  }

  lemma OnlyMdtClearedTransitive(s: ScreenState, m: ScreenState, r: ScreenState)
    requires OnlyMdtCleared(s, m) && OnlyMdtCleared(m, r)
    ensures OnlyMdtCleared(s, r)
  {
  }

  lemma FlushEffect(s: ScreenState, cur: int)
    requires s.WellFormed() && -1 <= cur < BUFFER_SIZE
    ensures var r := Flush(s, cur);
      OnlyMdtCleared(s, r)
      && (cur >= 0 ==> Clean(r, cur))
      && forall q :: 0 <= q < BUFFER_SIZE && Clean(s, q) ==> Clean(r, q)
  {
  }

  lemma {:induction false} ResetMdtFromEffect(s: ScreenState, i: int, cur: int)
    requires s.WellFormed() && 0 <= i <= BUFFER_SIZE && -1 <= cur < BUFFER_SIZE
    requires forall j :: 0 <= j < i && Owner(s, j) >= 0 && Owner(s, j) != cur ==> Clean(s, Owner(s, j))
    ensures var r := ResetMdtFrom(s, i, cur);
      OnlyMdtCleared(s, r) && forall q :: 0 <= q < BUFFER_SIZE && s.starts[q] ==> Clean(r, q)
    decreases BUFFER_SIZE - i
  {
    if i == BUFFER_SIZE {
      FlushEffect(s, cur);
      forall q | 0 <= q < BUFFER_SIZE && s.starts[q]
        ensures Clean(Flush(s, cur), q)
      {
        FieldStartOwnsItself(s.starts, q);
        assert Owner(s, q) == q;
        if q != cur {
          assert Clean(s, q);
        }
      }
    } else {
      var fieldStart := Owner(s, i);
      if fieldStart < 0 {
        var t := Flush(s, cur);
        FlushEffect(s, cur);
        ResetMdtFromEffect(t, i + 1, cur);
        OnlyMdtClearedTransitive(s, t, ResetMdtFrom(t, i + 1, cur));
      } else if fieldStart != cur {
        var t := Flush(s, cur);
        FlushEffect(s, cur);
        ResetMdtFromEffect(t, i + 1, fieldStart);
        OnlyMdtClearedTransitive(s, t, ResetMdtFrom(t, i + 1, fieldStart));
      } else {
        ResetMdtFromEffect(s, i + 1, cur);
      }
    }
  }

  /**
   * `resetMdtFlags` clears the MDT of every unprotected field's attribute,
   * leaves protected attributes untouched and changes no cell, start or cursor.
   */
  lemma ResetMdtFlagsEffect(s: ScreenState)
    requires s.WellFormed()
    ensures var r := ResetMdtFlags(s);
      r == s.(attrs := r.attrs)
      && (forall q :: 0 <= q < BUFFER_SIZE && s.starts[q] && !Attr(s, q).IsProtected() ==>
            Attr(r, q) == Attr(s, q).WithModified(false))
      && (forall q :: 0 <= q < BUFFER_SIZE && s.starts[q] && Attr(s, q).IsProtected() ==>
            Attr(r, q) == Attr(s, q))
  {
    if s.fieldCount > 0 {
      ResetMdtFromEffect(s, 0, -1);
    }
  }

  // ---------------------------------------------------------------- background copy

  /** `copyDataToBackground` saves the live cells and blanks them; fields are untouched. */
  lemma CopyDataToBackgroundEffect(s: ScreenState)
    requires s.WellFormed()
    ensures var r := CopyDataToBackground(s);
      r.asciiBackground == s.ascii && r.ebcdicBackground == s.ebcdic
      && SameFields(s, r)
      && forall j :: 0 <= j < BUFFER_SIZE ==> r.ascii[j] == ' ' && r.ebcdic[j] == 0x00
  {
  }

  /** Cell `j` lies in the span restored for the field at `i` ending at `e`; a span with `e <= i` wraps. */
  predicate InRestoreSpan(i: int, e: int, j: int) {
    if e > i then i <= j < e else i <= j || j < e
  }

  /** Every live EBCDIC byte of the (possibly wrapping) span is 0x00. */
  predicate SpanIsNull(s: ScreenState, i: int, e: int)
    requires s.WellFormed()
  {
    forall j :: 0 <= j < BUFFER_SIZE && InRestoreSpan(i, e, j) ==> s.ebcdic[j] == 0x00
  }

  /**
   * One field of `restoreDataFromBackground`: a span whose live bytes are all
   * null gets both background arrays back, cell by cell; any other span leaves
   * the state as it was; nothing but the live cells ever changes.
   */
  lemma RestoreSpanEffect(s: ScreenState, i: int, e: int)
    requires s.WellFormed() && 0 <= i < BUFFER_SIZE && 0 <= e < BUFFER_SIZE
    ensures var r := RestoreSpan(s, i, e);
      r == s.(ascii := r.ascii, ebcdic := r.ebcdic)
      && (SpanIsNull(s, i, e) ==>
            forall j :: 0 <= j < BUFFER_SIZE ==>
              r.ascii[j] == (if InRestoreSpan(i, e, j) then s.asciiBackground[j] else s.ascii[j])
              && r.ebcdic[j] == (if InRestoreSpan(i, e, j) then s.ebcdicBackground[j] else s.ebcdic[j]))
      && (!SpanIsNull(s, i, e) ==> r == s)
  {
    if e > i {
      assert SpanIsNull(s, i, e) <==> AllNull(s, i, e);
    } else {
      assert SpanIsNull(s, i, e) <==> AllNull(s, i, BUFFER_SIZE) && AllNull(s, 0, e);
    }
  }

  lemma {:induction false} RestoreFromSkips(s: ScreenState, i: int, k: int)
    requires s.WellFormed() && 0 <= i <= k <= BUFFER_SIZE
    requires forall j :: i <= j < k ==> !s.starts[j]
    ensures RestoreFrom(s, i) == RestoreFrom(s, k)
    decreases k - i
  {
    if i < k {
      RestoreFromSkips(s, i + 1, k);
    }
  }

  /**
   * With exactly one field, a WRITE with the start-printer bit followed by an
   * empty write restores the whole screen: copy to background then restore
   * gives back the live cells.
   */
  lemma CopyThenRestoreSingleField(s: ScreenState, q: int)
    requires s.WellFormed() && s.fieldCount > 0
    requires 0 <= q < BUFFER_SIZE && s.starts[q]
    requires forall j :: 0 <= j < BUFFER_SIZE && j != q ==> !s.starts[j]
    ensures var r := RestoreDataFromBackground(CopyDataToBackground(s));
      r.ascii == s.ascii && r.ebcdic == s.ebcdic
  {
    var c := CopyDataToBackground(s);
    RestoreFromSkips(c, 0, q);
    var e := RestoreEnd(c, q);
    assert e == q;
    assert AllNull(c, q, BUFFER_SIZE) && AllNull(c, 0, q);
    var restored := CopyBack(CopyBack(c, q, BUFFER_SIZE), 0, q);
    assert RestoreSpan(c, q, e) == restored;
    RestoreFromSkips(restored, q + 1, BUFFER_SIZE);
    assert restored.ascii == s.ascii;
    assert restored.ebcdic == s.ebcdic;
  }

  /**
   * With field starts at exactly `a` and `b` (`a + 1 < b`), the restore loop
   * handles the field at `a`, sets `i` to its end `b` and then steps past it:
   * the field at `b`, and every cell outside `[a, b)`, is never restored.
   */
  lemma RestoreTwoFieldsSkipsSecond(s: ScreenState, a: int, b: int)
    requires s.WellFormed() && s.fieldCount > 0 && 0 <= a && a + 1 < b < BUFFER_SIZE
    requires forall j :: 0 <= j < BUFFER_SIZE ==> (s.starts[j] <==> j == a || j == b)
    ensures var r := RestoreDataFromBackground(s);
      r == RestoreSpan(s, a, b)
      && forall j :: 0 <= j < BUFFER_SIZE && !(a <= j < b) ==> r.ascii[j] == s.ascii[j] && r.ebcdic[j] == s.ebcdic[j]
  {
    RestoreFromSkips(s, 0, a);
    var e := RestoreEnd(s, a);
    assert e == b by {
      assert s.starts[a] && a != a + 1;
      assert CyclicallyBetween(a + 1, b, a);
    }
    var t := RestoreSpan(s, a, b);
    RestoreSpanEffect(s, a, b);
    RestoreFromSkips(t, b + 1, BUFFER_SIZE);
  }

  /**
   * A WRITE with the start-printer bit and no data, on a screen with two
   * fields: the first field comes back from the background, while the second
   * field's saved data is lost and its cells stay blank.
   */
  lemma CopyThenRestoreLosesSecondField(s: ScreenState, a: int, b: int)
    requires s.WellFormed() && s.fieldCount > 0 && 0 <= a && a + 1 < b < BUFFER_SIZE
    requires forall j :: 0 <= j < BUFFER_SIZE ==> (s.starts[j] <==> j == a || j == b)
    ensures var r := RestoreDataFromBackground(CopyDataToBackground(s));
      (forall j :: a <= j < b ==> r.ascii[j] == s.ascii[j] && r.ebcdic[j] == s.ebcdic[j])
      && forall j :: 0 <= j < BUFFER_SIZE && !(a <= j < b) ==> r.ascii[j] == ' ' && r.ebcdic[j] == 0x00
  {
    var c := CopyDataToBackground(s);
    RestoreTwoFieldsSkipsSecond(c, a, b);
    RestoreSpanEffect(c, a, b);
    assert SpanIsNull(c, a, b);
  }

  // ---------------------------------------------------------------- signalEor

  /**
   * A call of `signalEor` that does not signal arms the next one: only `ack`
   * changes, and the next call signals.
   */
  lemma UnsignalledCallArmsNext(s: ScreenState)
    requires s.WellFormed() && !Signals(s)
    ensures var (t, signalled) := SignalEor(s);
      !signalled && t == s.(ack := s.ack + 1) && SignalEor(t).1
  {
  }

  /** `setAidKey` disarms it again: the per-command counters are zero afterwards. */
  lemma SetAidKeyResetsCounts(s: ScreenState, key: int)
    requires s.WellFormed()
    ensures var t := SetAidKey(s, Some(key));
      t.ack == 0 && t.orderCount == 0 && t.ebcdicCount == 0 && t.cmdKey == Some(key)
      && (t.cmd.Some? && !t.ignoreAckCount && (t.wcc.None? || t.wcc.value & WCC_START_PRINTER == 0)
          && !IsShortReadKey(key)
          ==> !Signals(t))
  {
  }

  // ---------------------------------------------------------------- string

  /** An on-screen window reads the live characters. */
  lemma StringAtOnScreen(s: ScreenState, start: int, length: int)
    requires s.WellFormed() && 0 <= start && 0 <= length && start + length <= BUFFER_SIZE
    ensures StringAt(s, start, length) == s.ascii[start..start + length]
  {
  }
}
