/**
 * What `Screen.java` computes, as functions over the buffer model: the text
 * of rows and windows, typing a string into unprotected cells (with the
 * insert-mode shift), the Tab and Home cursor moves, and the bytes of an AID
 * reply.  `Screen.java` reaches the buffer through `getCharacter`,
 * `setCharacter` and a byte-valued `getAttribute`; these are the buffer's
 * `getAsciiCharacter`, `setAsciiCharacter` and `getAttribute(i).toAttributeByte()`.
 */
module ScreenView {
  import opened Tn3270Constants
  import opened FieldAttributes
  import opened FieldScan
  import opened ScreenModel
  import Orders

  // ------------------------------------------------------------ text

  /** A character the `\s` of a Java regular expression matches: space, tab, LF, VT, FF, CR. */
  predicate IsWhitespace(c: char) {
    c == ' ' || c == '\t' || c == '\n' || c as int == 0x0B || c as int == 0x0C || c == '\r'
  }

  /** A line terminator other than CR and LF: NEL (U+0085), LINE SEPARATOR (U+2028), PARAGRAPH SEPARATOR (U+2029). */
  predicate IsFinalTerminator(c: char) {
    c as int == 0x85 || c as int == 0x2028 || c as int == 0x2029
  }

  /** `\s+` anchored at the very end of the text: the text without its trailing whitespace. */
  function StripWhitespace(t: seq<char>): (r: seq<char>)
    ensures |r| <= |t| && r == t[..|r|]
    ensures |r| == 0 || !IsWhitespace(r[|r| - 1])
    ensures forall j :: |r| <= j < |t| ==> IsWhitespace(t[j])
  {
    if |t| > 0 && IsWhitespace(t[|t| - 1]) then StripWhitespace(t[..|t| - 1]) else t
  }

  /**
   * `replaceAll("\\s+$", "")`.  Without MULTILINE, Java's `$` matches at the
   * end of the text and also just before a line terminator that ends it.  CR
   * and LF are whitespace and so are eaten by `\s+`; a final NEL, LS or PS is
   * not, so it stays and the whitespace run just before it is removed.
   */
  function TrimEnd(t: seq<char>): (r: seq<char>)
    ensures |r| <= |t|
    ensures |t| > 0 && IsFinalTerminator(t[|t| - 1]) ==>
      |r| > 0 && r[|r| - 1] == t[|t| - 1] && r[..|r| - 1] == t[..|r| - 1]
      && (|r| == 1 || !IsWhitespace(r[|r| - 2]))
      && forall j :: |r| - 1 <= j < |t| - 1 ==> IsWhitespace(t[j])
    ensures !(|t| > 0 && IsFinalTerminator(t[|t| - 1])) ==>
      r == t[..|r|] && (|r| == 0 || !IsWhitespace(r[|r| - 1]))
      && forall j :: |r| <= j < |t| ==> IsWhitespace(t[j])
  {
    if |t| > 0 && IsFinalTerminator(t[|t| - 1]) then StripWhitespace(t[..|t| - 1]) + [t[|t| - 1]]
    else StripWhitespace(t)
  }

  /** Spaces before a final LINE SEPARATOR go; the separator stays. */
  lemma TrimEndBeforeLineSeparator()
    ensures TrimEnd(['a', ' ', ' ', 0x2028 as char]) == ['a', 0x2028 as char]
    ensures TrimEnd(['a', ' ', 0x2028 as char, ' ']) == ['a', ' ', 0x2028 as char]
  {
    assert ['a', ' ', ' ', 0x2028 as char][..3] == ['a', ' ', ' '];
    assert StripWhitespace(['a', ' ', ' ']) == ['a'] by {
      assert ['a', ' ', ' '][..2] == ['a', ' '];
      assert ['a', ' '][..1] == ['a'];
    }
    assert StripWhitespace(['a', ' ', 0x2028 as char, ' ']) == ['a', ' ', 0x2028 as char] by {
      assert ['a', ' ', 0x2028 as char, ' '][..3] == ['a', ' ', 0x2028 as char];
    }
  }

  /** `getString(row)`: "" off screen, else the row's 80 characters trimmed by `TrimEnd`. */
  function RowText(s: ScreenState, row: int): (r: seq<char>)
    requires s.WellFormed()
    ensures !(0 <= row < SCREEN_HEIGHT) ==> r == []
    ensures 0 <= row < SCREEN_HEIGHT ==> |r| <= SCREEN_WIDTH
    ensures 0 <= row < SCREEN_HEIGHT && !IsFinalTerminator(s.ascii[row * SCREEN_WIDTH + SCREEN_WIDTH - 1]) ==>
      r == s.ascii[row * SCREEN_WIDTH..row * SCREEN_WIDTH + |r|]
    ensures 0 <= row < SCREEN_HEIGHT && IsFinalTerminator(s.ascii[row * SCREEN_WIDTH + SCREEN_WIDTH - 1]) ==>
      0 < |r| && r[|r| - 1] == s.ascii[row * SCREEN_WIDTH + SCREEN_WIDTH - 1]
      && r[..|r| - 1] == s.ascii[row * SCREEN_WIDTH..row * SCREEN_WIDTH + |r| - 1]
  {
    if row < 0 || row >= SCREEN_HEIGHT then []
    else
      RowPrefixes(s, row);
      TrimEnd(RowString(s, row))
  }

  /** Every prefix of an on-screen row's string is a slice of the live characters. */
  lemma RowPrefixes(s: ScreenState, row: int)
    requires s.WellFormed() && 0 <= row < SCREEN_HEIGHT
    ensures var line := RowString(s, row);
      line[SCREEN_WIDTH - 1] == s.ascii[row * SCREEN_WIDTH + SCREEN_WIDTH - 1]
      && forall k :: 0 <= k <= SCREEN_WIDTH ==> line[..k] == s.ascii[row * SCREEN_WIDTH..row * SCREEN_WIDTH + k]
  {
    var line := RowString(s, row);
    var a := row * SCREEN_WIDTH;
    assert line == s.ascii[a..a + SCREEN_WIDTH];
    forall k | 0 <= k <= SCREEN_WIDTH
      ensures line[..k] == s.ascii[a..a + k]
    {
      assert line[..k] == s.ascii[a..a + SCREEN_WIDTH][..k];
    }
  }

  /**
   * `getString(position, length)`: "" for a start off screen or a length
   * that is not positive; otherwise up to `length` characters, stopping at
   * the last cell.
   */
  function Window(s: ScreenState, position: int, length: int): (r: seq<char>)
    requires s.WellFormed()
    ensures !(0 <= position < BUFFER_SIZE) || length <= 0 ==> r == []
    ensures 0 <= position < BUFFER_SIZE && length > 0 ==>
      |r| == Orders.Min(length, BUFFER_SIZE - position)
      && forall k :: 0 <= k < |r| ==> r[k] == s.ascii[position + k]
  {
    if position < 0 || position >= BUFFER_SIZE || length <= 0 then []
    else s.ascii[position..position + Orders.Min(length, BUFFER_SIZE - position)]
  }

  /** `getString(row, col, length)`: a window from an on-screen row and column. */
  function CellText(s: ScreenState, row: int, col: int, length: int): (r: seq<char>)
    requires s.WellFormed()
    ensures !(0 <= row < SCREEN_HEIGHT && 0 <= col < SCREEN_WIDTH) ==> r == []
    ensures 0 <= row < SCREEN_HEIGHT && 0 <= col < SCREEN_WIDTH ==> r == Window(s, row * SCREEN_WIDTH + col, length)
  {
    if row < 0 || row >= SCREEN_HEIGHT || col < 0 || col >= SCREEN_WIDTH then []
    else Window(s, row * SCREEN_WIDTH + col, length)
  }

  /** The first `n` rows' texts, separated by `separator`. */
  function Rows(s: ScreenState, separator: seq<char>, n: int): (r: seq<char>)
    requires s.WellFormed() && 0 <= n <= SCREEN_HEIGHT
  {
    if n == 0 then []
    else Rows(s, separator, n - 1) + (if n > 1 then separator else []) + RowText(s, n - 1)
  }

  /** `getString(separator)`: all 24 rows, separated. */
  function ScreenText(s: ScreenState, separator: seq<char>): (r: seq<char>)
    requires s.WellFormed()
  {
    Rows(s, separator, SCREEN_HEIGHT)
  }

  /** The joined rows take at most a row's width per row plus one separator between rows. */
  lemma {:induction false} RowsLength(s: ScreenState, separator: seq<char>, n: int)
    requires s.WellFormed() && 0 <= n <= SCREEN_HEIGHT
    ensures |Rows(s, separator, n)| <= n * SCREEN_WIDTH + (if n > 0 then (n - 1) * |separator| else 0)
  {
    if n > 1 {
      RowsLength(s, separator, n - 1);
      assert (n - 1) * |separator| == (n - 2) * |separator| + |separator|;
    } else if n == 1 {
      assert Rows(s, separator, 0) == [];
    }
  }

  /** A window is the buffer's `string(start, length)` cut to the cells on screen. */
  lemma WindowIsClippedString(s: ScreenState, position: int, length: int)
    requires s.WellFormed() && 0 <= position < BUFFER_SIZE && length > 0
    ensures Window(s, position, length) == StringAt(s, position, Orders.Min(length, BUFFER_SIZE - position))
  {
  }

  // ------------------------------------------------------------ typing

  /**
   * `r` has the fields and attribute kinds of `s`: only cell contents, MDT
   * bits and the cursor may differ.
   */
  predicate SameLayout(s: ScreenState, r: ScreenState) {
    r.starts == s.starts && r.attrRef == s.attrRef
    && |r.attrs| == |s.attrs|
    && forall k :: 0 <= k < |s.attrs| ==> r.attrs[k].fieldType == s.attrs[k].fieldType
  }

  lemma SameLayoutSameProtection(s: ScreenState, r: ScreenState)
    requires s.WellFormed() && r.WellFormed() && SameLayout(s, r)
    ensures forall q :: IsProtected(r, q) == IsProtected(s, q)
  {
    forall q | ValidPosition(q) && Owner(s, q) != -1
      ensures IsProtected(r, q) == IsProtected(s, q)
    {
      var o := Owner(s, q);
      assert Owner(r, q) == o;
      assert Attr(r, o).fieldType == Attr(s, o).fieldType;
    }
  }

  /** `setCharacter` keeps the layout and stores exactly one character. */
  lemma SetAsciiKeepsLayout(s: ScreenState, codec: Codec, p: int, c: char)
    requires s.WellFormed()
    ensures var r := SetAsciiCharacter(s, codec, p, c);
      SameLayout(s, r) && r.cursor == s.cursor && r.ascii == (if ValidPosition(p) then s.ascii[p := c] else s.ascii)
  {
  }

  /** One step of `shiftCharactersRight`: an unprotected cell `i` takes the character of cell `i - 1`. */
  function ShiftOne(s: ScreenState, codec: Codec, i: int): (r: ScreenState)
    requires s.WellFormed() && 0 < i < BUFFER_SIZE
    ensures r.WellFormed()
  {
    if !IsProtected(s, i) then SetAsciiCharacter(s, codec, i, s.ascii[i - 1]) else s
  }

  /** The loop of `shiftCharactersRight` from cell `i` down to `start + 1`. */
  function ShiftDown(s: ScreenState, codec: Codec, start: int, i: int): (r: ScreenState)
    requires s.WellFormed() && 0 <= start && i < BUFFER_SIZE
    ensures r.WellFormed()
    decreases i
  {
    if i <= start then s else ShiftDown(ShiftOne(s, codec, i), codec, start, i - 1)
  }

  /** `findFieldEnd(p)` followed by the shift of `shiftCharactersRight(p)`. */
  function Shift(s: ScreenState, codec: Codec, start: int): (r: ScreenState)
    requires s.WellFormed() && 0 <= start < BUFFER_SIZE
    ensures r.WellFormed()
  {
    ShiftDown(s, codec, start, FindFieldEnd(s.starts, start) - 1)
  }

  lemma ShiftOneEffect(s: ScreenState, codec: Codec, i: int)
    requires s.WellFormed() && 0 < i < BUFFER_SIZE
    ensures var t := ShiftOne(s, codec, i);
      SameLayout(s, t) && t.ascii == if IsProtected(s, i) then s.ascii else s.ascii[i := s.ascii[i - 1]]
  {
    SetAsciiKeepsLayout(s, codec, i, s.ascii[i - 1]);
  }

  /** The shift keeps the layout, hence the protection of every cell. */
  lemma {:induction false} ShiftDownLayout(s: ScreenState, codec: Codec, start: int, i: int)
    requires s.WellFormed() && 0 <= start && i < BUFFER_SIZE
    ensures SameLayout(s, ShiftDown(s, codec, start, i))
    decreases i
  {
    if i > start {
      ShiftOneEffect(s, codec, i);
      ShiftDownLayout(ShiftOne(s, codec, i), codec, start, i - 1);
    }
  }

  /**
   * Cell `q` after the loop from `i` down to `start + 1`: an unprotected
   * cell in that span holds the old character of its left neighbour, any
   * other cell its own.
   */
  lemma {:induction false} ShiftDownAt(s: ScreenState, codec: Codec, start: int, i: int, q: int)
    requires s.WellFormed() && 0 <= start && i < BUFFER_SIZE && 0 <= q < BUFFER_SIZE
    ensures ShiftDown(s, codec, start, i).ascii[q]
            == if start < q <= i && !IsProtected(s, q) then s.ascii[q - 1] else s.ascii[q]
    decreases i
  {
    if i > start {
      var t := ShiftOne(s, codec, i);
      var r := ShiftDown(t, codec, start, i - 1);
      ShiftOneEffect(s, codec, i);
      SameLayoutSameProtection(s, t);
      ShiftDownAt(t, codec, start, i - 1, q);
      assert IsProtected(t, q) == IsProtected(s, q);
      if q == i {
        assert r.ascii[q] == t.ascii[q];
      } else if start < q < i && !IsProtected(s, q) {
        assert r.ascii[q] == t.ascii[q - 1] == s.ascii[q - 1];
      } else {
        assert r.ascii[q] == t.ascii[q] == s.ascii[q];
      }
    }
  }

  /**
   * The shift keeps the layout; it moves every unprotected cell after
   * `start` and before the end of its field one place right, overwriting
   * the last one; `start` itself, protected cells and every cell outside
   * that span keep their characters.
   */
  lemma ShiftEffect(s: ScreenState, codec: Codec, start: int, q: int)
    requires s.WellFormed() && 0 <= start < BUFFER_SIZE && 0 <= q < BUFFER_SIZE
    ensures SameLayout(s, Shift(s, codec, start))
    ensures Shift(s, codec, start).ascii[q]
            == if start < q < FindFieldEnd(s.starts, start) && !IsProtected(s, q) then s.ascii[q - 1] else s.ascii[q]
  {
    var end := FindFieldEnd(s.starts, start);
    ShiftDownLayout(s, codec, start, end - 1);
    ShiftDownAt(s, codec, start, end - 1, q);
  }

  /**
   * One character of `putString` at cell `pos`: a protected cell is
   * skipped; otherwise the insert-mode shift, then the character.
   */
  function TypeOne(s: ScreenState, codec: Codec, insert: bool, c: char, pos: int): (r: ScreenState)
    requires s.WellFormed() && 0 <= pos < BUFFER_SIZE
    ensures r.WellFormed()
  {
    if IsProtected(s, pos) then s
    else SetAsciiCharacter(if insert then Shift(s, codec, pos) else s, codec, pos, c)
  }

  /**
   * The loop of `putString` from the `i`-th character at cell `pos`; at the
   * end the cursor goes to the cell after the last one visited, kept on
   * screen.
   */
  function TypeFrom(s: ScreenState, codec: Codec, insert: bool, text: seq<char>, i: nat, pos: int): (r: ScreenState)
    requires s.WellFormed() && 0 <= pos
    ensures r.WellFormed()
    decreases |text| - i
  {
    if i >= |text| || pos >= BUFFER_SIZE then SetCursor(s, Orders.Min(pos, BUFFER_SIZE - 1))
    else TypeFrom(TypeOne(s, codec, insert, text[i], pos), codec, insert, text, i + 1, pos + 1)
  }

  /** `putString(position, text)`: nothing happens for empty text or a start off screen. */
  function PutString(s: ScreenState, codec: Codec, insert: bool, position: int, text: seq<char>): (r: ScreenState)
    requires s.WellFormed()
    ensures r.WellFormed()
    ensures |text| == 0 || !ValidPosition(position) ==> r == s
  {
    if |text| == 0 || !ValidPosition(position) then s
    else TypeFrom(s, codec, insert, text, 0, position)
  }

  /**
   * One character keeps the layout; cell `pos`, when unprotected, takes
   * the character; in insert mode the unprotected cells after it up to the
   * end of its field take their left neighbour's; every other cell keeps
   * its own.
   */
  lemma TypeOneEffect(s: ScreenState, codec: Codec, insert: bool, c: char, pos: int, q: int)
    requires s.WellFormed() && 0 <= pos < BUFFER_SIZE && 0 <= q < BUFFER_SIZE
    ensures SameLayout(s, TypeOne(s, codec, insert, c, pos))
    ensures TypeOne(s, codec, insert, c, pos).ascii[q]
            == if IsProtected(s, pos) then s.ascii[q]
               else if q == pos then c
               else if insert && pos < q < FindFieldEnd(s.starts, pos) && !IsProtected(s, q) then s.ascii[q - 1]
               else s.ascii[q]
  {
    if !IsProtected(s, pos) {
      var u := if insert then Shift(s, codec, pos) else s;
      if insert {
        ShiftEffect(s, codec, pos, q);
      }
      SetAsciiKeepsLayout(u, codec, pos, c);
    }
  }

  /**
   * Typing into an unprotected cell of a field sets that field's MDT bit,
   * in either mode, so the next AID reply carries the field.
   */
  lemma TypingMarksField(s: ScreenState, codec: Codec, insert: bool, c: char, pos: int)
    requires s.WellFormed() && 0 <= pos < BUFFER_SIZE && !IsProtected(s, pos) && Owner(s, pos) >= 0
    ensures IsModifiedField(TypeOne(s, codec, insert, c, pos), Owner(s, pos))
  {
    if insert {
      ShiftEffect(s, codec, pos, pos);
    }
  }

  /** The loop keeps the layout and leaves the cursor after the last cell visited. */
  lemma {:induction false} TypeFromLayout(s: ScreenState, codec: Codec, insert: bool, text: seq<char>, i: nat, pos: int)
    requires s.WellFormed() && 0 <= pos && i <= |text|
    ensures var r := TypeFrom(s, codec, insert, text, i, pos);
      SameLayout(s, r)
      && r.cursor == Orders.Min(pos + Orders.Min(|text| - i, if pos < BUFFER_SIZE then BUFFER_SIZE - pos else 0), BUFFER_SIZE - 1)
    decreases |text| - i
  {
    if i < |text| && pos < BUFFER_SIZE {
      TypeOneEffect(s, codec, insert, text[i], pos, 0);
      TypeFromLayout(TypeOne(s, codec, insert, text[i], pos), codec, insert, text, i + 1, pos + 1);
      var n := Orders.Min(|text| - i, BUFFER_SIZE - pos);
      assert Orders.Min(|text| - (i + 1), if pos + 1 < BUFFER_SIZE then BUFFER_SIZE - (pos + 1) else 0) == n - 1;
    }
  }

  /**
   * Cell `q` after the loop from character `i` at cell `pos`, with `n`
   * cells visited: an unprotected visited cell holds its character; a
   * protected cell and a cell before `pos` keep their own; outside insert
   * mode so does every cell after those visited.
   */
  lemma {:induction false} TypeFromAt(s: ScreenState, codec: Codec, insert: bool, text: seq<char>, i: nat, pos: int, q: int)
    requires s.WellFormed() && 0 <= pos && i <= |text| && 0 <= q < BUFFER_SIZE
    ensures var r := TypeFrom(s, codec, insert, text, i, pos);
      var n := Orders.Min(|text| - i, if pos < BUFFER_SIZE then BUFFER_SIZE - pos else 0);
      (IsProtected(s, q) ==> r.ascii[q] == s.ascii[q])
      && (q < pos ==> r.ascii[q] == s.ascii[q])
      && (pos <= q < pos + n && !IsProtected(s, q) ==> r.ascii[q] == text[i + (q - pos)])
      && (!insert && pos + n <= q ==> r.ascii[q] == s.ascii[q])
    decreases |text| - i
  {
    hide TypeFrom, TypeOne, Shift, SetAsciiCharacter, SetCursor;
    TypeFromUnfold(s, codec, insert, text, i, pos);
    if i < |text| && pos < BUFFER_SIZE {
      var t := TypeOne(s, codec, insert, text[i], pos);
      TypeFromAt(t, codec, insert, text, i + 1, pos + 1, q);
      TypeFromAtStep(s, t, TypeFrom(t, codec, insert, text, i + 1, pos + 1), codec, insert, text, i, pos, q);
    }
  }

  /** One step of `TypeFromAt`: what cell `q` holds after the rest of the loop, carried back over one character. */
  lemma TypeFromAtStep(s: ScreenState, t: ScreenState, r: ScreenState, codec: Codec, insert: bool,
                       text: seq<char>, i: nat, pos: int, q: int)
    requires s.WellFormed() && r.WellFormed() && 0 <= pos < BUFFER_SIZE && i < |text| && 0 <= q < BUFFER_SIZE
    requires t == TypeOne(s, codec, insert, text[i], pos)
    requires var n := Orders.Min(|text| - (i + 1), if pos + 1 < BUFFER_SIZE then BUFFER_SIZE - (pos + 1) else 0);
      (IsProtected(t, q) ==> r.ascii[q] == t.ascii[q])
      && (q < pos + 1 ==> r.ascii[q] == t.ascii[q])
      && (pos + 1 <= q < pos + 1 + n && !IsProtected(t, q) ==> r.ascii[q] == text[i + 1 + (q - (pos + 1))])
      && (!insert && pos + 1 + n <= q ==> r.ascii[q] == t.ascii[q])
    ensures var n := Orders.Min(|text| - i, BUFFER_SIZE - pos);
      (IsProtected(s, q) ==> r.ascii[q] == s.ascii[q])
      && (q < pos ==> r.ascii[q] == s.ascii[q])
      && (pos <= q < pos + n && !IsProtected(s, q) ==> r.ascii[q] == text[i + (q - pos)])
      && (!insert && pos + n <= q ==> r.ascii[q] == s.ascii[q])
  {
    var n := Orders.Min(|text| - i, BUFFER_SIZE - pos);
    assert Orders.Min(|text| - (i + 1), if pos + 1 < BUFFER_SIZE then BUFFER_SIZE - (pos + 1) else 0) == n - 1;
    TypeOneEffect(s, codec, insert, text[i], pos, q);
    SameLayoutSameProtection(s, t);
    TypeStepCell(s.ascii, t.ascii, r.ascii, text, insert, IsProtected(s, pos), IsProtected(s, q),
                 i, pos, q, n, FindFieldEnd(s.starts, pos));
  }

  /** The case analysis of one step of `TypeFromAt`, over the contents of cell `q` alone. */
  lemma TypeStepCell(sa: seq<char>, ta: seq<char>, ra: seq<char>, text: seq<char>, insert: bool,
                     pp: bool, pq: bool, i: nat, pos: int, q: int, n: int, end: int)
    requires |sa| == |ta| == |ra| == BUFFER_SIZE && 0 <= pos < BUFFER_SIZE && 0 <= q < BUFFER_SIZE
    requires i < |text| && n == Orders.Min(|text| - i, BUFFER_SIZE - pos) && (q == pos ==> pp == pq)
    requires ta[q] == if pp then sa[q] else if q == pos then text[i]
                      else if insert && pos < q < end && !pq then sa[q - 1] else sa[q]
    requires pq ==> ra[q] == ta[q]
    requires q < pos + 1 ==> ra[q] == ta[q]
    requires pos + 1 <= q < pos + n && !pq ==> ra[q] == text[i + 1 + (q - (pos + 1))]
    requires !insert && pos + n <= q ==> ra[q] == ta[q]
    ensures pq ==> ra[q] == sa[q]
    ensures q < pos ==> ra[q] == sa[q]
    ensures pos <= q < pos + n && !pq ==> ra[q] == text[i + (q - pos)]
    ensures !insert && pos + n <= q ==> ra[q] == sa[q]
  {
  }

  /** One unfolding of the typing loop: a character typed, or the loop done with the cells unchanged. */
  lemma TypeFromUnfold(s: ScreenState, codec: Codec, insert: bool, text: seq<char>, i: nat, pos: int)
    requires s.WellFormed() && 0 <= pos && i <= |text|
    ensures i < |text| && pos < BUFFER_SIZE ==>
      TypeFrom(s, codec, insert, text, i, pos) == TypeFrom(TypeOne(s, codec, insert, text[i], pos), codec, insert, text, i + 1, pos + 1)
    ensures !(i < |text| && pos < BUFFER_SIZE) ==> TypeFrom(s, codec, insert, text, i, pos).ascii == s.ascii
  {
  }

  /**
   * `putString(position, text)` on screen and with text: the layout is
   * kept and the cursor ends after the last cell visited (at most cell
   * 1919); the `k`-th character lands in cell `position + k` when that cell
   * is unprotected, in either mode; protected cells and the cells before
   * `position` keep their characters; outside insert mode so do the cells
   * after those visited.
   */
  lemma PutStringEffect(s: ScreenState, codec: Codec, insert: bool, position: int, text: seq<char>, q: int)
    requires s.WellFormed() && ValidPosition(position) && |text| > 0 && 0 <= q < BUFFER_SIZE
    ensures var r := PutString(s, codec, insert, position, text);
      var n := Orders.Min(|text|, BUFFER_SIZE - position);
      SameLayout(s, r)
      && r.cursor == Orders.Min(position + n, BUFFER_SIZE - 1)
      && (IsProtected(s, q) ==> r.ascii[q] == s.ascii[q])
      && (q < position ==> r.ascii[q] == s.ascii[q])
      && (position <= q < position + n && !IsProtected(s, q) ==> r.ascii[q] == text[q - position])
      && (!insert && position + n <= q ==> r.ascii[q] == s.ascii[q])
  {
    hide TypeFrom, SameLayout, IsProtected;
    TypeFromLayout(s, codec, insert, text, 0, position);
    TypeFromAt(s, codec, insert, text, 0, position, q);
  }

  // ------------------------------------------------------------ cursor keys

  /** `tab()`: the cursor goes to the next unprotected field, when there is one. */
  function Tab(s: ScreenState): (r: ScreenState)
    requires s.WellFormed()
    ensures r.WellFormed()
  {
    SetCursor(s, FindNextUnprotectedField(s, s.cursor))
  }

  /**
   * `tab()` only moves the cursor, and does nothing when the buffer has no
   * field.  A cursor that moves lands on the start of an unprotected field,
   * the first one after the old cursor going round the screen.
   */
  lemma TabEffect(s: ScreenState)
    requires s.WellFormed()
    ensures var r := Tab(s);
      r == s.(cursor := r.cursor)
      && (s.fieldCount == 0 ==> r == s)
      && (r.cursor != s.cursor ==>
            UnprotectedStarts(s)[r.cursor]
            && forall j :: 0 <= j < BUFFER_SIZE && CyclicallyBetween(s.cursor, j, r.cursor) ==> !UnprotectedStarts(s)[j])
  {
    var f := FindNextUnprotectedField(s, s.cursor);
    if !ValidPosition(f) {
      assert Tab(s) == s;
    } else {
      assert Tab(s) == s.(cursor := f);
    }
  }

  /** `home()`: the cursor goes to cell 0, then to the first unprotected field if there is one. */
  function Home(s: ScreenState): (r: ScreenState)
    requires s.WellFormed()
    ensures r.WellFormed()
  {
    var t := SetCursor(s, 0);
    var first := FindNextUnprotectedField(t, -1);
    if first >= 0 then SetCursor(t, first) else t
  }

  /** Moving the cursor does not change which cells start an unprotected field. */
  lemma CursorKeepsUnprotectedStarts(s: ScreenState, p: int)
    requires s.WellFormed()
    ensures UnprotectedStarts(SetCursor(s, p)) == UnprotectedStarts(s)
  {
    var t := SetCursor(s, p);
    SameLayoutSameProtection(s, t);
    assert forall j :: 0 <= j < BUFFER_SIZE ==> UnprotectedStarts(t)[j] == UnprotectedStarts(s)[j];
  }

  /**
   * `home()` only moves the cursor: to the first cell that starts an
   * unprotected field, or to cell 0 when no cell does.
   */
  lemma HomeEffect(s: ScreenState)
    requires s.WellFormed()
    ensures var r := Home(s);
      r == s.(cursor := r.cursor)
      && ((exists j :: 0 <= j < BUFFER_SIZE && UnprotectedStarts(s)[j]) ==>
            UnprotectedStarts(s)[r.cursor] && forall j :: 0 <= j < r.cursor ==> !UnprotectedStarts(s)[j])
      && ((forall j :: 0 <= j < BUFFER_SIZE ==> !UnprotectedStarts(s)[j]) ==> r.cursor == 0)
  {
    var t := SetCursor(s, 0);
    CursorKeepsUnprotectedStarts(s, 0);
    var first := FindNextUnprotectedField(t, -1);
    if first >= 0 {
      assert Home(s) == s.(cursor := first);
    } else {
      assert Home(s) == s.(cursor := 0);
    }
  }

  // ------------------------------------------------------------ the AID reply

  /**
   * `encodeAddress(a)`: 0x40 or-ed with bits 8-13 of the address, then 0x40
   * or-ed with bits 0-5.  Bits 6 and 7 are not sent.
   */
  function EncodeAddress(a: int): (r: seq<bv8>)
    ensures |r| == 2 && r[0] & 0xC0 == 0x40 && r[1] & 0xC0 == 0x40
  {
    [0x40 | (((a / 256) % 64) as bv8), 0x40 | ((a % 64) as bv8)]
  }

  /** 0x40 or-ed with a six-bit value, decoded by its low six bits, gives the value back. */
  lemma LowSixBits(v: int)
    requires 0 <= v < 64
    ensures ((0x40 | (v as bv8)) & 0x3F) as int == v
  {
    var c := v as bv8;
    assert c < 0x40;
    assert (0x40 | c) & 0x3F == c;
  }

  /** On screen the decoded address keeps bits 0-5 and moves bits 8-10 to bits 6-8; bits 6-7 are lost. */
  lemma EncodeAddressOnScreen(a: int)
    requires 0 <= a < BUFFER_SIZE
    ensures var e := EncodeAddress(a); Orders.DecodeAddress(e[0], e[1]) == (a / 256) * 64 + a % 64
  {
    var e := EncodeAddress(a);
    var hi, lo := (a / 256) % 64, a % 64;
    assert hi == a / 256;
    LowSixBits(hi);
    LowSixBits(lo);
    assert (e[0] & 0x3F) as int == hi;
    assert (e[1] & 0x3F) as int == lo;
  }

  /**
   * The address decoders invert the encoding exactly on cells 0-63; cell 64
   * is sent as 0x40 0x40, the encoding of cell 0.
   */
  lemma EncodeAddressRoundTrip(a: int)
    requires 0 <= a < BUFFER_SIZE
    ensures var e := EncodeAddress(a); Orders.DecodeAddress(e[0], e[1]) == a <==> a < 64
    ensures EncodeAddress(64) == EncodeAddress(0) == [0x40, 0x40]
  {
    EncodeAddressOnScreen(a);
    DroppedBitsLost(a);
    assert EncodeAddress(64) == [0x40 | (0 as bv8), 0x40 | (0 as bv8)];
  }

  /** Keeping bits 0-5 and moving bits 8-10 to 6-8 leaves the address alone exactly below 64. */
  lemma DroppedBitsLost(a: int)
    requires 0 <= a < BUFFER_SIZE
    ensures (a / 256) * 64 + a % 64 == a <==> a < 64
  {
    var h, l := a / 256, a % 256;
    assert a == 256 * h + l;
    assert a % 64 == l % 64;
    assert l == 64 * (l / 64) + l % 64;
    assert a - ((a / 256) * 64 + a % 64) == 192 * h + 64 * (l / 64);
  }

  /** `(byte) ch`: the low eight bits of the character. */
  function ByteOf(c: char): bv8
  {
    ((c as int) % 256) as bv8
  }

  /**
   * The loop of `sendField` from cell `pos`: up to the next field start or
   * the end of the buffer, every character except spaces, and the first
   * data cell even when it is a space.
   */
  function FieldData(s: ScreenState, fieldStart: int, pos: int): (r: seq<bv8>)
    requires s.WellFormed() && 0 <= pos
    decreases BUFFER_SIZE - pos
  {
    if pos >= BUFFER_SIZE || s.starts[pos] then []
    else
      var ch := s.ascii[pos];
      (if ch != ' ' || pos == fieldStart + 1 then [ByteOf(ch)] else []) + FieldData(s, fieldStart, pos + 1)
  }

  /** `sendField(f)`: the encoded address of the field start, then its data. */
  function FieldBytes(s: ScreenState, fieldStart: int): seq<bv8>
    requires s.WellFormed() && 0 <= fieldStart
  {
    EncodeAddress(fieldStart) + FieldData(s, fieldStart, fieldStart + 1)
  }

  /** A field start whose attribute byte carries the MDT bit. */
  predicate IsModifiedField(s: ScreenState, i: int)
    requires s.WellFormed() && 0 <= i < BUFFER_SIZE
  {
    s.starts[i] && Attr(s, i).ToAttributeByte() & ATTR_MDT != 0
  }

  /** `sendModifiedFields` over cells `0..n`: the modified fields in ascending order. */
  function ModifiedFields(s: ScreenState, n: int): seq<bv8>
    requires s.WellFormed() && 0 <= n <= BUFFER_SIZE
  {
    if n == 0 then []
    else ModifiedFields(s, n - 1) + (if IsModifiedField(s, n - 1) then FieldBytes(s, n - 1) else [])
  }

  /**
   * `sendAID(aid)`: the AID, the encoded cursor, the modified fields, and
   * IAC SE as the end-of-record marker.
   */
  function AidReply(s: ScreenState, aid: bv8): (r: seq<bv8>)
    requires s.WellFormed()
    ensures |r| >= 5 && r[0] == aid && r[1..3] == EncodeAddress(s.cursor) && r[|r| - 2..] == [IAC, SE]
  {
    [aid] + EncodeAddress(s.cursor) + ModifiedFields(s, BUFFER_SIZE) + [IAC, SE]
  }

  /**
   * A field without a space sends every data cell up to the next field
   * start (or the end of the buffer), in order, one byte per character.
   */
  lemma {:induction false} FieldDataWithoutSpaces(s: ScreenState, fieldStart: int, pos: int)
    requires s.WellFormed() && 1 <= pos <= BUFFER_SIZE
    requires forall j :: pos <= j < FindFieldEnd(s.starts, pos - 1) ==> s.ascii[j] != ' '
    ensures var end := FindFieldEnd(s.starts, pos - 1);
      FieldData(s, fieldStart, pos) == seq(end - pos, k requires 0 <= k < end - pos => ByteOf(s.ascii[pos + k]))
    decreases BUFFER_SIZE - pos
  {
    var end := FindFieldEnd(s.starts, pos - 1);
    if pos < BUFFER_SIZE && !s.starts[pos] {
      assert FindFieldEnd(s.starts, pos) == end;
      FieldDataWithoutSpaces(s, fieldStart, pos + 1);
    } else {
      assert end == pos;
    }
  }

  /** A field of spaces only sends one space, for its first data cell. */
  lemma {:induction false} BlankFieldSendsOneSpace(s: ScreenState, fieldStart: int, pos: int)
    requires s.WellFormed() && 0 <= fieldStart < pos <= BUFFER_SIZE
    requires forall j :: pos <= j < FindFieldEnd(s.starts, pos - 1) ==> s.ascii[j] == ' '
    ensures FieldData(s, fieldStart, pos)
         == if pos == fieldStart + 1 && pos < BUFFER_SIZE && !s.starts[pos] then [ByteOf(' ')] else []
    decreases BUFFER_SIZE - pos
  {
    if pos < BUFFER_SIZE && !s.starts[pos] {
      assert FindFieldEnd(s.starts, pos) == FindFieldEnd(s.starts, pos - 1);
      BlankFieldSendsOneSpace(s, fieldStart, pos + 1);
    }
  }

  /** Without a modified field the reply is the AID, the cursor address and IAC SE. */
  lemma {:induction false} NoModifiedFields(s: ScreenState, n: int)
    requires s.WellFormed() && 0 <= n <= BUFFER_SIZE
    requires forall i :: 0 <= i < n ==> !IsModifiedField(s, i)
    ensures ModifiedFields(s, n) == []
  {
    if n > 0 {
      NoModifiedFields(s, n - 1);
    }
  }

  /** With one modified field the reply carries that field alone. */
  lemma {:induction false} OneModifiedField(s: ScreenState, f: int, n: int)
    requires s.WellFormed() && 0 <= f < BUFFER_SIZE && IsModifiedField(s, f)
    requires 0 <= n <= BUFFER_SIZE
    requires forall i :: 0 <= i < BUFFER_SIZE && i != f ==> !IsModifiedField(s, i)
    ensures ModifiedFields(s, n) == if f < n then FieldBytes(s, f) else []
  {
    hide FieldBytes, IsModifiedField;
    if n > 0 {
      OneModifiedField(s, f, n - 1);
    }
  }

  /** The Clear key: after `clear` the reply is exactly AID-CLEAR, address 0 and IAC SE. */
  lemma ClearKeyReply(s: ScreenState)
    requires s.WellFormed()
    ensures AidReply(Clear(s), AID_CLEAR) == [AID_CLEAR, 0x40, 0x40, IAC, SE]
  {
    NoModifiedFields(Clear(s), BUFFER_SIZE);
  }
}
