/**
 * Bounded scans over the field-start flags of the screen buffer.  `FirstIn`
 * and `LastIn` are the reference definitions of the buffer's search loops:
 * the least, respectively greatest, index of a range satisfying a predicate,
 * or -1 when there is none.
 */
module FieldScan {
  import opened Tn3270Constants

  /** Least `i` in `[lo, hi)` with `flags[i]`, or -1. */
  function FirstIn(flags: seq<bool>, lo: int, hi: int): (r: int)
    requires 0 <= lo && hi <= |flags|
    decreases hi - lo
    ensures r == -1 || lo <= r < hi
    ensures r != -1 ==> flags[r] && forall j :: lo <= j < r ==> !flags[j]
    ensures r == -1 <==> forall j :: lo <= j < hi ==> !flags[j]
  {
    if hi <= lo then -1
    else if flags[lo] then lo
    else FirstIn(flags, lo + 1, hi)
  }

  /** Greatest `i` in `[lo, hi)` with `flags[i]`, or -1. */
  function LastIn(flags: seq<bool>, lo: int, hi: int): (r: int)
    requires 0 <= lo && hi <= |flags|
    decreases hi - lo
    ensures r == -1 || lo <= r < hi
    ensures r != -1 ==> flags[r] && forall j :: r < j < hi ==> !flags[j]
    ensures r == -1 <==> forall j :: lo <= j < hi ==> !flags[j]
  {
    if hi <= lo then -1
    else if flags[hi - 1] then hi - 1
    else LastIn(flags, lo, hi - 1)
  }

  /**
   * `j` lies strictly after `a` and strictly before `b` when the buffer is
   * read circularly from `a` (for `a == b`: every other cell).
   */
  predicate CyclicallyBetween(a: int, j: int, b: int) {
    if a < b then a < j < b else a < j || j < b
  }

  /**
   * The circular forward search of `findNextField`: the first flagged cell
   * after `sp`, wrapping round to `0..sp`; -1 when no cell is flagged.
   */
  function NextCyclic(flags: seq<bool>, sp: int): (r: int)
    requires |flags| == BUFFER_SIZE && -1 <= sp < BUFFER_SIZE
    ensures r == -1 <==> forall j :: 0 <= j < BUFFER_SIZE ==> !flags[j]
    ensures r != -1 ==> 0 <= r < BUFFER_SIZE && flags[r]
    ensures r != -1 ==> forall j :: 0 <= j < BUFFER_SIZE && CyclicallyBetween(sp, j, r) ==> !flags[j]
  {
    var after := FirstIn(flags, sp + 1, BUFFER_SIZE);
    if after >= 0 then after else FirstIn(flags, 0, sp + 1)
  }

  /** The circular search finds its own start only when no other cell is flagged. */
  lemma NextCyclicOnlySelf(flags: seq<bool>, sp: int)
    requires |flags| == BUFFER_SIZE && -1 <= sp < BUFFER_SIZE
    ensures NextCyclic(flags, sp) == sp ==> forall j :: 0 <= j < BUFFER_SIZE && j != sp ==> !flags[j]
  {
    hide NextCyclic;
    var r := NextCyclic(flags, sp);
    if r == sp {
      assert forall j :: 0 <= j < BUFFER_SIZE && j != sp ==> CyclicallyBetween(sp, j, r);
    }
  }

  /**
   * The circular backward search of `findPreviousUnprotectedField` from the
   * field start `c`: the nearest flagged cell before `c`, wrapping round to
   * the end of the buffer, never `c` itself; -1 when there is none.
   */
  function PrevCyclic(flags: seq<bool>, c: int): (r: int)
    requires |flags| == BUFFER_SIZE && 0 <= c < BUFFER_SIZE
    ensures r == -1 <==> forall j :: 0 <= j < BUFFER_SIZE && j != c ==> !flags[j]
    ensures r != -1 ==> 0 <= r < BUFFER_SIZE && r != c && flags[r]
    ensures r != -1 ==> forall j :: 0 <= j < BUFFER_SIZE && CyclicallyBetween(r, j, c) ==> !flags[j]
  {
    var before := LastIn(flags, 0, c);
    if before >= 0 then before else LastIn(flags, c + 1, BUFFER_SIZE)
  }

  /**
   * `Buffer.findFieldStart`: the field owning cell `p` is the one whose start
   * is the nearest at or before `p`, and otherwise, wrapping round, the last
   * start of the buffer; -1 when the buffer has no field at all.
   */
  function FindFieldStart(starts: seq<bool>, p: int): (r: int)
    requires |starts| == BUFFER_SIZE
    requires -1 <= p < BUFFER_SIZE
    ensures -1 <= r < BUFFER_SIZE
    ensures r != -1 ==> starts[r]
    ensures 0 <= r <= p ==> forall j :: r < j <= p ==> !starts[j]
    ensures r > p ==> (forall j :: 0 <= j <= p ==> !starts[j]) && (forall j :: r < j < BUFFER_SIZE ==> !starts[j])
    ensures r == -1 <==> forall j :: 0 <= j < BUFFER_SIZE ==> !starts[j]
  {
    var before := LastIn(starts, 0, p + 1);
    if before >= 0 then before
    else LastIn(starts, p + 1, BUFFER_SIZE)
  }

  /**
   * `Screen.findFieldEnd`: the first field start strictly after `p`, or the
   * buffer size when there is none.  Unlike `FindFieldStart` it does not wrap.
   */
  function FindFieldEnd(starts: seq<bool>, p: int): (r: int)
    requires |starts| == BUFFER_SIZE
    requires -1 <= p < BUFFER_SIZE
    ensures p < r <= BUFFER_SIZE
    ensures r < BUFFER_SIZE ==> starts[r]
    ensures forall j :: p < j < r ==> !starts[j]
  {
    var next := FirstIn(starts, p + 1, BUFFER_SIZE);
    if next >= 0 then next else BUFFER_SIZE
  }

  /** A cell that starts a field is its own owner. */
  lemma FieldStartOwnsItself(starts: seq<bool>, p: int)
    requires |starts| == BUFFER_SIZE
    requires 0 <= p < BUFFER_SIZE && starts[p]
    ensures FindFieldStart(starts, p) == p
  {
  }

  /**
   * Every cell of the span from a field start up to (excluding) its field end
   * is owned by that start.
   */
  lemma OwnerWithinField(starts: seq<bool>, s: int, q: int)
    requires |starts| == BUFFER_SIZE
    requires 0 <= s < BUFFER_SIZE && starts[s]
    requires s <= q < FindFieldEnd(starts, s)
    ensures FindFieldStart(starts, q) == s
  {
  }
}
