/**
 * Row/column view of a buffer address on the 80x24 screen.  Java's `/` and
 * `%` truncate toward zero, so they are written out for negative operands.
 */
module BufferPositions {
  import opened Tn3270Constants

  datatype BufferPosition = BufferPosition(position: int, row: int, col: int)
  {
    predicate IsValid() {
      0 <= position < BUFFER_SIZE
      && 0 <= row < SCREEN_HEIGHT
      && 0 <= col < SCREEN_WIDTH
    }
  }

  /** Java integer division (truncates toward zero). */
  function JavaDiv(a: int, b: int): (q: int)
    requires b > 0
    ensures a >= 0 ==> q == a / b
    ensures a < 0 ==> q == -((-a) / b)
  {
    if a >= 0 then a / b else -((-a) / b)
  }

  /** Java remainder: same sign as the dividend. */
  function JavaRem(a: int, b: int): (r: int)
    requires b > 0
    ensures a == b * JavaDiv(a, b) + r
    ensures a >= 0 ==> 0 <= r < b
    ensures a < 0 ==> -b < r <= 0
  {
    a - b * JavaDiv(a, b)
  }

  /** `new BufferPosition(position)`. */
  function FromPosition(p: int): (bp: BufferPosition)
    ensures bp.position == p
    ensures p == bp.row * SCREEN_WIDTH + bp.col
    ensures 0 <= p ==> 0 <= bp.col < SCREEN_WIDTH && bp.row == p / SCREEN_WIDTH
  {
    BufferPosition(p, JavaDiv(p, SCREEN_WIDTH), JavaRem(p, SCREEN_WIDTH))
  }

  /** A value of Java's 32-bit `int`. */
  predicate IsJavaInt(x: int) {
    -0x8000_0000 <= x < 0x8000_0000
  }

  /** The Java `int` an exact integer result wraps to (two's complement, modulo 2^32). */
  function Wrap32(x: int): (r: int)
    ensures IsJavaInt(r) && (x - r) % 0x1_0000_0000 == 0
    ensures IsJavaInt(x) ==> r == x
  {
    (x + 0x8000_0000) % 0x1_0000_0000 - 0x8000_0000
  }

  /**
   * `new BufferPosition(row, col)`: the address `row * 80 + col` is computed
   * in 32-bit `int` arithmetic and wraps for rows far off screen.
   */
  function FromRowCol(row: int, col: int): (bp: BufferPosition)
    ensures bp.row == row && bp.col == col
    ensures IsJavaInt(bp.position) && (row * SCREEN_WIDTH + col - bp.position) % 0x1_0000_0000 == 0
    ensures IsJavaInt(row * SCREEN_WIDTH + col) ==> bp.position == row * SCREEN_WIDTH + col
  {
    BufferPosition(Wrap32(row * SCREEN_WIDTH + col), row, col)
  }

  /** Row 26843546 overflows: `getPosition()` comes out negative, and the position is invalid. */
  lemma FromRowColWraps()
    ensures FromRowCol(26843546, 0).position == 26843546 * SCREEN_WIDTH - 0x1_0000_0000 < 0
    ensures !FromRowCol(26843546, 0).IsValid()
  {
  }

  /** A position built from an address is valid exactly for on-screen addresses. */
  lemma FromPositionValid(p: int)
    ensures FromPosition(p).IsValid() <==> 0 <= p < BUFFER_SIZE
  {
  }

  /**
   * A position built from row and column is valid exactly when both are in
   * range; an in-range address with a column of 80 or more is still invalid.
   */
  lemma FromRowColValid(row: int, col: int)
    ensures FromRowCol(row, col).IsValid() <==> 0 <= row < SCREEN_HEIGHT && 0 <= col < SCREEN_WIDTH
  {
  }

  lemma WideColumnIsInvalid()
    ensures 0 <= FromRowCol(0, 80).position < BUFFER_SIZE
    ensures !FromRowCol(0, 80).IsValid()
  {
  }

  /** Splitting an on-screen address into row and column and joining them again is the identity. */
  lemma RowColRoundTrip(p: int)
    requires 0 <= p < BUFFER_SIZE
    ensures var bp := FromPosition(p);
      0 <= bp.row < SCREEN_HEIGHT && 0 <= bp.col < SCREEN_WIDTH
      && FromRowCol(bp.row, bp.col).position == p
      && FromRowCol(bp.row, bp.col) == bp
  {
  }
}
