/** Integer positions, rectangles and the Java integer division the grid
    constructor uses. */
module Geometry {

  /** A grid coordinate; two positions denote the same cell iff both
      coordinates agree (structural equality). */
  datatype Pos = Pos(x: int, y: int)

  /** An axis-aligned rectangle with inclusive corners `lo` and `hi`. */
  datatype Rect = Rect(lo: Pos, hi: Pos)

  predicate InRect(p: Pos, r: Rect) {
    r.lo.x <= p.x <= r.hi.x && r.lo.y <= p.y <= r.hi.y
  }

  /** True iff `p` lies in the rectangle spanned by `start` and `end`. */
  predicate InBounds(p: Pos, start: Pos, end: Pos) {
    InRect(p, Rect(start, end))
  }

  function Abs(a: int): nat {
    if a < 0 then -a else a
  }

  /** Java's `a / d` for a positive divisor: the quotient is rounded toward
      zero (section 15.17.2 of the Java Language Specification), unlike
      Dafny's Euclidean `/`, which rounds negative dividends down. */
  function TruncDiv(a: int, d: int): (q: int)
    requires d > 0
    ensures Abs(q) * d <= Abs(a) < Abs(q) * d + d
    ensures a >= 0 ==> q >= 0
    ensures a <= 0 ==> q <= 0
  {
    if a >= 0 then a / d else -((-a) / d)
  }

  /** Truncating division is odd in its dividend, so it differs from Dafny's
      `/` exactly on negative dividends that `d` does not divide. */
  lemma TruncDivIsOdd(a: int, d: int)
    requires d > 0
    ensures TruncDiv(-a, d) == -TruncDiv(a, d)
  {
  }

  /** A concrete witness of the difference: Java gives -2 for `-5 / 2`,
      Dafny's `/` gives -3. */
  lemma TruncDivDiffersFromEuclidean()
    ensures TruncDiv(-5, 2) == -2
    ensures (-5) / 2 == -3
  {
  }
}
