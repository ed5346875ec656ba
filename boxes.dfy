/**
 * The box arithmetic of a quadrant split. A box is PIL's
 * (left, top, right, bottom) rectangle: it holds the pixel columns
 * left .. right - 1 and the rows top .. bottom - 1.
 */
module Boxes {

  datatype Box = Box(left: int, top: int, right: int, bottom: int)

  /** Neither side of the box is inverted. */
  predicate WellFormed(b: Box)
  {
    b.left <= b.right && b.top <= b.bottom
  }

  /** The pixel (x, y) lies in the box. */
  predicate Contains(b: Box, x: int, y: int)
  {
    b.left <= x < b.right && b.top <= y < b.bottom
  }

  function Area(b: Box): int
  {
    (b.right - b.left) * (b.bottom - b.top)
  }

  /**
   * The split point `lo + (hi - lo) // 2` of one axis (Python's `//` by 2
   * rounds toward minus infinity, as Dafny's `/` by a positive divisor does).
   * The lower part is never longer than the upper part and at most one
   * shorter, which pins the point down to the floor midpoint: a width of 5
   * splits into 2 and 3.
   */
  function Midpoint(lo: int, hi: int): (m: int)
    ensures m - lo <= hi - m <= m - lo + 1
    ensures lo <= hi ==> lo <= m <= hi
  {
    lo + (hi - lo) / 2
  }

  /** Positions of the four quadrants in a split, in the order the node stores them. */
  const NorthWest := 0
  const NorthEast := 1
  const SouthWest := 2
  const SouthEast := 3

  /** The four quadrant boxes of `b`, in the order NW, NE, SW, SE. */
  function SplitBoxes(b: Box): (q: seq<Box>)
    ensures |q| == 4
    ensures WellFormed(b) ==> forall i :: 0 <= i < 4 ==> WellFormed(q[i])
  {
    var mx := Midpoint(b.left, b.right);
    var my := Midpoint(b.top, b.bottom);
    [Box(b.left, b.top, mx, my), Box(mx, b.top, b.right, my),
     Box(b.left, my, mx, b.bottom), Box(mx, my, b.right, b.bottom)]
  }

  /** How many boxes of `bs` hold the pixel (x, y). */
  function Owners(bs: seq<Box>, x: int, y: int): nat
  {
    if |bs| == 0 then 0
    else Owners(bs[..|bs| - 1], x, y) + (if Contains(bs[|bs| - 1], x, y) then 1 else 0)
  }

  /**
   * The quadrants tile the parent: every pixel of the parent lies in exactly
   * one quadrant, and no quadrant holds a pixel outside the parent. This
   * holds for every box, an inverted one included (then all five are empty).
   */
  lemma {:induction false} SplitTiles(b: Box, x: int, y: int)
    ensures Owners(SplitBoxes(b), x, y) == if Contains(b, x, y) then 1 else 0
  {
    var q := SplitBoxes(b);
    OwnersOfFour(q[0], q[1], q[2], q[3], x, y);
    assert q == [q[0], q[1], q[2], q[3]];
  }

  lemma OwnersOfFour(a: Box, b: Box, c: Box, d: Box, x: int, y: int)
    ensures Owners([a, b, c, d], x, y) ==
              (if Contains(a, x, y) then 1 else 0) + (if Contains(b, x, y) then 1 else 0) +
              (if Contains(c, x, y) then 1 else 0) + (if Contains(d, x, y) then 1 else 0)
  {
    assert [a, b, c, d][..3] == [a, b, c];
    assert [a, b, c][..2] == [a, b];
    assert [a, b][..1] == [a];
    assert [a][..0] == [];
    assert Owners([a], x, y) == (if Contains(a, x, y) then 1 else 0);
    assert Owners([a, b], x, y) == Owners([a], x, y) + (if Contains(b, x, y) then 1 else 0);
    assert Owners([a, b, c], x, y) == Owners([a, b], x, y) + (if Contains(c, x, y) then 1 else 0);
  }

  /**
   * Which quadrant is which: with `mx` and `my` the midpoints of the two
   * axes, NW holds the pixels of `b` left of `mx` and above `my`, NE those
   * from `mx` rightwards above `my`, SW those left of `mx` from `my` down, and
   * SE the rest. The quadrants meet along the two midlines.
   */
  lemma SplitQuadrants(b: Box, x: int, y: int)
    ensures var q, mx, my := SplitBoxes(b), Midpoint(b.left, b.right), Midpoint(b.top, b.bottom);
            && (Contains(q[NorthWest], x, y) <==> Contains(b, x, y) && x < mx && y < my)
            && (Contains(q[NorthEast], x, y) <==> Contains(b, x, y) && mx <= x && y < my)
            && (Contains(q[SouthWest], x, y) <==> Contains(b, x, y) && x < mx && my <= y)
            && (Contains(q[SouthEast], x, y) <==> Contains(b, x, y) && mx <= x && my <= y)
  {
  }

  /** The quadrant areas add up to the parent's area. */
  lemma SplitAreas(b: Box)
    ensures var q := SplitBoxes(b);
            Area(q[0]) + Area(q[1]) + Area(q[2]) + Area(q[3]) == Area(b)
  {
    var mx := Midpoint(b.left, b.right);
    var my := Midpoint(b.top, b.bottom);
    var w1, w2 := mx - b.left, b.right - mx;
    var h1, h2 := my - b.top, b.bottom - my;
    assert (w1 + w2) * (h1 + h2) == w1 * h1 + w2 * h1 + w1 * h2 + w2 * h2;
  }

  /** A box 5 pixels wide and 3 high splits its columns 2 / 3 and its rows 1 / 2. */
  lemma SplitOddSides()
    ensures SplitBoxes(Box(0, 0, 5, 3)) ==
              [Box(0, 0, 2, 1), Box(2, 0, 5, 1), Box(0, 1, 2, 3), Box(2, 1, 5, 3)]
  {
  }
}
