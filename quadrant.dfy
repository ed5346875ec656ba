/**
 * The quadtree node: a box of the source image with its colour and error,
 * and, once split, its four quadrant children.
 *
 * A node reads the source image only once, on construction: it crops the
 * image to its box, takes the RGB histogram of the crop and summarises it
 * with ColorFromHistogram. `Image` stands for that whole reading, the
 * summary of each box; FromHistograms builds it from the histograms of the
 * boxes and a square root.
 */
module QuadTree {
  import opened Boxes
  import opened HistogramStats

  /** Python's `None`, or a value. */
  datatype Option<T> = None | Some(value: T)

  /** The source image as a node reads it: the colour and error of the pixels in each box. */
  type Image = Box -> Summary

  /**
   * The image whose crop to a box `b` has the RGB histogram `histogramOf(b)`:
   * every box reads as an 8-bit colour, and with a true square root its
   * error is non-negative.
   */
  function FromHistograms(histogramOf: Box -> seq<nat>, sqrt: real -> real): (image: Image)
    ensures forall b :: image(b) == ColorFromHistogram(histogramOf(b), sqrt)
    ensures forall b :: IsByte(image(b).color.r) && IsByte(image(b).color.g) && IsByte(image(b).color.b)
    ensures IsSqrt(sqrt) ==> forall b :: 0.0 <= image(b).error
  {
    b => ColorFromHistogram(histogramOf(b), sqrt)
  }

  class Quadrant {
    var box: Box
    var depth: int
    var children: Option<seq<Quadrant>>
    var leaf: bool
    var color: Color
    var error: real

    /**
     * A new node for `box` at `depth`: no children, not a leaf, and the
     * colour and error of the box's histogram.
     */
    constructor (image: Image, box: Box, depth: int)
      ensures this.box == box && this.depth == depth
      ensures children == None && !leaf
      ensures Measured(image) && Valid()
    {
      this.box := box;
      this.depth := depth;
      children := None;
      leaf := false;
      var summary := image(box);
      color, error := summary.color, summary.error;
    }

    /** The node's colour and error are those of the pixels of `image` in its box. */
    ghost predicate Measured(image: Image)
      reads this
    {
      Summary(color, error) == image(box)
    }

    /** Whether the node has been marked as a leaf. */
    function IsLeaf(): (r: bool)
      reads this
      ensures r <==> leaf
    {
      leaf
    }

    /** The child nodes, as a set of objects. */
    ghost function Kids(): set<Quadrant>
      reads this
    {
      if children.Some? then set c | c in children.value else {}
    }

    /**
     * The node invariant: a node either has no children, or exactly four, one
     * per quadrant of its box in the order NW, NE, SW, SE, one level deeper.
     */
    ghost predicate Valid()
      reads this, Kids()
    {
      children.Some? ==>
        var quadrants := SplitBoxes(box);
        && |children.value| == 4
        && forall i :: 0 <= i < 4 ==>
             children.value[i].box == quadrants[i] && children.value[i].depth == depth + 1
    }

    /** The boxes of the four children, in order. */
    ghost function ChildBoxes(): (q: seq<Box>)
      reads this, Kids()
      requires Valid() && children.Some?
      ensures |q| == 4
    {
      [children.value[0].box, children.value[1].box, children.value[2].box, children.value[3].box]
    }

    /**
     * Splits the node: four new nodes for the quadrants of the box at the
     * next depth, each with no children, not a leaf, and the colour and error
     * of its own box. Only `children` changes.
     */
    method Split(image: Image)
      modifies this`children
      ensures Valid() && children.Some?
      ensures forall i :: 0 <= i < |children.value| ==> fresh(children.value[i])
      ensures forall i, j :: 0 <= i < j < |children.value| ==> children.value[i] != children.value[j]
      ensures forall c :: c in children.value ==> c.children == None && !c.leaf && c.Measured(image)
      ensures box == old(box) && depth == old(depth)
      ensures leaf == old(leaf) && color == old(color) && error == old(error)
    {
      var Box(left, top, right, bottom) := box;
      var leftRight := left + (right - left) / 2;
      var topBottom := top + (bottom - top) / 2;
      ghost var quadrants := SplitBoxes(box);
      assert quadrants == [Box(left, top, leftRight, topBottom), Box(leftRight, top, right, topBottom),
                           Box(left, topBottom, leftRight, bottom), Box(leftRight, topBottom, right, bottom)];
      var northWest := new Quadrant(image, Box(left, top, leftRight, topBottom), depth + 1);
      var northEast := new Quadrant(image, Box(leftRight, top, right, topBottom), depth + 1);
      var southWest := new Quadrant(image, Box(left, topBottom, leftRight, bottom), depth + 1);
      var southEast := new Quadrant(image, Box(leftRight, topBottom, right, bottom), depth + 1);
      children := Some([northWest, northEast, southWest, southEast]);
      assert forall i :: 0 <= i < 4 ==> children.value[i].box == quadrants[i];
    }
  }

  /** The children of a split node tile its box: each pixel of the box lies in exactly one child. */
  lemma ChildrenTile(q: Quadrant, x: int, y: int)
    requires q.Valid() && q.children.Some?
    ensures Owners(q.ChildBoxes(), x, y) == if Contains(q.box, x, y) then 1 else 0
  {
    assert q.ChildBoxes() == SplitBoxes(q.box);
    SplitTiles(q.box, x, y);
  }

  /** The children's areas add up to the area of the split node's box. */
  lemma ChildrenArea(q: Quadrant)
    requires q.Valid() && q.children.Some?
    ensures var c := q.ChildBoxes();
            Area(c[0]) + Area(c[1]) + Area(c[2]) + Area(c[3]) == Area(q.box)
  {
    assert q.ChildBoxes() == SplitBoxes(q.box);
    SplitAreas(q.box);
  }

  /**
   * A node read from an image's histograms has an 8-bit colour and, with a
   * true square root, a non-negative error.
   */
  lemma MeasuredColor(q: Quadrant, histogramOf: Box -> seq<nat>, sqrt: real -> real)
    requires q.Measured(FromHistograms(histogramOf, sqrt))
    ensures IsByte(q.color.r) && IsByte(q.color.g) && IsByte(q.color.b)
    ensures IsSqrt(sqrt) ==> 0.0 <= q.error
  {
    assert Summary(q.color, q.error) == ColorFromHistogram(histogramOf(q.box), sqrt);
  }
}
