# QTree quadrant node, in Dafny

QTree compresses an image lossily. It cuts the image into quadrants, and each
quadrant is drawn in one flat colour. This project models the only part of the
program that has logic, the `Quadrant` node of `qtree.py`. It has three parts:

- **Histogram statistics** (module `HistogramStats`, `stats.dfy`).
  - `weighted_average` turns a histogram of bucket counts into a
    population-weighted mean and a standard deviation. A histogram whose
    counts sum to 0 gives `(0, 0)`.
  - `color_from_histogram` reads red, green and blue from buckets
    [0, 256), [256, 512) and [512, 768). It truncates each channel mean to an
    integer. It combines the three channel errors with the luma weights
    0.2989, 0.5870 and 0.1140.
  - Arithmetic is exact (`real`). Python's float division and `int()` are
    written out: `int()` is truncation toward zero (`Truncate`).
  - Slicing is Python's `hist[lo:hi]`, which stops at the end of a short list
    (`Slice`). So any histogram length is accepted, and the colour is still
    8-bit.
- **Box arithmetic of a split** (module `Boxes`, `boxes.dfy`). A box is PIL's
  `(left, top, right, bottom)`, holding columns `left .. right-1` and rows
  `top .. bottom-1`.
  - The split point of each axis is `lo + (hi - lo) // 2`. Python's `//` by 2
    rounds toward minus infinity, and so does Dafny's `/` by a positive
    divisor.
  - The four quadrants are kept in the order NW, NE, SW, SE. They tile the
    parent: every pixel of the parent lies in exactly one quadrant, and no
    quadrant reaches outside the parent. This holds for every box, a
    degenerate or inverted one included. Their areas add up to the parent's.
- **The node** (module `QuadTree`, `quadrant.dfy`). The class `Quadrant` has
  the fields of the Python object: `box`, `depth`, `children` (`None` or a
  list of nodes), `leaf`, `color` and `error`.
  - A new node has no children and is not a leaf.
  - `Split` replaces `children` with four fresh nodes, one per quadrant, at
    `depth + 1`. It changes no other field of the parent. Afterwards the node
    satisfies the invariant `Valid()`: four children, on the quadrant boxes,
    one level deeper.

The node reads the image only on construction: it crops the image to its box,
takes the crop's RGB histogram and summarises it with `color_from_histogram`.
The model passes that reading in as `Image`, a function from a box to its
colour and error. `FromHistograms` builds such an `Image` from the histograms
of the boxes, using `ColorFromHistogram`. The square root (`** 0.5`) is a
parameter `sqrt`. Facts that need it assume `IsSqrt(sqrt)`: the root is
non-negative and its square is its argument.

Some facts about the code that the model keeps as they are:

- main.py calls `QTree(image, depth)`, `create_gif` and `save_image`, but
  `QTree` (qtree.py:56-58) is an empty class. There is no tree builder or
  renderer to model.
- Every new node sets `leaf = False` (qtree.py:11), and nothing in qtree.py
  sets it to `True`. The model does the same.
- `weighted_average` and `color_from_histogram` accept a histogram of any
  length. A short list is sliced short.
- `depth` is any integer. A split adds 1 to it.

## Model

| member | source | states |
|---|---|---|
| HistogramStats.Total | qtree.py:20 | the pixel count of a histogram is 0 exactly when every bucket is empty |
| HistogramStats.SquaredDeviation | qtree.py:24 | the count-weighted sum of squared distances from any centre is non-negative |
| HistogramStats.MomentBound | qtree.py:23 | the index-weighted bucket sum is at most the largest index times the total |
| HistogramStats.Mean | qtree.py:23 | the mean of a histogram with a positive total lies between 0 and the last bucket index |
| HistogramStats.Variance | qtree.py:24 | the variance before the square root is non-negative |
| HistogramStats.WeightedAverage | qtree.py:19-26 | total 0 gives (0, 0); otherwise the mean lies among the bucket indices; the error is non-negative and squares to the variance |
| HistogramStats.SingleBucketSums | qtree.py:20-23 | with all pixels in bucket k, the total is the count of k and the weighted sum is k times it |
| HistogramStats.SingleBucketDeviation | qtree.py:24 | with all pixels in bucket k, nothing deviates from k |
| HistogramStats.SingleBucketMean | qtree.py:23 | with all pixels in bucket k, the mean is k |
| HistogramStats.SingleBucket | qtree.py:19-26 | with all pixels in one bucket k, weighted_average returns mean k and error 0 |
| HistogramStats.Truncate | qtree.py:34 | int() truncates toward zero: the result is the integer part of its argument |
| HistogramStats.Slice | qtree.py:30-32 | a slice holds the elements from lo on, at most hi - lo of them, and exactly that many when the list is long enough |
| HistogramStats.LumaError | qtree.py:33 | the luma-weighted error of non-negative channel errors is non-negative, is 0 exactly when all three are 0, and does not exceed the largest |
| HistogramStats.ColorFromHistogram | qtree.py:29-34 | every colour component is an 8-bit value; the error is non-negative |
| HistogramStats.ChannelSegments | qtree.py:30-34 | for a 768-bucket histogram, red, green and blue come from buckets [0, 256), [256, 512), [512, 768), returned in R, G, B order |
| HistogramStats.ChannelIndependence | qtree.py:29-34 | two 768-bucket histograms that agree on [0, 256) have the same red, on [256, 512) the same green, and on [512, 768) the same blue |
| HistogramStats.EmptyRegion | qtree.py:19-34 | a histogram with no pixels gives colour (0, 0, 0) and error 0 |
| HistogramStats.FlatRegion | qtree.py:19-34 | a region of one flat colour (r, g, b) is given exactly that colour, with error 0 |
| Boxes.Midpoint | qtree.py:41-42 | the lower part of an axis is never longer than the upper part and at most one shorter (floor midpoint), and the point lies between the ends |
| Boxes.SplitBoxes | qtree.py:40-46 | a split gives four boxes, each well formed when the parent is |
| Boxes.SplitQuadrants | qtree.py:40-46 | NW holds the parent's pixels left of the column midpoint and above the row midpoint, NE those from the column midpoint rightwards above the row midpoint, SW those left of it from the row midpoint down, SE the rest |
| Boxes.SplitTiles | qtree.py:40-46 | every pixel of the parent lies in exactly one quadrant, and no quadrant holds a pixel outside it |
| Boxes.SplitAreas | qtree.py:40-46 | the areas of the four quadrants add up to the parent's area |
| Boxes.SplitOddSides | qtree.py:41-46 | a 5 by 3 box splits its columns 2 / 3 and its rows 1 / 2 |
| QuadTree.FromHistograms | qtree.py:13-16 | a box's colour and error come from ColorFromHistogram on that box's histogram, so every box reads as an 8-bit colour, and with a true square root its error is non-negative |
| QuadTree.Quadrant.constructor | qtree.py:7-16 | a new node has the given box and depth, no children, is not a leaf, and has the colour and error of its box |
| QuadTree.Quadrant.IsLeaf | qtree.py:36-37 | reports the leaf flag |
| QuadTree.Quadrant.Split | qtree.py:39-52 | children becomes four fresh, distinct nodes on the NW, NE, SW, SE quadrants at depth + 1, each childless, not a leaf, with its own box's colour and error; box, depth, leaf, colour and error are unchanged |
| QuadTree.ChildrenTile | qtree.py:39-52 | the children of a split node tile its box |
| QuadTree.ChildrenArea | qtree.py:39-52 | the children's areas add up to the area of the split node |
| QuadTree.MeasuredColor | qtree.py:13-16 | a node read from histograms has an 8-bit colour and a non-negative error |

## Left out

- PIL: `image.crop`, `image.histogram()` and `image.size` (qtree.py:13-15) are a foreign library. The node receives the reading of its box as the `Image` parameter. `width` and `height` are not modelled.
- QuadTree.Quadrant.constructor: the colour and error come from the `Image` parameter, not from a call to ColorFromHistogram inside the constructor. FromHistograms makes that composition. This keeps the proof of Split small enough for the solver.
- The square root `** 0.5` (qtree.py:25) has no exact counterpart. It is the parameter `sqrt`. IsSqrt also states the root of 0 outright, because the solver does not derive it from the other clause.
- Floating point: every quantity is an exact rational. No float rounding of the division (qtree.py:23) or of the luma constants (qtree.py:33) is modelled.
- QuadTree.Quadrant.Valid covers one level: a node's own children. It says nothing about grandchildren, because `split` itself creates only one level.
- `QTree` (qtree.py:56-58) is an empty class. The `QTree(image, depth)`, `create_gif` and `save_image` that main.py calls are not defined in qtree.py.
- main.py is command-line glue: argument parsing, file paths, `Image.open` and file output.
- `threading` (qtree.py:1) is imported but not used.
