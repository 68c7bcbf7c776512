/** Screen geometry shared by the region selector and the drawing routine. */
module Geometry {
  /** A screen position in pixels. */
  datatype Point = Point(x: int, y: int)

  /** A rectangle given by its corners (x1, y1, x2, y2), the format of a stored canvas. */
  datatype Rect = Rect(x1: int, y1: int, x2: int, y2: int)

  /** The sampling interval of the drawing routine: `range(0, n, stride)` needs it positive. */
  type Stride = s: int | 0 < s witness 1

  /** Python's `abs` on integers. */
  function Abs(n: int): nat
  {
    if n < 0 then -n else n
  }

  /** x is one of 0, s, 2s, ...: a value `range(0, n, s)` can produce. */
  predicate OnGrid(x: int, s: Stride)
    decreases x
  {
    if x < s then x == 0 else OnGrid(x - s, s)
  }

  lemma {:induction false} OnGridNonNegative(x: int, s: Stride)
    requires OnGrid(x, s)
    ensures x >= 0
    decreases x
  {
    if x >= s {
      OnGridNonNegative(x - s, s);
    }
  }

  /** The successor of a grid point in `range(0, n, s)` is again a grid point. */
  lemma OnGridNext(x: int, s: Stride)
    requires OnGrid(x, s)
    ensures OnGrid(x + s, s)
  {
    OnGridNonNegative(x, s);
  }

  /** Two distinct grid points are at least one stride apart. */
  lemma {:induction false} OnGridApart(a: int, b: int, s: Stride)
    requires OnGrid(a, s) && OnGrid(b, s) && a < b
    ensures a + s <= b
    decreases b
  {
    OnGridNonNegative(a, s);
    if a >= s {
      OnGridApart(a - s, b - s, s);
    }
  }
}
