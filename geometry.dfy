/** Points, Phaser CE rectangles and the inclusive integer bounds that the chunk grids
    enumerate row by row. */
module Geometry {

  datatype Point = Point(x: int, y: int) {
    /** Phaser's `Point.add(dx, dy)` on a copy. */
    function Add(dx: int, dy: int): Point
    {
      Point(x + dx, y + dy)
    }
  }

  /** Phaser CE's `Rectangle`, as the modelled code uses it: `right` is `x + width` and
      `bottom` is `y + height`; `inflate(dx, dy)` grows the rectangle by `dx` on the left and
      on the right and by `dy` at the top and at the bottom; `offset(dx, dy)` moves it. */
  datatype Rect = Rect(x: int, y: int, width: int, height: int) {
    function Right(): int
    {
      x + width
    }

    function Bottom(): int
    {
      y + height
    }

    function TopLeft(): Point
    {
      Point(x, y)
    }

    function BottomRight(): Point
    {
      Point(Right(), Bottom())
    }

    function Inflate(dx: int, dy: int): Rect
    {
      Rect(x - dx, y - dy, width + 2 * dx, height + 2 * dy)
    }

    function Offset(dx: int, dy: int): Rect
    {
      Rect(x + dx, y + dy, width, height)
    }
  }

  /** An inclusive bound on column and row indices, as `pushChunksInBound` and the loops
      of `listChunksInBounds` take it. */
  datatype Bound = Bound(left: int, right: int, top: int, bottom: int)

  /** The number of integers in [lo, hi]. */
  function Span(lo: int, hi: int): nat
  {
    if hi < lo then 0 else hi - lo + 1
  }

  /** One row of a bound: the points (x, y) for x from `left` up to `right`. */
  function Row(left: int, right: int, y: int): seq<Point>
    decreases right - left
  {
    if right < left then [] else Row(left, right - 1, y) + [Point(right, y)]
  }

  /** The points of a bound in the order two nested inclusive loops visit them:
      rows (y) outer, columns (x) inner. */
  function Grid(b: Bound): seq<Point>
    decreases b.bottom - b.top
  {
    if b.bottom < b.top then []
    else Grid(b.(bottom := b.bottom - 1)) + Row(b.left, b.right, b.bottom)
  }

  predicate NoDup<T(==)>(s: seq<T>)
  {
    forall i, j :: 0 <= i < j < |s| ==> s[i] != s[j]
  }

  /** The k-th point of a row is `left + k` columns in. */
  lemma {:induction false} RowAt(left: int, right: int, y: int, k: int)
    requires 0 <= k < Span(left, right)
    ensures |Row(left, right, y)| == Span(left, right)
    ensures Row(left, right, y)[k] == Point(left + k, y)
    decreases right - left
  {
    RowLength(left, right, y);
    if k < Span(left, right) - 1 {
      RowAt(left, right - 1, y, k);
    }
  }

  lemma {:induction false} RowLength(left: int, right: int, y: int)
    ensures |Row(left, right, y)| == Span(left, right)
    decreases right - left
  {
    if left <= right {
      RowLength(left, right - 1, y);
    }
  }

  lemma {:induction false} RowMember(left: int, right: int, y: int, p: Point)
    ensures p in Row(left, right, y) <==> left <= p.x <= right && p.y == y
    decreases right - left
  {
    if left <= right {
      RowMember(left, right - 1, y, p);
    }
  }

  /** A bound of w columns and h rows enumerates w * h points. */
  lemma {:induction false} GridLength(b: Bound)
    ensures |Grid(b)| == Span(b.left, b.right) * Span(b.top, b.bottom)
    decreases b.bottom - b.top
  {
    if b.top <= b.bottom {
      var b' := b.(bottom := b.bottom - 1);
      GridLength(b');
      RowLength(b.left, b.right, b.bottom);
      var w := Span(b.left, b.right);
      assert Span(b.top, b.bottom) == Span(b'.top, b'.bottom) + 1;
      assert w * Span(b.top, b.bottom) == w * Span(b'.top, b'.bottom) + w;
    }
  }

  lemma DivModUnique(k: int, q: int, r: int, w: int)
    requires w > 0 && 0 <= r < w && k == q * w + r
    ensures k / w == q && k % w == r
  {
    var q', r' := k / w, k % w;
    assert (q' - q) * w == r - r';
    if q' > q {
      AtLeastOnce(q' - q, w);
      assert false;
    } else if q' < q {
      AtLeastOnce(q - q', w);
      assert false;
    }
  }

  lemma AtLeastOnce(d: int, w: int)
    requires d >= 1 && w > 0
    ensures d * w >= w
  {
    assert d * w == (d - 1) * w + w;
  }

  lemma MulComm(a: int, b: int)
    ensures a * b == b * a
  {
  }

  lemma MulSucc(w: int, h: int)
    ensures w * (h + 1) == w * h + w && (h + 1) * w == h * w + w
  {
  }

  /** Row-major indices of a w x h block stay below w * h. */
  lemma RowMajorBound(row: int, col: int, w: int, h: int)
    requires 0 <= row < h && 0 <= col < w
    ensures 0 <= row * w + col < w * h
  {
    PositiveProduct(row, w);
    PositiveProduct(h - row - 1, w);
    assert h * w == (row + 1) * w + (h - row - 1) * w;
    MulComm(h, w);
  }

  /** The quotient and remainder of a row-major index into a w-wide block of h rows
      name its row and column. */
  lemma DivBound(k: int, w: int, h: int)
    requires w > 0 && 0 <= k < w * h
    ensures 0 <= k / w < h && 0 <= k % w < w && k == (k / w) * w + k % w
  {
    var q := k / w;
    if q >= h {
      PositiveProduct(q - h, w);
      MulComm(h, w);
      assert false;
    }
  }

  /** A row-major index is fixed by its quotient and remainder. */
  lemma DivModInjective(i: int, j: int, w: int)
    requires w > 0 && i / w == j / w && i % w == j % w
    ensures i == j
  {
  }

  /** The last index of a non-empty w x h block is column w - 1 of row h - 1. */
  lemma LastIndex(w: int, h: int)
    requires w > 0 && h > 0
    ensures w * h > 0 && w * h - 1 == (h - 1) * w + (w - 1)
  {
    PositiveProduct(w - 1, h - 1);
    assert w * h == (h - 1) * w + w;
  }

  lemma PositiveProduct(a: int, b: int)
    requires a >= 0 && b >= 0
    ensures a * b >= 0
  {
  }

  /** A point is enumerated exactly when it lies inside the bound. */
  lemma {:induction false} GridMember(b: Bound, p: Point)
    ensures p in Grid(b) <==> b.left <= p.x <= b.right && b.top <= p.y <= b.bottom
    decreases b.bottom - b.top
  {
    if b.top <= b.bottom {
      var b' := b.(bottom := b.bottom - 1);
      assert Grid(b) == Grid(b') + Row(b.left, b.right, b.bottom);
      GridMember(b', p);
      RowMember(b.left, b.right, b.bottom, p);
    }
  }

  /** No enumerated point lies left of or above the bound. */
  lemma GridLowerBound(b: Bound)
    ensures forall p :: p in Grid(b) ==> p.x >= b.left && p.y >= b.top
  {
    forall p | p in Grid(b) ensures p.x >= b.left && p.y >= b.top {
      GridMember(b, p);
    }
  }

  /** Entry `row * w + col` of a bound's enumeration is column `left + col` of row
      `top + row`. */
  lemma {:induction false} GridCell(b: Bound, col: int, row: int)
    requires 0 <= col < Span(b.left, b.right) && 0 <= row < Span(b.top, b.bottom)
    ensures |Grid(b)| == Span(b.left, b.right) * Span(b.top, b.bottom)
    ensures 0 <= row * Span(b.left, b.right) + col < |Grid(b)|
    ensures Grid(b)[row * Span(b.left, b.right) + col] == Point(b.left + col, b.top + row)
    decreases b.bottom - b.top
  {
    var w, h := Span(b.left, b.right), Span(b.top, b.bottom);
    var b' := b.(bottom := b.bottom - 1);
    GridLength(b);
    GridLength(b');
    RowLength(b.left, b.right, b.bottom);
    assert Grid(b) == Grid(b') + Row(b.left, b.right, b.bottom);
    RowMajorBound(row, col, w, h);
    if row < h - 1 {
      GridCell(b', col, row);
    } else {
      MulComm(h - 1, w);
      RowAt(b.left, b.right, b.bottom, col);
    }
  }

  /** A non-empty bound enumerates its first row first. */
  lemma {:induction false} GridFirstRow(b: Bound, col: int)
    requires 0 <= col < Span(b.left, b.right) && b.top <= b.bottom
    ensures |Grid(b)| >= Span(b.left, b.right)
    ensures Grid(b)[col] == Point(b.left + col, b.top)
    decreases b.bottom - b.top
  {
    var b' := b.(bottom := b.bottom - 1);
    assert Grid(b) == Grid(b') + Row(b.left, b.right, b.bottom);
    RowLength(b.left, b.right, b.bottom);
    if b.top == b.bottom {
      assert Grid(b') == [];
      RowAt(b.left, b.right, b.bottom, col);
    } else {
      GridFirstRow(b', col);
    }
  }

  /** A non-empty bound enumerates its bottom-right corner last. */
  lemma GridLast(b: Bound)
    requires b.left <= b.right && b.top <= b.bottom
    ensures |Grid(b)| > 0 && Grid(b)[|Grid(b)| - 1] == Point(b.right, b.bottom)
  {
    var b' := b.(bottom := b.bottom - 1);
    assert Grid(b) == Grid(b') + Row(b.left, b.right, b.bottom);
    assert Row(b.left, b.right, b.bottom) == Row(b.left, b.right - 1, b.bottom) + [Point(b.right, b.bottom)];
  }

  /** No point of a row lies left of it or off its line. */
  lemma RowLowerBound(left: int, right: int, y: int)
    ensures forall p :: p in Row(left, right, y) ==> p.x >= left && p.y == y
  {
    forall p | p in Row(left, right, y) ensures p.x >= left && p.y == y {
      RowMember(left, right, y, p);
    }
  }

  /** Every point is enumerated once. */
  lemma {:induction false} GridNoDup(b: Bound)
    ensures NoDup(Grid(b))
    decreases b.bottom - b.top
  {
    if b.top <= b.bottom {
      var b' := b.(bottom := b.bottom - 1);
      GridNoDup(b');
      RowNoDup(b.left, b.right, b.bottom);
      var g, row := Grid(b'), Row(b.left, b.right, b.bottom);
      forall p | p in g ensures p !in row {
        GridMember(b', p);
        RowMember(b.left, b.right, b.bottom, p);
      }
      AppendNoDup(g, row);
    }
  }

  lemma {:induction false} RowNoDup(left: int, right: int, y: int)
    ensures NoDup(Row(left, right, y))
    decreases right - left
  {
    if left <= right {
      RowNoDup(left, right - 1, y);
      RowMember(left, right - 1, y, Point(right, y));
      AppendNoDup(Row(left, right - 1, y), [Point(right, y)]);
    }
  }

  /** Two duplicate-free sequences with no common element concatenate to one. */
  lemma AppendNoDup<T>(a: seq<T>, b: seq<T>)
    requires NoDup(a) && NoDup(b)
    requires forall x :: x in a ==> x !in b
    ensures NoDup(a + b)
  {
    forall i, j | 0 <= i < j < |a + b| ensures (a + b)[i] != (a + b)[j] {
      if j < |a| {
      } else if i >= |a| {
        assert (a + b)[i] == b[i - |a|] && (a + b)[j] == b[j - |a|];
      } else {
        assert (a + b)[i] in a && (a + b)[j] in b;
      }
    }
  }
}
