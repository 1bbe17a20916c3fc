/** The index arithmetic of the wrap-around chunk grid in src/entity/chunk.ts, on chunk
    coordinates alone: which cells a bound, a render window, a join or a scan visits, and in
    which order. `ChunkEntities` maps these cells to the manager's chunk objects.

    The world side is WORLD_SIZE and a chunk is WORLD_SIZE / N wide, which need not be an
    integer; the model never forms that quotient and scales by N instead, since
    floor(v / (WORLD_SIZE / N)) == floor(v * N / WORLD_SIZE). */
module ChunkCells {
  import opened Geometry
  import JsNumbers

  /** The world side in world units (the client's value). */
  const WORLD_SIZE: int := 40000

  /** The configuration the manager's constructor accepts: N chunks a side and a render
      window of renderChunksCount chunks about its centre, no wider than the world. */
  predicate Config(n: int, rc: int)
  {
    n > 0 && rc > 0 && rc * 2 + 1 <= n
  }

  predicate InGrid(c: Point, n: int)
  {
    0 <= c.x < n && 0 <= c.y < n
  }

  /** `(index + n) % n` with JavaScript's `%`, the wrap `pushChunksInBound` applies to a
      column or row index. It lands in the grid for every index from -n on. */
  function WrapIndex(i: int, n: int): (r: int)
    requires n > 0
    ensures i >= -n ==> 0 <= r < n && r == i % n
  {
    ModShift(i, n);
    JsNumbers.Rem(i + n, n)
  }

  lemma ModShift(i: int, n: int)
    requires n > 0
    ensures (i + n) % n == i % n
  {
    DivModUnique(i + n, i / n + 1, i % n, n);
  }

  lemma ModOfSmall(i: int, n: int)
    requires 0 <= i < n
    ensures i % n == i
  {
    DivModUnique(i, 0, i, n);
  }

  lemma ModAddMultiple(x: int, m: int, n: int)
    requires n > 0
    ensures (x + m * n) % n == x % n
  {
    assert x + m * n == (x / n + m) * n + x % n;
    DivModUnique(x + m * n, x / n + m, x % n, n);
  }

  lemma ModBelow(x: int, n: int)
    requires n > 0 && x >= 0
    ensures x % n <= x
  {
    PositiveProduct(x / n, n);
  }

  /** Two indices less than n apart that wrap to the same index are equal. */
  lemma WrapInjective(u: int, v: int, n: int)
    requires n > 0 && -n < u - v < n && u % n == v % n
    ensures u == v
  {
    var qu, qv := u / n, v / n;
    assert u - v == (qu - qv) * n;
    if qu > qv {
      AtLeastOnce(qu - qv, n);
      assert false;
    } else if qu < qv {
      AtLeastOnce(qv - qu, n);
      assert false;
    }
  }

  /** One axis of a render window beginning at `(c - rc) % n`: column `q` is the i-th of the
      window exactly when its offset `(q - c + rc) % n` is i modulo n. */
  lemma WindowAxis(c: int, q: int, n: int, rc: int, i: int)
    requires n > 0 && 0 <= q < n
    ensures ((c - rc) % n + i) % n == q ==> (q - c + rc) % n == i % n
    ensures ((c - rc) % n + (q - c + rc) % n) % n == q
  {
    var left := (c - rc) % n;
    var m1 := (c - rc) / n;
    assert left == (c - rc) - m1 * n;
    if (left + i) % n == q {
      var m2 := (left + i) / n;
      assert q == left + i - m2 * n;
      assert q - c + rc == i + (-(m1 + m2)) * n;
      ModAddMultiple(i, -(m1 + m2), n);
    }
    var d := (q - c + rc) % n;
    var m3 := (q - c + rc) / n;
    assert left + d == q + (-(m1 + m3)) * n;
    ModAddMultiple(q, -(m1 + m3), n);
    ModOfSmall(q, n);
  }

  /** One axis of `toChunkCoordinate`: `Math.floor(v / chunkSize)` reduced by
      `(c % n + n) % n`. The result is the chunk whose span
      [c * WORLD_SIZE / n, (c + 1) * WORLD_SIZE / n) holds the coordinate wrapped into
      [0, WORLD_SIZE). */
  function ChunkIndex(v: int, n: int): (c: int)
    requires n > 0
    ensures 0 <= c < n
    ensures c * WORLD_SIZE <= (v % WORLD_SIZE) * n < c * WORLD_SIZE + WORLD_SIZE
  {
    var q := JsNumbers.FloorDiv(v * n, WORLD_SIZE);
    ScaledFloor(v, n);
    var f := ((v % WORLD_SIZE) * n) / WORLD_SIZE;
    WrappedRemainder(q, n, v / WORLD_SIZE, f);
    JsNumbers.Rem(JsNumbers.Rem(q, n) + n, n)
  }

  /** floor(v * n / W) splits into whole turns of the world and the chunk within a turn. */
  lemma ScaledFloor(v: int, n: int)
    requires n > 0
    ensures var f := ((v % WORLD_SIZE) * n) / WORLD_SIZE;
            0 <= f < n && (v * n) / WORLD_SIZE == (v / WORLD_SIZE) * n + f
  {
    var k, r := v / WORLD_SIZE, v % WORLD_SIZE;
    var f, s := (r * n) / WORLD_SIZE, (r * n) % WORLD_SIZE;
    assert v * n == (k * n) * WORLD_SIZE + r * n;
    assert v * n == (k * n + f) * WORLD_SIZE + s;
    DivModUnique(v * n, k * n + f, s, WORLD_SIZE);
    PositiveProduct(r, n);
    AtLeastOnce(n, WORLD_SIZE - r);
    assert r * n < WORLD_SIZE * n;
  }

  /** `(q % n + n) % n` with JavaScript's `%` is the Euclidean remainder of q. */
  lemma WrappedRemainder(q: int, n: int, k: int, f: int)
    requires n > 0 && 0 <= f < n && q == k * n + f
    ensures JsNumbers.Rem(JsNumbers.Rem(q, n) + n, n) == f
  {
    if q >= 0 {
      DivModUnique(q, k, f, n);
      DivModUnique(f + n, 1, f, n);
    } else if f == 0 {
      DivModUnique(-q, -k, 0, n);
      DivModUnique(n, 1, 0, n);
    } else {
      assert -q == (-k - 1) * n + (n - f);
      DivModUnique(-q, -k - 1, n - f, n);
      ModOfSmall(f, n);
    }
  }

  /** Wrap correctness on one axis: moving a coordinate by whole turns of the world
      keeps its chunk. */
  lemma ChunkIndexPeriodic(v: int, n: int, turns: int)
    requires n > 0
    ensures ChunkIndex(v + turns * WORLD_SIZE, n) == ChunkIndex(v, n)
  {
    DivModUnique(v + turns * WORLD_SIZE, v / WORLD_SIZE + turns, v % WORLD_SIZE, WORLD_SIZE);
  }

  /** `toChunkCoordinate`: the chunk indices of a world coordinate, each in [0, N). */
  function ChunkCoordinate(p: Point, n: int): (c: Point)
    requires n > 0
    ensures InGrid(c, n)
  {
    Point(ChunkIndex(p.x, n), ChunkIndex(p.y, n))
  }

  /** `isInSameRegion`: the two coordinates, each wrapped into [0, WORLD_SIZE), fall in the
      same one of the n spans of WORLD_SIZE / n world units along both axes. */
  function IsInSameRegion(p: Point, q: Point, n: int): (r: bool)
    requires n > 0
    ensures r <==> && (p.x % WORLD_SIZE) * n / WORLD_SIZE == (q.x % WORLD_SIZE) * n / WORLD_SIZE
                   && (p.y % WORLD_SIZE) * n / WORLD_SIZE == (q.y % WORLD_SIZE) * n / WORLD_SIZE
  {
    ChunkIndexIsSpan(p.x, n);
    ChunkIndexIsSpan(q.x, n);
    ChunkIndexIsSpan(p.y, n);
    ChunkIndexIsSpan(q.y, n);
    ChunkCoordinate(p, n) == ChunkCoordinate(q, n)
  }

  /** The chunk index is the number of the span holding the wrapped coordinate. */
  lemma ChunkIndexIsSpan(v: int, n: int)
    requires n > 0
    ensures ChunkIndex(v, n) == (v % WORLD_SIZE) * n / WORLD_SIZE
  {
    var c := ChunkIndex(v, n);
    var s := (v % WORLD_SIZE) * n;
    DivModUnique(s, c, s - c * WORLD_SIZE, WORLD_SIZE);
  }

  /** Wrap correctness: a coordinate and its copy any whole number of turns away on either
      axis are in the same region. */
  lemma WrapKeepsRegion(p: Point, n: int, turnsX: int, turnsY: int)
    requires n > 0
    ensures IsInSameRegion(p, p.Add(turnsX * WORLD_SIZE, turnsY * WORLD_SIZE), n)
  {
    ChunkIndexPeriodic(p.x, n, turnsX);
    ChunkIndexPeriodic(p.y, n, turnsY);
  }

  /** The cell `pushChunksInBound` reads for the index pair p: both indices wrapped. */
  function Wrap(p: Point, n: int): (c: Point)
    requires n > 0 && p.x >= -n && p.y >= -n
    ensures InGrid(c, n)
  {
    Point(WrapIndex(p.x, n), WrapIndex(p.y, n))
  }

  /** The wrap is the Euclidean remainder on both axes. */
  lemma WrapMod(p: Point, n: int)
    requires n > 0 && p.x >= -n && p.y >= -n
    ensures Wrap(p, n).x == p.x % n && Wrap(p, n).y == p.y % n
  {
  }

  /** Index pairs that the wrap takes into the grid. */
  predicate Wrappable(ps: seq<Point>, n: int)
  {
    forall p :: p in ps ==> p.x >= -n && p.y >= -n
  }

  /** The cells of a sequence of index pairs, in order. */
  function Cells(ps: seq<Point>, n: int): (r: seq<Point>)
    requires n > 0 && Wrappable(ps, n)
    ensures |r| == |ps|
    ensures forall k :: 0 <= k < |ps| ==> r[k] == Wrap(ps[k], n)
    ensures forall c :: c in r ==> InGrid(c, n)
  {
    seq(|ps|, k requires 0 <= k < |ps| => assert ps[k] in ps; Wrap(ps[k], n))
  }

  lemma CellsAppend(ps: seq<Point>, qs: seq<Point>, n: int)
    requires n > 0 && Wrappable(ps, n) && Wrappable(qs, n)
    ensures Wrappable(ps + qs, n) && Cells(ps + qs, n) == Cells(ps, n) + Cells(qs, n)
  {
    var r := Cells(ps + qs, n);
    forall k | 0 <= k < |r| ensures r[k] == (Cells(ps, n) + Cells(qs, n))[k] {
      if k < |ps| {
        assert (ps + qs)[k] == ps[k];
      } else {
        assert (ps + qs)[k] == qs[k - |ps|];
      }
    }
  }

  /** A cell of the list comes from one of the index pairs. */
  lemma CellsOrigin(ps: seq<Point>, n: int, q: Point) returns (p: Point)
    requires n > 0 && Wrappable(ps, n) && q in Cells(ps, n)
    ensures p in ps && Wrap(p, n) == q
  {
    var k :| 0 <= k < |ps| && Cells(ps, n)[k] == q;
    p := ps[k];
  }

  /** Each index pair contributes its cell. */
  lemma CellsImage(ps: seq<Point>, n: int, p: Point)
    requires n > 0 && Wrappable(ps, n) && p in ps
    ensures Wrap(p, n) in Cells(ps, n)
  {
    var k :| 0 <= k < |ps| && ps[k] == p;
    assert Cells(ps, n)[k] == Wrap(p, n);
  }

  /** What the inner loop of `pushChunksInBound` visits: columns `left` to `right` of row
      `y`, wrapped. */
  function RowCells(left: int, right: int, y: int, n: int): (r: seq<Point>)
    requires n > 0 && left >= -n && y >= -n
    ensures forall c :: c in r ==> InGrid(c, n)
  {
    RowLowerBound(left, right, y);
    Cells(Row(left, right, y), n)
  }

  lemma RowCellsSnoc(left: int, right: int, y: int, n: int)
    requires n > 0 && left >= -n && y >= -n && left <= right
    ensures RowCells(left, right, y, n) == RowCells(left, right - 1, y, n) + [Wrap(Point(right, y), n)]
  {
    RowLowerBound(left, right, y);
    RowLowerBound(left, right - 1, y);
    assert Row(left, right, y) == Row(left, right - 1, y) + [Point(right, y)];
    CellsAppend(Row(left, right - 1, y), [Point(right, y)], n);
    assert Cells([Point(right, y)], n) == [Wrap(Point(right, y), n)];
  }

  /** An empty row visits nothing. */
  lemma RowCellsEmpty(left: int, right: int, y: int, n: int)
    requires n > 0 && left >= -n && y >= -n && right < left
    ensures RowCells(left, right, y, n) == []
  {
  }

  /** What `pushChunksInBound` visits for an inclusive bound: w * h cells, its rows top to
      bottom, each row left to right, every index wrapped. */
  function BoundCells(b: Bound, n: int): (r: seq<Point>)
    requires n > 0 && b.left >= -n && b.top >= -n
    ensures |r| == Span(b.left, b.right) * Span(b.top, b.bottom)
    ensures forall c :: c in r ==> InGrid(c, n)
  {
    GridLowerBound(b);
    GridLength(b);
    Cells(Grid(b), n)
  }

  lemma BoundCellsSnoc(b: Bound, n: int)
    requires n > 0 && b.left >= -n && b.top >= -n && b.top <= b.bottom
    ensures BoundCells(b, n) ==
              BoundCells(b.(bottom := b.bottom - 1), n) + RowCells(b.left, b.right, b.bottom, n)
  {
    var b' := b.(bottom := b.bottom - 1);
    GridLowerBound(b);
    GridLowerBound(b');
    RowLowerBound(b.left, b.right, b.bottom);
    CellsAppend(Grid(b'), Row(b.left, b.right, b.bottom), n);
  }

  /** What the outer loop has visited when it stops. */
  lemma BoundCellsEmpty(b: Bound, indexY: int, n: int)
    requires n > 0 && b.left >= -n && b.top >= -n
    requires b.top <= indexY <= if b.bottom < b.top then b.top else b.bottom + 1
    requires indexY > b.bottom
    ensures BoundCells(b.(bottom := indexY - 1), n) == BoundCells(b, n)
  {
    if b.top <= b.bottom {
      assert b.(bottom := indexY - 1) == b;
    }
  }

  /** Row-major order: entry `row * w + col` of a bound's cells is column `left + col` and
      row `top + row`, wrapped. */
  lemma BoundCellsCell(b: Bound, n: int, col: int, row: int)
    requires n > 0 && b.left >= -n && b.top >= -n
    requires 0 <= col < Span(b.left, b.right) && 0 <= row < Span(b.top, b.bottom)
    ensures 0 <= row * Span(b.left, b.right) + col < |BoundCells(b, n)|
    ensures BoundCells(b, n)[row * Span(b.left, b.right) + col] ==
              Wrap(Point(b.left + col, b.top + row), n)
  {
    GridLowerBound(b);
    GridCell(b, col, row);
  }

  /** A non-empty bound lists its first row first: entry `col` is column `left + col` of
      row `top`, wrapped. */
  lemma BoundCellsFirstRow(b: Bound, n: int, col: int)
    requires n > 0 && b.left >= -n && b.top >= -n
    requires 0 <= col < Span(b.left, b.right) && b.top <= b.bottom
    ensures col < |BoundCells(b, n)| && BoundCells(b, n)[col] == Wrap(Point(b.left + col, b.top), n)
  {
    GridLowerBound(b);
    GridFirstRow(b, col);
  }

  /** A non-empty bound lists its bottom-right corner, wrapped, last. */
  lemma BoundCellsLast(b: Bound, n: int)
    requires n > 0 && b.left >= -n && b.top >= -n && b.left <= b.right && b.top <= b.bottom
    ensures var r := BoundCells(b, n); |r| > 0 && r[|r| - 1] == Wrap(Point(b.right, b.bottom), n)
  {
    GridLowerBound(b);
    GridLast(b);
  }

  /** A bound inside [0, N) on both axes lists exactly the cells inside it. */
  lemma BoundCellsMember(b: Bound, n: int, q: Point)
    requires n > 0 && InGrid(q, n)
    requires 0 <= b.left && b.right < n && 0 <= b.top && b.bottom < n
    ensures q in BoundCells(b, n) <==> b.left <= q.x <= b.right && b.top <= q.y <= b.bottom
  {
    GridLowerBound(b);
    if q in BoundCells(b, n) {
      var p := CellsOrigin(Grid(b), n, q);
      GridMember(b, p);
      ModOfSmall(p.x, n);
      ModOfSmall(p.y, n);
    }
    if b.left <= q.x <= b.right && b.top <= q.y <= b.bottom {
      GridMember(b, q);
      CellsImage(Grid(b), n, q);
      ModOfSmall(q.x, n);
      ModOfSmall(q.y, n);
    }
  }

  /** Every index pair inside a bound contributes its cell. */
  lemma BoundCellsContain(b: Bound, n: int, p: Point)
    requires n > 0 && b.left >= -n && b.top >= -n
    requires b.left <= p.x <= b.right && b.top <= p.y <= b.bottom
    ensures Wrap(p, n) in BoundCells(b, n)
  {
    GridLowerBound(b);
    GridMember(b, p);
    CellsImage(Grid(b), n, p);
  }

  /** A bound no wider and no taller than the world lists no cell twice, wrapped or not. */
  lemma BoundCellsNoDup(b: Bound, n: int)
    requires n > 0 && b.left >= -n && b.top >= -n
    requires Span(b.left, b.right) <= n && Span(b.top, b.bottom) <= n
    ensures NoDup(BoundCells(b, n))
  {
    GridLowerBound(b);
    GridNoDup(b);
    var g := Grid(b);
    var r := BoundCells(b, n);
    forall i, j | 0 <= i < j < |r| ensures r[i] != r[j] {
      var p, q := g[i], g[j];
      GridMember(b, p);
      GridMember(b, q);
      if r[i] == r[j] {
        WrapInjective(p.x, q.x, n);
        WrapInjective(p.y, q.y, n);
        assert false;
      }
    }
  }

  /** `inflate`: the 1 x 1 rectangle at a chunk coordinate grown by k on every side, moved
      by N and reduced with JavaScript's `%`; its origin is the wrapped corner. */
  function Inflate(c: Point, k: int, n: int): (r: Rect)
    requires n > 0
    ensures r.width == 2 * k + 1 && r.height == 2 * k + 1
    ensures c.x - k >= -n ==> 0 <= r.x < n && r.x == (c.x - k) % n
    ensures c.y - k >= -n ==> 0 <= r.y < n && r.y == (c.y - k) % n
  {
    var bound := Rect(c.x, c.y, 1, 1).Inflate(k, k).Offset(n, n);
    ModShift(c.x - k, n);
    ModShift(c.y - k, n);
    bound.(x := JsNumbers.Rem(bound.x, n), y := JsNumbers.Rem(bound.y, n))
  }

  /** The bound `listRenderableRegions` reads off the inflated rectangle: Phaser's `left`,
      `right`, `top` and `bottom`. As `right` is `x + width`, the inclusive loops cover
      2 * rc + 2 columns and as many rows. */
  function RenderBound(c: Point, n: int, rc: int): (b: Bound)
    requires Config(n, rc) && InGrid(c, n)
    ensures 0 <= b.left < n && b.left == (c.x - rc) % n
    ensures 0 <= b.top < n && b.top == (c.y - rc) % n
    ensures b.right == b.left + 2 * rc + 1 && b.bottom == b.top + 2 * rc + 1
  {
    var r := Inflate(c, rc, n);
    Bound(r.x, r.Right(), r.y, r.Bottom())
  }

  /** The cells of the render window of a chunk coordinate. */
  function WindowCells(c: Point, n: int, rc: int): (r: seq<Point>)
    requires Config(n, rc) && InGrid(c, n)
    ensures |r| == (2 * rc + 2) * (2 * rc + 2)
  {
    BoundCells(RenderBound(c, n, rc), n)
  }

  /** The render window of c holds exactly the cells whose offset from its first column and
      first row, taken round the world, is at most 2 * rc + 1. */
  lemma WindowMember(c: Point, q: Point, n: int, rc: int)
    requires Config(n, rc) && InGrid(c, n) && InGrid(q, n)
    ensures q in WindowCells(c, n, rc) <==>
              (q.x - c.x + rc) % n <= 2 * rc + 1 && (q.y - c.y + rc) % n <= 2 * rc + 1
  {
    if q in WindowCells(c, n, rc) {
      WindowMemberOffsets(c, q, n, rc);
    }
    if (q.x - c.x + rc) % n <= 2 * rc + 1 && (q.y - c.y + rc) % n <= 2 * rc + 1 {
      WindowMemberByOffsets(c, q, n, rc);
    }
  }

  lemma WindowMemberOffsets(c: Point, q: Point, n: int, rc: int)
    requires Config(n, rc) && InGrid(c, n) && InGrid(q, n) && q in WindowCells(c, n, rc)
    ensures (q.x - c.x + rc) % n <= 2 * rc + 1 && (q.y - c.y + rc) % n <= 2 * rc + 1
  {
    var b := RenderBound(c, n, rc);
    GridLowerBound(b);
    var p := CellsOrigin(Grid(b), n, q);
    GridMember(b, p);
    OriginColumn(c, q, n, rc, p);
    OriginRow(c, q, n, rc, p);
  }

  /** A point of the window's bound that wraps to q puts q's column within the window's
      offsets. */
  lemma OriginColumn(c: Point, q: Point, n: int, rc: int, p: Point)
    requires Config(n, rc) && InGrid(c, n) && InGrid(q, n)
    requires var b := RenderBound(c, n, rc); b.left <= p.x <= b.right && b.top <= p.y
    requires Wrap(p, n) == q
    ensures (q.x - c.x + rc) % n <= 2 * rc + 1
  {
    var b := RenderBound(c, n, rc);
    WrapMod(p, n);
    AxisOffset(c.x, q.x, n, rc, b.left, p.x);
  }

  /** The same for q's row. */
  lemma OriginRow(c: Point, q: Point, n: int, rc: int, p: Point)
    requires Config(n, rc) && InGrid(c, n) && InGrid(q, n)
    requires var b := RenderBound(c, n, rc); b.left <= p.x && b.top <= p.y <= b.bottom
    requires Wrap(p, n) == q
    ensures (q.y - c.y + rc) % n <= 2 * rc + 1
  {
    var b := RenderBound(c, n, rc);
    WrapMod(p, n);
    AxisOffset(c.y, q.y, n, rc, b.top, p.y);
  }

  /** A column the window beginning at `left == (c - rc) % n` visits, wrapped, is at most
      2 * rc + 1 columns on from the window's start. */
  lemma AxisOffset(c: int, q: int, n: int, rc: int, left: int, v: int)
    requires n > 0 && 0 <= q < n && left == (c - rc) % n
    requires left <= v <= left + 2 * rc + 1 && v % n == q
    ensures (q - c + rc) % n <= 2 * rc + 1
  {
    var i := v - left;
    WindowAxis(c, q, n, rc, i);
    ModBelow(i, n);
  }

  lemma WindowMemberByOffsets(c: Point, q: Point, n: int, rc: int)
    requires Config(n, rc) && InGrid(c, n) && InGrid(q, n)
    requires (q.x - c.x + rc) % n <= 2 * rc + 1 && (q.y - c.y + rc) % n <= 2 * rc + 1
    ensures q in WindowCells(c, n, rc)
  {
    var b := RenderBound(c, n, rc);
    var dx, dy := (q.x - c.x + rc) % n, (q.y - c.y + rc) % n;
    var p := Point(b.left + dx, b.top + dy);
    WindowReach(c, q, n, rc, b.left, b.top);
    BoundCellsContain(b, n, p);
  }

  /** The window beginning at column `left` and row `top` reaches cell q at its offsets. */
  lemma WindowReach(c: Point, q: Point, n: int, rc: int, left: int, top: int)
    requires n > 0 && InGrid(q, n) && left == (c.x - rc) % n && top == (c.y - rc) % n
    ensures Wrap(Point(left + (q.x - c.x + rc) % n, top + (q.y - c.y + rc) % n), n) == q
  {
    AxisReach(left, c.x, q.x, n, rc);
    AxisReach(top, c.y, q.y, n, rc);
  }

  /** The window beginning at `left == (c - rc) % n` reaches column q at offset
      `(q - c + rc) % n`. */
  lemma AxisReach(left: int, c: int, q: int, n: int, rc: int)
    requires n > 0 && 0 <= q < n && left == (c - rc) % n
    ensures (left + (q - c + rc) % n) % n == q
  {
    WindowAxis(c, q, n, rc, 0);
  }

  /** A chunk coordinate lies in its own render window. */
  lemma CenterInWindow(c: Point, n: int, rc: int)
    requires Config(n, rc) && InGrid(c, n)
    ensures c in WindowCells(c, n, rc)
  {
    ModOfSmall(rc, n);
    WindowMember(c, c, n, rc);
  }

  /** When the window is no wider than the world, it lists each cell once. */
  lemma WindowNoDup(c: Point, n: int, rc: int)
    requires Config(n, rc) && InGrid(c, n) && 2 * rc + 2 <= n
    ensures NoDup(WindowCells(c, n, rc))
  {
    BoundCellsNoDup(RenderBound(c, n, rc), n);
  }

  /** When 2 * rc + 1 == N, which the constructor accepts, the 2 * rc + 2 columns of a window
      are one more than the world has, and its first cell is listed again N entries on. */
  lemma WindowRepeatsWhenWorldWide(c: Point, n: int, rc: int)
    requires Config(n, rc) && InGrid(c, n) && 2 * rc + 1 == n
    ensures |WindowCells(c, n, rc)| > n && WindowCells(c, n, rc)[n] == WindowCells(c, n, rc)[0]
  {
    var b := RenderBound(c, n, rc);
    BoundCellsFirstRow(b, n, 0);
    BoundCellsFirstRow(b, n, n);
    ModShift(b.left, n);
  }

  /** Whether a chunk coordinate's render window stays clear of the world's edges, so that
      none of the window's indices wrap. */
  predicate InsideSeam(c: Point, n: int, rc: int)
  {
    && rc <= c.x && c.x + rc + 1 < n
    && rc <= c.y && c.y + rc + 1 < n
  }

  /** The columns one window has and the other lacks, over the first window's rows. */
  function VerticalStrip(a: Point, b: Point, n: int, rc: int): (s: Bound)
    requires Config(n, rc) && InGrid(a, n) && InGrid(b, n)
    ensures s.left >= 0 && s.top >= 0
  {
    var lb, rb := RenderBound(a, n, rc), RenderBound(b, n, rc);
    if a.x < b.x then Bound(lb.left, rb.left - 1, lb.top, lb.bottom)
    else Bound(rb.right + 1, lb.right, lb.top, lb.bottom)
  }

  /** The rows one window has and the other lacks, over the columns they share. */
  function HorizontalStrip(a: Point, b: Point, n: int, rc: int): (s: Bound)
    requires Config(n, rc) && InGrid(a, n) && InGrid(b, n)
    ensures s.left >= 0 && s.top >= 0
  {
    var lb, rb := RenderBound(a, n, rc), RenderBound(b, n, rc);
    Bound(if a.x < b.x then rb.left else lb.left,
          if a.x < b.x then lb.right else rb.right,
          if a.y < b.y then lb.top else rb.bottom + 1,
          if a.y < b.y then rb.top - 1 else lb.bottom)
  }

  /** The cells `leftOuterJoinRenderableRegions` lists for two chunk coordinates: nothing
      when they are equal, else the vertical strip (when the columns differ) followed by the
      horizontal strip (when the rows differ). */
  function JoinCells(a: Point, b: Point, n: int, rc: int): (r: seq<Point>)
    requires Config(n, rc) && InGrid(a, n) && InGrid(b, n)
    ensures a == b ==> r == []
    ensures forall c :: c in r ==> InGrid(c, n)
  {
    if a == b then []
    else
      (if a.x != b.x then BoundCells(VerticalStrip(a, b, n, rc), n) else []) +
      (if a.y != b.y then BoundCells(HorizontalStrip(a, b, n, rc), n) else [])
  }

  /** Away from the seam, and for a move of at most one window width on each axis, the join
      lists exactly the cells of the first window that the second window lacks. */
  lemma JoinIsWindowDifference(a: Point, b: Point, q: Point, n: int, rc: int)
    requires Config(n, rc) && InGrid(a, n) && InGrid(b, n) && InGrid(q, n)
    requires InsideSeam(a, n, rc) && InsideSeam(b, n, rc)
    requires -(2 * rc + 2) <= a.x - b.x <= 2 * rc + 2
    requires -(2 * rc + 2) <= a.y - b.y <= 2 * rc + 2
    ensures q in JoinCells(a, b, n, rc) <==>
              q in WindowCells(a, n, rc) && q !in WindowCells(b, n, rc)
  {
    WindowCellsUnwrapped(a, q, n, rc);
    WindowCellsUnwrapped(b, q, n, rc);
    if a == b {
      assert JoinCells(a, b, n, rc) == [];
    } else {
      JoinCellsUnwrapped(a, b, q, n, rc);
      StripsAreDifference(a, b, q, rc);
    }
  }

  /** Away from the seam a window holds the cells of its unwrapped square. */
  lemma WindowCellsUnwrapped(c: Point, q: Point, n: int, rc: int)
    requires Config(n, rc) && InGrid(c, n) && InGrid(q, n) && InsideSeam(c, n, rc)
    ensures q in WindowCells(c, n, rc) <==> InSquare(c, q, rc)
  {
    UnwrappedWindow(c, n, rc);
    BoundCellsMember(RenderBound(c, n, rc), n, q);
  }

  /** Away from the seam the join of two distinct centres holds the cells of its two
      unwrapped strips. */
  lemma JoinCellsUnwrapped(a: Point, b: Point, q: Point, n: int, rc: int)
    requires Config(n, rc) && InGrid(a, n) && InGrid(b, n) && InGrid(q, n) && a != b
    requires InsideSeam(a, n, rc) && InsideSeam(b, n, rc)
    ensures q in JoinCells(a, b, n, rc) <==>
              || (&& a.x != b.x && a.y - rc <= q.y <= a.y + rc + 1
                  && (if a.x < b.x then a.x - rc <= q.x <= b.x - rc - 1
                      else b.x + rc + 2 <= q.x <= a.x + rc + 1))
              || (&& a.y != b.y
                  && (if a.x < b.x then b.x - rc <= q.x <= a.x + rc + 1
                      else a.x - rc <= q.x <= b.x + rc + 1)
                  && (if a.y < b.y then a.y - rc <= q.y <= b.y - rc - 1
                      else b.y + rc + 2 <= q.y <= a.y + rc + 1))
  {
    UnwrappedWindow(a, n, rc);
    UnwrappedWindow(b, n, rc);
    var v, h := VerticalStrip(a, b, n, rc), HorizontalStrip(a, b, n, rc);
    BoundCellsMember(v, n, q);
    BoundCellsMember(h, n, q);
  }

  /** Whether q lies in the unwrapped window of c: columns and rows c - rc to c + rc + 1. */
  predicate InSquare(c: Point, q: Point, rc: int)
  {
    c.x - rc <= q.x <= c.x + rc + 1 && c.y - rc <= q.y <= c.y + rc + 1
  }

  /** The join's two strips, unwrapped, cover the first window less the second when the
      centres are distinct and at most one window width apart on each axis. */
  lemma StripsAreDifference(a: Point, b: Point, q: Point, rc: int)
    requires a != b && rc > 0
    requires -(2 * rc + 2) <= a.x - b.x <= 2 * rc + 2
    requires -(2 * rc + 2) <= a.y - b.y <= 2 * rc + 2
    ensures var inV := a.x != b.x && a.y - rc <= q.y <= a.y + rc + 1 &&
                       (if a.x < b.x then a.x - rc <= q.x <= b.x - rc - 1
                        else b.x + rc + 2 <= q.x <= a.x + rc + 1);
            var inH := a.y != b.y &&
                       (if a.x < b.x then b.x - rc <= q.x <= a.x + rc + 1
                        else a.x - rc <= q.x <= b.x + rc + 1) &&
                       (if a.y < b.y then a.y - rc <= q.y <= b.y - rc - 1
                        else b.y + rc + 2 <= q.y <= a.y + rc + 1);
            inV || inH <==> InSquare(a, q, rc) && !InSquare(b, q, rc)
  {
  }

  /** Away from the seam a window's bound is its centre's indices, unwrapped. */
  lemma UnwrappedWindow(c: Point, n: int, rc: int)
    requires Config(n, rc) && InGrid(c, n) && InsideSeam(c, n, rc)
    ensures RenderBound(c, n, rc) == Bound(c.x - rc, c.x + rc + 1, c.y - rc, c.y + rc + 1)
  {
    ModOfSmall(c.x - rc, n);
    ModOfSmall(c.y - rc, n);
  }

  /** Away from the seam the join lists no cell twice: each strip is duplicate-free and the
      vertical strip's columns lie outside the horizontal strip's. */
  lemma JoinNoDup(a: Point, b: Point, n: int, rc: int)
    requires Config(n, rc) && InGrid(a, n) && InGrid(b, n)
    requires InsideSeam(a, n, rc) && InsideSeam(b, n, rc)
    ensures NoDup(JoinCells(a, b, n, rc))
  {
    if a != b {
      UnwrappedWindow(a, n, rc);
      UnwrappedWindow(b, n, rc);
      var v, h := VerticalStrip(a, b, n, rc), HorizontalStrip(a, b, n, rc);
      var vs := if a.x != b.x then BoundCells(v, n) else [];
      var hs := if a.y != b.y then BoundCells(h, n) else [];
      if a.x != b.x {
        BoundCellsNoDup(v, n);
      }
      if a.y != b.y {
        BoundCellsNoDup(h, n);
      }
      forall q | q in vs ensures q !in hs {
        if a.x != b.x && a.y != b.y {
          StripsDisjoint(a, b, q, n, rc);
        }
      }
      AppendNoDup(vs, hs);
    }
  }

  /** Away from the seam no cell of the vertical strip is in the horizontal strip. */
  lemma StripsDisjoint(a: Point, b: Point, q: Point, n: int, rc: int)
    requires Config(n, rc) && InGrid(a, n) && InGrid(b, n) && a.x != b.x && a.y != b.y
    requires InsideSeam(a, n, rc) && InsideSeam(b, n, rc)
    requires q in BoundCells(VerticalStrip(a, b, n, rc), n)
    ensures q !in BoundCells(HorizontalStrip(a, b, n, rc), n)
  {
    UnwrappedWindow(a, n, rc);
    UnwrappedWindow(b, n, rc);
    var v, h := VerticalStrip(a, b, n, rc), HorizontalStrip(a, b, n, rc);
    BoundCellsMember(v, n, q);
    BoundCellsMember(h, n, q);
  }

  /** `Math.ceil(radius * 2 / chunkSize)`, the side of the squares `scan` lists. */
  function ScanSize(radius: int, n: int): (size: int)
    requires n > 0
    ensures (size - 1) * WORLD_SIZE < radius * 2 * n <= size * WORLD_SIZE
  {
    JsNumbers.CeilDiv(radius * 2 * n, WORLD_SIZE)
  }

  /** The bound `scan` lists for an anchor: `inflation + 1` chunks on a side. */
  function Square(anchor: Point, inflation: int): Bound
  {
    Bound(anchor.x, anchor.x + inflation, anchor.y, anchor.y + inflation)
  }

  predicate NonNegative(ps: seq<Point>)
  {
    forall p :: p in ps ==> p.x >= 0 && p.y >= 0
  }

  /** The anchors of row y of `scan`: columns 0 up to `count - 1`. */
  function AnchorRow(count: int, y: int): (r: seq<Point>)
    requires y >= 0
    ensures NonNegative(r)
  {
    RowLowerBound(0, count - 1, y);
    Row(0, count - 1, y)
  }

  /** The anchors of the first `rows` rows of `scan`, rows outer, `end` of them a row. */
  function Anchors(rows: int, end: int): (r: seq<Point>)
    ensures NonNegative(r)
  {
    GridLowerBound(Bound(0, end - 1, 0, rows - 1));
    Grid(Bound(0, end - 1, 0, rows - 1))
  }

  /** A square of `size` cells a side inside the grid lists its own cells, unwrapped. */
  lemma SquareCell(x: int, y: int, size: int, n: int, col: int, row: int)
    requires n > 0 && 0 <= x && 0 <= y && x + size <= n && y + size <= n
    requires 0 <= col < size && 0 <= row < size
    ensures var cells := BoundCells(Square(Point(x, y), size - 1), n);
            && |cells| == size * size
            && 0 <= row * size + col < size * size
            && cells[row * size + col] == Point(x + col, y + row)
  {
    var b := Square(Point(x, y), size - 1);
    assert Span(b.left, b.right) == size && Span(b.top, b.bottom) == size;
    BoundCellsCell(b, n, col, row);
    ModOfSmall(x + col, n);
    ModOfSmall(y + row, n);
  }

  /** The bound `listNeighborsAround` lists: from the chunk of the corner `radius` up and
      left of the point to the chunk of the corner `radius` down and right, the latter moved
      on by N where it wrapped past the former. */
  function NeighborBound(p: Point, radius: int, n: int): (b: Bound)
    requires n > 0
    ensures 0 <= b.left < n && 0 <= b.top < n
    ensures b.left <= b.right < b.left + n && b.top <= b.bottom < b.top + n
  {
    var topLeft := ChunkCoordinate(p.Add(-radius, -radius), n);
    var bottomRight := ChunkCoordinate(p.Add(radius, radius), n);
    Bound(topLeft.x, if topLeft.x > bottomRight.x then bottomRight.x + n else bottomRight.x,
          topLeft.y, if topLeft.y > bottomRight.y then bottomRight.y + n else bottomRight.y)
  }

  /** The neighbours start at the chunk of the top-left corner, end at the chunk of the
      bottom-right corner, and list no cell twice. */
  lemma NeighborsCorners(p: Point, radius: int, n: int)
    requires n > 0
    ensures var r := BoundCells(NeighborBound(p, radius, n), n);
            && |r| > 0 && NoDup(r)
            && r[0] == ChunkCoordinate(p.Add(-radius, -radius), n)
            && r[|r| - 1] == ChunkCoordinate(p.Add(radius, radius), n)
  {
    var b := NeighborBound(p, radius, n);
    BoundCellsNoDup(b, n);
    BoundCellsFirstRow(b, n, 0);
    BoundCellsLast(b, n);
    ModOfSmall(b.left, n);
    ModOfSmall(b.top, n);
    var br := ChunkCoordinate(p.Add(radius, radius), n);
    ModShift(br.x, n);
    ModShift(br.y, n);
    ModOfSmall(br.x, n);
    ModOfSmall(br.y, n);
  }
}
