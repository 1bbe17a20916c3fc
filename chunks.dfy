/** The generic chunk grid `Chunks<T>` of src/util/entityStorage/chunk/Chunks.ts: rows of
    chunks of a fixed size in world units, checked by the constructor, looked up through
    wrapped world coordinates and listed by rectangular bounds. */
module GenericChunks {
  import opened Geometry
  import opened Wrappers
  import JsNumbers
  import ChunkCells

  /** The three `TypeError`s the constructor throws. */
  datatype ChunksError = InvalidChunkSize | InvalidDimension | EmptyChunks

  datatype Result<T> = Success(value: T) | Failure(error: ChunksError)

  /** What `this.chunks[y][x]` evaluates to when row `y` exists: the chunk, or `undefined`
      when the row has no column `x`. A missing row makes the access throw; lookups that
      can throw return `Option<Slot<T>>` with `None` for the throw. */
  datatype Slot<T> = Chunk(value: T) | Undefined

  /** `toWorldCoordinate2d`, assumed to wrap each world coordinate into [0, WORLD_SIZE). */
  function WrapWorld(v: int): (r: int)
    ensures 0 <= r < ChunkCells.WORLD_SIZE
  {
    v % ChunkCells.WORLD_SIZE
  }

  /** The set of row widths the constructor collects. */
  function Widths<T>(rows: seq<seq<T>>): set<int>
  {
    set y | 0 <= y < |rows| :: |rows[y]|
  }

  /** At least one row, and all rows of one width. */
  predicate Rectangular<T>(rows: seq<seq<T>>)
  {
    |rows| > 0 && forall y :: 0 <= y < |rows| ==> |rows[y]| == |rows[0]|
  }

  /** The width set has exactly one element just when the rows are rectangular: no rows
      give the empty set and two different widths give two elements. */
  lemma SingleWidth<T>(rows: seq<seq<T>>)
    ensures |Widths(rows)| == 1 <==> Rectangular(rows)
  {
    var ws := Widths(rows);
    if Rectangular(rows) {
      assert ws == {|rows[0]|};
    } else if |rows| == 0 {
      assert ws == {};
    } else {
      var y :| 0 <= y < |rows| && |rows[y]| != |rows[0]|;
      var rest := ws - {|rows[0]|};
      assert |rows[y]| in rest;
      assert ws == rest + {|rows[0]|};
      assert |ws| == |rest| + 1;
    }
  }

  /** The constructor: its three checks, in the order it makes them. */
  function New<T>(rows: seq<seq<T>>, chunkSize: int): (r: Result<Chunks<T>>)
    ensures chunkSize <= 0 ==> r == Failure(InvalidChunkSize)
    ensures chunkSize > 0 && !Rectangular(rows) ==> r == Failure(InvalidDimension)
    ensures chunkSize > 0 && Rectangular(rows) && |rows[0]| == 0 ==> r == Failure(EmptyChunks)
    ensures r.Success? <==> chunkSize > 0 && Rectangular(rows) && |rows[0]| > 0
    ensures r.Success? ==> r.value.rows == rows && r.value.chunkSize == chunkSize && r.value.Valid()
  {
    SingleWidth(rows);
    if chunkSize <= 0 then Failure(InvalidChunkSize)
    else if |Widths(rows)| != 1 then Failure(InvalidDimension)
    else if |rows[0]| == 0 then Failure(EmptyChunks)
    else Success(Chunks(rows, chunkSize))
  }

  datatype Chunks<T> = Chunks(rows: seq<seq<T>>, chunkSize: int)
  {
    /** What a successful constructor call leaves. */
    predicate Valid()
    {
      chunkSize > 0 && Rectangular(rows) && |rows[0]| > 0
    }

    function Width(): nat
    {
      if |rows| == 0 then 0 else |rows[0]|
    }

    /** The grid spans the whole world along both axes, as it does when the grid is
        WORLD_SIZE / chunkSize chunks a side. */
    predicate CoversWorld()
    {
      Width() * chunkSize >= ChunkCells.WORLD_SIZE && |rows| * chunkSize >= ChunkCells.WORLD_SIZE
    }

    /** `getChunkByChunkCoordinates(x, y)`, that is `this.chunks[y][x]`. */
    function At(x: int, y: int): (r: Option<Slot<T>>)
      ensures r.None? <==> !(0 <= y < |rows|)
      ensures r.Some? && r.value.Chunk? <==> 0 <= y < |rows| && 0 <= x < |rows[y]|
      ensures 0 <= y < |rows| && 0 <= x < |rows[y]| ==> r == Some(Chunk(rows[y][x]))
      ensures 0 <= y < |rows| && !(0 <= x < |rows[y]|) ==> r == Some(Undefined)
    {
      if !(0 <= y < |rows|) then None
      else if 0 <= x < |rows[y]| then Some(Chunk(rows[y][x]))
      else Some(Undefined)
    }

    /** `toChunkCoordinates`: the chunk holding the wrapped coordinate. */
    function ToChunkCoordinates(p: Point): (c: Point)
      requires chunkSize > 0
      ensures 0 <= c.x && 0 <= c.y
    {
      Point(JsNumbers.FloorDiv(WrapWorld(p.x), chunkSize), JsNumbers.FloorDiv(WrapWorld(p.y), chunkSize))
    }

    /** `getChunkByCoordinates`: it throws exactly when the wrapped point lies below the
        grid's last row of chunks. */
    function GetChunkByCoordinates(p: Point): (r: Option<Slot<T>>)
      requires chunkSize > 0
      ensures r.None? <==> WrapWorld(p.y) >= |rows| * chunkSize
    {
      var c := ToChunkCoordinates(p);
      QuotientBelowExactly(WrapWorld(p.y), chunkSize, |rows|);
      At(c.x, c.y)
    }

    /** The chunk coordinates name the chunk whose square of world units holds the wrapped
        point. */
    lemma ChunkHoldsPoint(p: Point)
      requires chunkSize > 0
      ensures var c := ToChunkCoordinates(p);
              && c.x * chunkSize <= WrapWorld(p.x) < c.x * chunkSize + chunkSize
              && c.y * chunkSize <= WrapWorld(p.y) < c.y * chunkSize + chunkSize
    {
    }

    /** Going once round the world along either axis lands on the same chunk. */
    lemma ToChunkCoordinatesPeriodic(p: Point, turnsX: int, turnsY: int)
      requires chunkSize > 0
      ensures ToChunkCoordinates(p.Add(turnsX * ChunkCells.WORLD_SIZE, turnsY * ChunkCells.WORLD_SIZE))
              == ToChunkCoordinates(p)
    {
      var w := ChunkCells.WORLD_SIZE;
      DivModUnique(p.x + turnsX * w, p.x / w + turnsX, p.x % w, w);
      DivModUnique(p.y + turnsY * w, p.y / w + turnsY, p.y % w, w);
    }

    /** A floor quotient of a value below `count * size` is below `count`. */
    static lemma QuotientBelow(v: int, size: int, count: int)
      requires size > 0 && 0 <= v < count * size
      ensures 0 <= JsNumbers.FloorDiv(v, size) < count
    {
      ProductOrder(JsNumbers.FloorDiv(v, size), count, size);
    }

    /** A floor quotient is below `count` exactly when the value is below `count * size`. */
    static lemma QuotientBelowExactly(v: int, size: int, count: int)
      requires size > 0 && 0 <= v
      ensures JsNumbers.FloorDiv(v, size) < count <==> v < count * size
    {
      var q := JsNumbers.FloorDiv(v, size);
      if q < count {
        ProductOrder(count, q + 1, size);
        assert (q + 1) * size == q * size + size;
      } else {
        ProductOrder(q, count, size);
      }
    }

    static lemma ProductOrder(a: int, b: int, size: int)
      requires size > 0
      ensures a >= b ==> a * size >= b * size
    {
      if a >= b {
        PositiveProduct(a - b, size);
        assert a * size == b * size + (a - b) * size;
      }
    }

    /** When the grid covers the world, every point maps to a chunk of the grid. */
    lemma CoordinatesInGrid(p: Point)
      requires Valid() && CoversWorld()
      ensures var c := ToChunkCoordinates(p); 0 <= c.x < Width() && 0 <= c.y < |rows|
    {
      QuotientBelow(WrapWorld(p.x), chunkSize, Width());
      QuotientBelow(WrapWorld(p.y), chunkSize, |rows|);
    }

    /** `getChunkByCoordinates` then returns
        `chunks[floor(wy / chunkSize)][floor(wx / chunkSize)]` of the wrapped point. */
    lemma GetChunkSelects(p: Point)
      requires Valid() && CoversWorld()
      ensures var wx, wy := WrapWorld(p.x) / chunkSize, WrapWorld(p.y) / chunkSize;
              && 0 <= wy < |rows| && 0 <= wx < |rows[wy]|
              && GetChunkByCoordinates(p) == Some(Chunk(rows[wy][wx]))
    {
      CoordinatesInGrid(p);
    }

    /** A grid narrower than the world yields `undefined` for the world column just past it. */
    lemma GetChunkPastGrid()
      requires Valid() && Width() * chunkSize < ChunkCells.WORLD_SIZE
      ensures GetChunkByCoordinates(Point(Width() * chunkSize, 0)) == Some(Undefined)
    {
      var v := Width() * chunkSize;
      DivModUnique(v, Width(), 0, chunkSize);
      MulComm(Width(), chunkSize);
    }

    /** The loop bounds of `listChunksInBounds`: the chunk coordinates of the two corners,
        with the bottom-right one moved on by a grid size along an axis where it lies
        before the top-left one. */
    function LoopBound(bounds: Rect): Bound
      requires Valid()
    {
      var topLeft := ToChunkCoordinates(bounds.TopLeft());
      var bottomRight := ToChunkCoordinates(bounds.BottomRight());
      var bottom := if bottomRight.y < topLeft.y then bottomRight.y + |rows| else bottomRight.y;
      var right := if bottomRight.x < topLeft.x then bottomRight.x + |rows[0]| else bottomRight.x;
      Bound(topLeft.x, right, topLeft.y, bottom)
    }

    /** No lookup of the points throws. */
    predicate Found(ps: seq<Point>)
    {
      forall k :: 0 <= k < |ps| ==> At(ps[k].x, ps[k].y).Some?
    }

    /** What the lookups of the points push, when none throws. */
    function Slots(ps: seq<Point>): (r: seq<Slot<T>>)
      requires Found(ps)
      ensures |r| == |ps|
      ensures forall k :: 0 <= k < |ps| ==> r[k] == At(ps[k].x, ps[k].y).value
    {
      if |ps| == 0 then [] else Slots(ps[..|ps| - 1]) + [At(ps[|ps| - 1].x, ps[|ps| - 1].y).value]
    }

    /** What looking up the points in order yields: the pushed values, or `None` when one
        lookup throws. */
    function Listing(ps: seq<Point>): Option<seq<Slot<T>>>
    {
      if Found(ps) then Some(Slots(ps)) else None
    }

    /** One more point adds its lookup at the end. */
    lemma SlotsSnoc(ps: seq<Point>, p: Point)
      requires Found(ps) && At(p.x, p.y).Some?
      ensures Found(ps + [p]) && Slots(ps + [p]) == Slots(ps) + [At(p.x, p.y).value]
    {
      assert (ps + [p])[..|ps|] == ps;
    }

    /** The inner loop of `listChunksInBounds`: row `y` from column `left` to `right`,
        stopping at the first lookup that throws. */
    method ListRow(left: int, right: int, y: int, ghost done: seq<Point>, acc: seq<Slot<T>>)
      returns (r: Option<seq<Slot<T>>>)
      requires Found(done) && acc == Slots(done)
      ensures r == Listing(done + Row(left, right, y))
    {
      var out := acc;
      var x := left;
      while x <= right
        invariant left <= x <= if right < left then left else right + 1
        invariant Found(done + Row(left, x - 1, y)) && out == Slots(done + Row(left, x - 1, y))
        decreases right - x
      {
        var s := At(x, y);
        if s.None? {
          RowThrows(left, right, y, done, x);
          return None;
        }
        ColumnStep(left, x, y, done);
        out := out + [s.value];
        x := x + 1;
      }
      if right < left {
        assert Row(left, right, y) == [] == Row(left, x - 1, y);
      }
      r := Some(out);
    }

    /** Column `x` adds its lookup after the columns before it. */
    lemma ColumnStep(left: int, x: int, y: int, done: seq<Point>)
      requires left <= x && At(x, y).Some?
      requires Found(done + Row(left, x - 1, y))
      ensures Found(done + Row(left, x, y))
      ensures Slots(done + Row(left, x, y)) == Slots(done + Row(left, x - 1, y)) + [At(x, y).value]
    {
      assert done + Row(left, x, y) == (done + Row(left, x - 1, y)) + [Point(x, y)];
      SlotsSnoc(done + Row(left, x - 1, y), Point(x, y));
    }

    /** A lookup that throws in the row makes the whole listing throw. */
    lemma RowThrows(left: int, right: int, y: int, done: seq<Point>, x: int)
      requires left <= x <= right && At(x, y).None?
      ensures !Found(done + Row(left, right, y))
    {
      RowAt(left, right, y, x - left);
      assert (done + Row(left, right, y))[|done| + (x - left)] == Point(x, y);
    }

    /** Row `y` follows the rows above it. */
    lemma GridStep(b: Bound, y: int)
      requires b.top <= y
      ensures Grid(b.(bottom := y)) == Grid(b.(bottom := y - 1)) + Row(b.left, b.right, y)
    {
      assert b.(bottom := y).(bottom := y - 1) == b.(bottom := y - 1);
    }

    /** `listChunksInBounds`: the lookups of the loop bound's points, rows outer and columns
        inner, or `None` when a lookup throws. */
    method ListChunksInBounds(bounds: Rect) returns (r: Option<seq<Slot<T>>>)
      requires Valid()
      ensures r == Listing(Grid(LoopBound(bounds)))
    {
      var b := LoopBound(bounds);
      var out: seq<Slot<T>> := [];
      var y := b.top;
      while y <= b.bottom
        invariant b.top <= y <= if b.bottom < b.top then b.top else b.bottom + 1
        invariant Found(Grid(b.(bottom := y - 1))) && out == Slots(Grid(b.(bottom := y - 1)))
        decreases b.bottom - y
      {
        GridStep(b, y);
        var row := ListRow(b.left, b.right, y, Grid(b.(bottom := y - 1)), out);
        if row.None? {
          GridPrefixThrows(b, y);
          return None;
        }
        out := row.value;
        y := y + 1;
      }
      if b.bottom < b.top {
        assert Grid(b.(bottom := y - 1)) == [] == Grid(b);
      } else {
        assert b.(bottom := y - 1) == b;
      }
      r := Some(out);
    }

    /** A lookup that throws makes any longer listing throw. */
    lemma PrefixThrows(ps: seq<Point>, more: seq<Point>)
      requires !Found(ps)
      ensures !Found(ps + more)
    {
      var k :| 0 <= k < |ps| && At(ps[k].x, ps[k].y).None?;
      assert (ps + more)[k] == ps[k];
    }

    /** A throwing lookup among the first rows makes the whole listing throw. */
    lemma GridPrefixThrows(b: Bound, y: int)
      requires b.top <= y <= b.bottom
      requires !Found(Grid(b.(bottom := y)))
      ensures !Found(Grid(b))
      decreases b.bottom - y
    {
      if y < b.bottom {
        GridStep(b, y + 1);
        PrefixThrows(Grid(b.(bottom := y)), Row(b.left, b.right, y + 1));
        GridPrefixThrows(b, y + 1);
      } else {
        assert b.(bottom := y) == b;
      }
    }

    /** Every point of the bound lies on the grid, so no lookup throws or is `undefined`. */
    lemma BoundOnGrid(b: Bound)
      requires Valid() && 0 <= b.left && b.right < Width() && 0 <= b.top && b.bottom < |rows|
      ensures Found(Grid(b))
      ensures forall k :: 0 <= k < |Grid(b)| ==> At(Grid(b)[k].x, Grid(b)[k].y).value.Chunk?
    {
      var g := Grid(b);
      forall k | 0 <= k < |g| ensures 0 <= g[k].x < Width() && 0 <= g[k].y < |rows| {
        GridMember(b, g[k]);
      }
    }

    /** A listing that does not throw holds one lookup per point of the loop bound. */
    lemma ListingLength(bounds: Rect)
      requires Valid()
      ensures var b := LoopBound(bounds);
              Listing(Grid(b)).Some? ==> |Listing(Grid(b)).value| == Span(b.left, b.right) * Span(b.top, b.bottom)
    {
      GridLength(LoopBound(bounds));
    }

    /** Where neither axis needs the bump, `listChunksInBounds` lists `chunks[y][x]` for the
        chunk rows y and columns x between the two corners, row by row. */
    lemma ListingWithoutWrap(bounds: Rect, col: int, row: int)
      requires Valid() && CoversWorld()
      requires ToChunkCoordinates(bounds.TopLeft()).x <= ToChunkCoordinates(bounds.BottomRight()).x
      requires ToChunkCoordinates(bounds.TopLeft()).y <= ToChunkCoordinates(bounds.BottomRight()).y
      requires var b := LoopBound(bounds); 0 <= col < Span(b.left, b.right) && 0 <= row < Span(b.top, b.bottom)
      ensures var b := LoopBound(bounds);
              && Listing(Grid(b)).Some?
              && |Listing(Grid(b)).value| == Span(b.left, b.right) * Span(b.top, b.bottom)
              && 0 <= row * Span(b.left, b.right) + col < |Listing(Grid(b)).value|
              && 0 <= b.top + row < |rows| && 0 <= b.left + col < |rows[b.top + row]|
              && Listing(Grid(b)).value[row * Span(b.left, b.right) + col] == Chunk(rows[b.top + row][b.left + col])
    {
      var tl, br := ToChunkCoordinates(bounds.TopLeft()), ToChunkCoordinates(bounds.BottomRight());
      CoordinatesInGrid(bounds.TopLeft());
      CoordinatesInGrid(bounds.BottomRight());
      var b := LoopBound(bounds);
      assert b == Bound(tl.x, br.x, tl.y, br.y);
      BoundListing(b, col, row);
    }

    /** A bound inside the grid lists `chunks[top + row][left + col]` at row-major index
        `row * width + col`. */
    lemma BoundListing(b: Bound, col: int, row: int)
      requires Valid() && 0 <= b.left && b.right < Width() && 0 <= b.top && b.bottom < |rows|
      requires 0 <= col < Span(b.left, b.right) && 0 <= row < Span(b.top, b.bottom)
      ensures && Listing(Grid(b)).Some?
              && |Listing(Grid(b)).value| == Span(b.left, b.right) * Span(b.top, b.bottom)
              && 0 <= row * Span(b.left, b.right) + col < |Listing(Grid(b)).value|
              && 0 <= b.top + row < |rows| && 0 <= b.left + col < |rows[b.top + row]|
              && Listing(Grid(b)).value[row * Span(b.left, b.right) + col] == Chunk(rows[b.top + row][b.left + col])
    {
      BoundOnGrid(b);
      GridCell(b, col, row);
    }

    /** Where the bottom corner lies above the top one, the bumped bottom row is past the
        grid and `listChunksInBounds` throws. */
    lemma WrappedRowsThrow(bounds: Rect)
      requires Valid() && CoversWorld()
      requires ToChunkCoordinates(bounds.BottomRight()).y < ToChunkCoordinates(bounds.TopLeft()).y
      ensures Listing(Grid(LoopBound(bounds))) == None
    {
      var b := LoopBound(bounds);
      CoordinatesInGrid(bounds.TopLeft());
      CoordinatesInGrid(bounds.BottomRight());
      var p := Point(b.left, b.bottom);
      GridMember(b, p);
      var g := Grid(b);
      var k :| 0 <= k < |g| && g[k] == p;
      assert At(g[k].x, g[k].y).None?;
    }

    /** Where only the right corner lies left of the left one, the bumped columns are past
        the grid: the listing does not throw but ends with `undefined`. */
    lemma WrappedColumnsUndefined(bounds: Rect)
      requires Valid() && CoversWorld()
      requires ToChunkCoordinates(bounds.TopLeft()).y <= ToChunkCoordinates(bounds.BottomRight()).y
      requires ToChunkCoordinates(bounds.BottomRight()).x < ToChunkCoordinates(bounds.TopLeft()).x
      ensures var l := Listing(Grid(LoopBound(bounds)));
              l.Some? && |l.value| > 0 && l.value[|l.value| - 1] == Undefined
    {
      var b := LoopBound(bounds);
      CoordinatesInGrid(bounds.TopLeft());
      CoordinatesInGrid(bounds.BottomRight());
      var g := Grid(b);
      forall k | 0 <= k < |g| ensures At(g[k].x, g[k].y).Some? {
        GridMember(b, g[k]);
      }
      GridLast(b);
    }

    /** The chunks `listChunksInBounds` evidently means to list: each point's indices
        reduced modulo the grid size. */
    function WrappedChunks(ps: seq<Point>): (r: seq<T>)
      requires Valid()
      ensures |r| == |ps|
    {
      if |ps| == 0 then []
      else WrappedChunks(ps[..|ps| - 1]) + [rows[ps[|ps| - 1].y % |rows|][ps[|ps| - 1].x % Width()]]
    }

    /** Each point's chunk is the one at its reduced indices. */
    lemma {:induction false} WrappedChunksAt(ps: seq<Point>, k: nat)
      requires Valid() && k < |ps|
      ensures WrappedChunks(ps)[k] == rows[ps[k].y % |rows|][ps[k].x % Width()]
    {
      if k < |ps| - 1 {
        WrappedChunksAt(ps[..|ps| - 1], k);
      }
    }

    /** The inner loop of the corrected listing. */
    method ListRowWrapped(left: int, right: int, y: int, ghost done: seq<Point>, acc: seq<T>)
      returns (r: seq<T>)
      requires Valid() && acc == WrappedChunks(done)
      ensures r == WrappedChunks(done + Row(left, right, y))
    {
      r := acc;
      var x := left;
      assert done + Row(left, x - 1, y) == done;
      while x <= right
        invariant left <= x <= if right < left then left else right + 1
        invariant r == WrappedChunks(done + Row(left, x - 1, y))
        decreases right - x
      {
        WrappedColumnStep(left, x, y, done);
        r := r + [rows[y % |rows|][x % |rows[0]|]];
        x := x + 1;
      }
      if right < left {
        assert Row(left, right, y) == [] == Row(left, x - 1, y);
      }
    }

    /** Column `x` adds its chunk after the columns before it. */
    lemma WrappedColumnStep(left: int, x: int, y: int, done: seq<Point>)
      requires Valid() && left <= x
      ensures WrappedChunks(done + Row(left, x, y))
              == WrappedChunks(done + Row(left, x - 1, y)) + [rows[y % |rows|][x % Width()]]
    {
      var before := done + Row(left, x - 1, y);
      var ps := done + Row(left, x, y);
      assert ps == before + [Point(x, y)];
      assert ps[..|ps| - 1] == before;
    }

    /** `listChunksInBounds` with the bumped indices reduced modulo the grid size. */
    method ListChunksInBoundsWrapped(bounds: Rect) returns (r: seq<T>)
      requires Valid()
      ensures r == WrappedChunks(Grid(LoopBound(bounds)))
    {
      var b := LoopBound(bounds);
      r := [];
      var y := b.top;
      while y <= b.bottom
        invariant b.top <= y <= if b.bottom < b.top then b.top else b.bottom + 1
        invariant r == WrappedChunks(Grid(b.(bottom := y - 1)))
        decreases b.bottom - y
      {
        GridStep(b, y);
        r := ListRowWrapped(b.left, b.right, y, Grid(b.(bottom := y - 1)), r);
        y := y + 1;
      }
      if b.bottom < b.top {
        assert Grid(b.(bottom := y - 1)) == [] == Grid(b);
      } else {
        assert b.(bottom := y - 1) == b;
      }
    }

    /** The corrected listing runs from the top-left corner's chunk to the bottom-right
        corner's chunk, across the seam where it must, one chunk per cell between them. */
    lemma WrappedListingCorners(bounds: Rect)
      requires Valid() && CoversWorld()
      ensures var tl, br := ToChunkCoordinates(bounds.TopLeft()), ToChunkCoordinates(bounds.BottomRight());
              var w := if br.x < tl.x then br.x - tl.x + Width() + 1 else br.x - tl.x + 1;
              var h := if br.y < tl.y then br.y - tl.y + |rows| + 1 else br.y - tl.y + 1;
              var l := WrappedChunks(Grid(LoopBound(bounds)));
              && 0 <= tl.y < |rows| && 0 <= tl.x < Width() && 0 <= br.y < |rows| && 0 <= br.x < Width()
              && |l| == w * h && |l| > 0
              && l[0] == rows[tl.y][tl.x]
              && l[|l| - 1] == rows[br.y][br.x]
    {
      var tl, br := ToChunkCoordinates(bounds.TopLeft()), ToChunkCoordinates(bounds.BottomRight());
      CoordinatesInGrid(bounds.TopLeft());
      CoordinatesInGrid(bounds.BottomRight());
      var b := LoopBound(bounds);
      assert b.left == tl.x && b.top == tl.y;
      assert b.right == if br.x < tl.x then br.x + Width() else br.x;
      assert b.bottom == if br.y < tl.y then br.y + |rows| else br.y;
      WrappedBoundCorners(b, br);
    }

    /** A bound that starts on the grid and ends less than a grid size past its start lists
        its top-left chunk first and the chunk its bottom-right corner wraps to last. */
    lemma WrappedBoundCorners(b: Bound, br: Point)
      requires Valid()
      requires 0 <= b.left < Width() && 0 <= b.top < |rows| && 0 <= br.x < Width() && 0 <= br.y < |rows|
      requires b.right == if br.x < b.left then br.x + Width() else br.x
      requires b.bottom == if br.y < b.top then br.y + |rows| else br.y
      ensures var l := WrappedChunks(Grid(b));
              && |l| == Span(b.left, b.right) * Span(b.top, b.bottom) && |l| > 0
              && l[0] == rows[b.top][b.left]
              && l[|l| - 1] == rows[br.y][br.x]
    {
      GridLength(b);
      GridFirstRow(b, 0);
      GridLast(b);
      WrappedChunksAt(Grid(b), 0);
      WrappedChunksAt(Grid(b), |Grid(b)| - 1);
      WrapOnce(b.left, Width());
      WrapOnce(b.top, |rows|);
      WrapOnce(b.right, Width());
      WrapOnce(b.bottom, |rows|);
    }

    /** An index below twice the size reduces to itself or to one turn less. */
    static lemma WrapOnce(v: int, n: int)
      requires n > 0 && 0 <= v < 2 * n
      ensures v % n == if v < n then v else v - n
    {
      DivModUnique(v, if v < n then 0 else 1, if v < n then v else v - n, n);
    }

    /** Where neither axis needs the bump, the corrected listing agrees with `listChunksInBounds`. */
    lemma WrappedAgreesWithoutWrap(bounds: Rect)
      requires Valid() && CoversWorld()
      requires ToChunkCoordinates(bounds.TopLeft()).x <= ToChunkCoordinates(bounds.BottomRight()).x
      requires ToChunkCoordinates(bounds.TopLeft()).y <= ToChunkCoordinates(bounds.BottomRight()).y
      ensures var g := Grid(LoopBound(bounds));
              && Listing(g).Some?
              && forall k :: 0 <= k < |g| ==> Listing(g).value[k] == Chunk(WrappedChunks(g)[k])
    {
      var b := LoopBound(bounds);
      CoordinatesInGrid(bounds.TopLeft());
      CoordinatesInGrid(bounds.BottomRight());
      var g := Grid(b);
      forall k | 0 <= k < |g| ensures 0 <= g[k].x < Width() && 0 <= g[k].y < |rows| {
        GridMember(b, g[k]);
      }
      forall k | 0 <= k < |g|
        ensures g[k].x % Width() == g[k].x && g[k].y % |rows| == g[k].y
        ensures WrappedChunks(g)[k] == rows[g[k].y][g[k].x]
      {
        WrapOnce(g[k].x, Width());
        WrapOnce(g[k].y, |rows|);
        WrappedChunksAt(g, k);
      }
    }
  }
}
