/** The square wrap-around world split into an N x N grid of chunks, as `ChunkEntityManager`
    and `Chunk` in src/entity/chunk.ts implement it. The cells each operation visits are
    worked out in `ChunkCells`; the manager maps them to its chunk objects. */
module ChunkEntities {
  import opened Geometry
  import opened Wrappers
  import opened ChunkCells
  import JsNumbers

  /** An entity as the grid sees it: an opaque handle and its current world coordinate. */
  datatype Entity = Entity(handle: nat, coordinate: Point)

  /** The three errors the manager's constructor throws. */
  datatype ConfigError = InvalidChunksCount | InvalidRenderDistance | RenderDistanceTooLarge

  /** `Math.ceil(renderDistance / chunkSize)` with `chunkSize = WORLD_SIZE / chunksCount`. */
  function RenderChunksCount(chunksCount: int, renderDistance: int): (r: int)
    ensures r * WORLD_SIZE - WORLD_SIZE < renderDistance * chunksCount <= r * WORLD_SIZE
  {
    JsNumbers.CeilDiv(renderDistance * chunksCount, WORLD_SIZE)
  }

  /** The constructor's checks, in the order it makes them; None when it does not throw.
      The last check is `(renderChunksCount * 2 + 1) * chunkSize > WORLD_SIZE`, here
      multiplied through by chunksCount. */
  function CheckConfiguration(chunksCount: int, renderDistance: int): (r: Option<ConfigError>)
    ensures r == Some(InvalidChunksCount) <==> chunksCount <= 0
    ensures r == Some(InvalidRenderDistance) <==>
              chunksCount > 0 && RenderChunksCount(chunksCount, renderDistance) <= 0
    ensures chunksCount > 0 ==>
              (RenderChunksCount(chunksCount, renderDistance) <= 0 <==> renderDistance <= 0)
    ensures r == Some(RenderDistanceTooLarge) <==>
              && chunksCount > 0
              && RenderChunksCount(chunksCount, renderDistance) > 0
              && (RenderChunksCount(chunksCount, renderDistance) * 2 + 1) * WORLD_SIZE
                 > WORLD_SIZE * chunksCount
  {
    var renderChunksCount := RenderChunksCount(chunksCount, renderDistance);
    SignOfProduct(renderDistance, chunksCount);
    if chunksCount <= 0 then Some(InvalidChunksCount)
    else if renderChunksCount <= 0 then Some(InvalidRenderDistance)
    else if renderChunksCount * 2 + 1 > chunksCount then Some(RenderDistanceTooLarge)
    else None
  }

  lemma SignOfProduct(a: int, n: int)
    ensures n > 0 ==> (a <= 0 <==> a * n <= 0)
  {
    if n <= 0 {
    } else if a > 0 {
      Geometry.AtLeastOnce(a, n);
    } else {
      Geometry.PositiveProduct(-a, n);
      assert a * n == -((-a) * n);
    }
  }

  /** One call of the `forEach` callback: a chunk and its row-major index. */
  datatype Visit = Visit(chunk: Chunk, index: int)

  /** A cell of the grid: one list of entities. */
  class Chunk {
    var entities: seq<Entity>

    constructor ()
      ensures entities == [] && CountEntities() == 0
    {
      entities := [];
    }

    /** Appends without checking for duplicates. */
    method AddEntity(entity: Entity)
      modifies this
      ensures entities == old(entities) + [entity]
      ensures CountEntities() == old(CountEntities()) + 1
    {
      entities := entities + [entity];
    }

    /** The number of entities added to the chunk, duplicates included. */
    function CountEntities(): nat
      reads this
    {
      |entities|
    }
  }

  class ChunkEntityManager {
    const chunksCount: int
    const renderChunksCount: int
    /** Rows of chunks: `chunks[y][x]` is the chunk in column x of row y. */
    const chunks: seq<seq<Chunk>>
    ghost const Repr: set<Chunk>
    /** Where each chunk sits in the grid; that it is a function makes the chunks distinct. */
    ghost const Position: map<Chunk, Point>

    /** The configuration passed the constructor's checks, the grid is N x N and its
        chunks are distinct objects. */
    ghost predicate Valid()
    {
      && Config(chunksCount, renderChunksCount)
      && |chunks| == chunksCount
      && (forall y :: 0 <= y < chunksCount ==> |chunks[y]| == chunksCount)
      && Repr == Position.Keys
      && (forall y, x :: 0 <= y < chunksCount && 0 <= x < chunksCount ==>
            chunks[y][x] in Position && Position[chunks[y][x]] == Point(x, y))
    }

    /** `getChunk`. */
    function ChunkAt(c: Point): Chunk
      requires Valid() && InGrid(c, chunksCount)
    {
      chunks[c.y][c.x]
    }

    /** The chunks of the grid are distinct. */
    lemma ChunksDistinct(c: Point, d: Point)
      requires Valid() && InGrid(c, chunksCount) && InGrid(d, chunksCount)
      ensures ChunkAt(c) == ChunkAt(d) <==> c == d
    {
      if ChunkAt(c) == ChunkAt(d) {
        assert Position[ChunkAt(c)] == c;
      }
    }

    constructor (chunksCount: int, renderDistance: int)
      requires CheckConfiguration(chunksCount, renderDistance) == None
      ensures Valid()
      ensures this.chunksCount == chunksCount
      ensures renderChunksCount == RenderChunksCount(chunksCount, renderDistance)
      ensures fresh(Repr)
      ensures forall y, x :: 0 <= y < chunksCount && 0 <= x < chunksCount ==> chunks[y][x].entities == []
    {
      this.chunksCount := chunksCount;
      renderChunksCount := RenderChunksCount(chunksCount, renderDistance);
      var rows, position := MakeChunks(chunksCount);
      chunks := rows;
      Position := position;
      Repr := position.Keys;
    }

    /** The constructor with its error path: either the error it throws, or a new manager. */
    static method Create(chunksCount: int, renderDistance: int)
        returns (manager: ChunkEntityManager?, error: Option<ConfigError>)
      ensures error == CheckConfiguration(chunksCount, renderDistance)
      ensures error.None? <==> manager != null
      ensures manager != null ==>
                && fresh(manager) && fresh(manager.Repr) && manager.Valid()
                && manager.chunksCount == chunksCount
                && manager.renderChunksCount == RenderChunksCount(chunksCount, renderDistance)
    {
      error := CheckConfiguration(chunksCount, renderDistance);
      if error.None? {
        manager := new ChunkEntityManager(chunksCount, renderDistance);
      } else {
        manager := null;
      }
    }

    /** `makeChunks`: two nested loops, one new empty chunk per cell, rows outer. */
    static method MakeChunks(n: int) returns (rows: seq<seq<Chunk>>, ghost position: map<Chunk, Point>)
      requires n > 0
      ensures |rows| == n
      ensures forall y :: 0 <= y < n ==> |rows[y]| == n
      ensures forall y, x :: 0 <= y < n && 0 <= x < n ==>
                rows[y][x] in position && position[rows[y][x]] == Point(x, y)
      ensures fresh(position.Keys)
      ensures forall y, x :: 0 <= y < n && 0 <= x < n ==> rows[y][x].entities == []
    {
      rows, position := [], map[];
      var y := 0;
      while y < n
        invariant 0 <= y <= n
        invariant |rows| == y
        invariant forall i :: 0 <= i < y ==> |rows[i]| == n
        invariant forall i, j :: 0 <= i < y && 0 <= j < n ==>
                    rows[i][j] in position && position[rows[i][j]] == Point(j, i)
        invariant fresh(position.Keys)
        invariant forall i, j :: 0 <= i < y && 0 <= j < n ==> rows[i][j].entities == []
      {
        var row: seq<Chunk> := [];
        var x := 0;
        while x < n
          invariant 0 <= x <= n
          invariant |row| == x
          invariant forall j :: 0 <= j < x ==> row[j] in position && position[row[j]] == Point(j, y)
          invariant forall i, j :: 0 <= i < y && 0 <= j < n ==>
                      rows[i][j] in position && position[rows[i][j]] == Point(j, i)
          invariant fresh(position.Keys)
          invariant forall j :: 0 <= j < x ==> row[j].entities == []
          invariant forall i, j :: 0 <= i < y && 0 <= j < n ==> rows[i][j].entities == []
        {
          var chunk := new Chunk();
          row := row + [chunk];
          position := position[chunk := Point(x, y)];
          x := x + 1;
        }
        rows := rows + [row];
        y := y + 1;
      }
    }

    /** Cells of this grid. */
    predicate OnGrid(cs: seq<Point>)
    {
      forall c :: c in cs ==> InGrid(c, chunksCount)
    }

    /** The chunks at a sequence of cells, in order. */
    function ChunksOf(cs: seq<Point>): (r: seq<Chunk>)
      requires Valid() && OnGrid(cs)
      ensures |r| == |cs|
      ensures forall k :: 0 <= k < |cs| ==> r[k] == ChunkAt(cs[k])
    {
      seq(|cs|, k requires 0 <= k < |cs| => assert cs[k] in cs; ChunkAt(cs[k]))
    }

    lemma ChunksOfAppend(a: seq<Point>, b: seq<Point>)
      requires Valid() && OnGrid(a) && OnGrid(b)
      ensures OnGrid(a + b) && ChunksOf(a + b) == ChunksOf(a) + ChunksOf(b)
    {
      var r := ChunksOf(a + b);
      forall k | 0 <= k < |r| ensures r[k] == (ChunksOf(a) + ChunksOf(b))[k] {
        if k < |a| {
          assert (a + b)[k] == a[k];
        } else {
          assert (a + b)[k] == b[k - |a|];
        }
      }
    }

    /** The chunk at a cell is listed exactly when the cell is. */
    lemma ChunksOfMember(cs: seq<Point>, q: Point)
      requires Valid() && OnGrid(cs) && InGrid(q, chunksCount)
      ensures ChunkAt(q) in ChunksOf(cs) <==> q in cs
    {
      if ChunkAt(q) in ChunksOf(cs) {
        var k :| 0 <= k < |cs| && ChunksOf(cs)[k] == ChunkAt(q);
        ChunksDistinct(cs[k], q);
      }
      if q in cs {
        var k :| 0 <= k < |cs| && cs[k] == q;
        assert ChunksOf(cs)[k] == ChunkAt(q);
      }
    }

    /** A list of chunks repeats no chunk exactly when its cells repeat no cell. */
    lemma ChunksOfNoDup(cs: seq<Point>)
      requires Valid() && OnGrid(cs)
      ensures NoDup(ChunksOf(cs)) <==> NoDup(cs)
    {
      var r := ChunksOf(cs);
      if NoDup(cs) {
        forall i, j | 0 <= i < j < |r| ensures r[i] != r[j] {
          ChunksDistinct(cs[i], cs[j]);
        }
      }
      if NoDup(r) {
        forall i, j | 0 <= i < j < |cs| ensures cs[i] != cs[j] {
          assert r[i] != r[j];
        }
      }
    }

    /** What `pushChunksInBound` appends for an inclusive bound. */
    function BoundChunks(b: Bound): (r: seq<Chunk>)
      requires Valid() && b.left >= -chunksCount && b.top >= -chunksCount
    {
      ChunksOf(BoundCells(b, chunksCount))
    }

    /** The inner loop of `pushChunksInBound`. */
    method PushRow(left: int, right: int, indexY: int, acc: seq<Chunk>) returns (out: seq<Chunk>)
      requires Valid() && left >= -chunksCount && indexY >= -chunksCount
      ensures out == acc + ChunksOf(RowCells(left, right, indexY, chunksCount))
    {
      out := acc;
      var y := JsNumbers.Rem(indexY + chunksCount, chunksCount);
      var indexX := left;
      while indexX <= right
        invariant left <= indexX <= if right < left then left else right + 1
        invariant out == acc + ChunksOf(RowCells(left, indexX - 1, indexY, chunksCount))
        decreases right - indexX
      {
        var x := JsNumbers.Rem(indexX + chunksCount, chunksCount);
        RowStep(left, indexX, indexY, acc);
        out := out + [chunks[y][x]];
        indexX := indexX + 1;
      }
      RowDone(left, right, indexX, indexY);
    }

    /** Where the inner loop of `pushChunksInBound` stops, it has visited the whole row. */
    lemma RowDone(left: int, right: int, indexX: int, indexY: int)
      requires Valid() && left >= -chunksCount && indexY >= -chunksCount
      requires left <= indexX <= if right < left then left else right + 1
      requires indexX > right
      ensures RowCells(left, indexX - 1, indexY, chunksCount) == RowCells(left, right, indexY, chunksCount)
    {
      if right < left {
        RowCellsEmpty(left, right, indexY, chunksCount);
        RowCellsEmpty(left, left - 1, indexY, chunksCount);
      }
    }

    /** One step of the inner loop of `pushChunksInBound`: column `indexX` adds its chunk. */
    lemma RowStep(left: int, indexX: int, indexY: int, acc: seq<Chunk>)
      requires Valid() && left >= -chunksCount && indexY >= -chunksCount && left <= indexX
      ensures acc + ChunksOf(RowCells(left, indexX, indexY, chunksCount)) ==
                (acc + ChunksOf(RowCells(left, indexX - 1, indexY, chunksCount))) +
                [chunks[JsNumbers.Rem(indexY + chunksCount, chunksCount)][JsNumbers.Rem(indexX + chunksCount, chunksCount)]]
    {
      RowCellsSnoc(left, indexX, indexY, chunksCount);
      var done := ChunksOf(RowCells(left, indexX - 1, indexY, chunksCount));
      var cell := Wrap(Point(indexX, indexY), chunksCount);
      ChunksOfAppend(RowCells(left, indexX - 1, indexY, chunksCount), [cell]);
      assert ChunksOf([cell]) == [ChunkAt(cell)];
      assert acc + (done + [ChunkAt(cell)]) == (acc + done) + [ChunkAt(cell)];
    }

    /** Where the outer loop of `pushChunksInBound` stops, it has visited the whole bound. */
    lemma BoundDone(b: Bound, indexY: int)
      requires Valid() && b.left >= -chunksCount && b.top >= -chunksCount
      requires b.top <= indexY <= if b.bottom < b.top then b.top else b.bottom + 1
      requires indexY > b.bottom
      ensures ChunksOf(BoundCells(b.(bottom := indexY - 1), chunksCount)) == BoundChunks(b)
    {
      BoundCellsEmpty(b, indexY, chunksCount);
    }

    /** One step of the outer loop of `pushChunksInBound`: row `indexY` adds its chunks. */
    lemma BoundStep(b: Bound, indexY: int, acc: seq<Chunk>)
      requires Valid() && b.left >= -chunksCount && b.top >= -chunksCount && b.top <= indexY
      ensures acc + ChunksOf(BoundCells(b.(bottom := indexY), chunksCount)) ==
                (acc + ChunksOf(BoundCells(b.(bottom := indexY - 1), chunksCount))) +
                ChunksOf(RowCells(b.left, b.right, indexY, chunksCount))
    {
      var next := b.(bottom := indexY);
      BoundCellsSnoc(next, chunksCount);
      assert next.(bottom := indexY - 1) == b.(bottom := indexY - 1);
      var done := ChunksOf(BoundCells(b.(bottom := indexY - 1), chunksCount));
      var row := ChunksOf(RowCells(b.left, b.right, indexY, chunksCount));
      ChunksOfAppend(BoundCells(b.(bottom := indexY - 1), chunksCount), RowCells(b.left, b.right, indexY, chunksCount));
      assert acc + (done + row) == (acc + done) + row;
    }

    /** `pushChunksInBound`: appends the bound's chunks, row by row, to `acc`, leaving what
        `acc` held unchanged. */
    method PushChunksInBound(b: Bound, acc: seq<Chunk>) returns (out: seq<Chunk>)
      requires Valid() && b.left >= -chunksCount && b.top >= -chunksCount
      ensures out == acc + BoundChunks(b)
    {
      out := acc;
      var indexY := b.top;
      while indexY <= b.bottom
        invariant b.top <= indexY <= if b.bottom < b.top then b.top else b.bottom + 1
        invariant out == acc + ChunksOf(BoundCells(b.(bottom := indexY - 1), chunksCount))
        decreases b.bottom - indexY
      {
        BoundStep(b, indexY, acc);
        out := PushRow(b.left, b.right, indexY, out);
        indexY := indexY + 1;
      }
      BoundDone(b, indexY);
    }

    /** `listChunksInBound`. */
    method ListChunksInBound(b: Bound) returns (r: seq<Chunk>)
      requires Valid() && b.left >= -chunksCount && b.top >= -chunksCount
      ensures r == BoundChunks(b)
    {
      r := PushChunksInBound(b, []);
    }

    /** The render window of a chunk coordinate. */
    function Window(c: Point): (r: seq<Chunk>)
      requires Valid() && InGrid(c, chunksCount)
      ensures |r| == (2 * renderChunksCount + 2) * (2 * renderChunksCount + 2)
    {
      ChunksOf(WindowCells(c, chunksCount, renderChunksCount))
    }

    /** `listRenderableRegions`. */
    method ListRenderableRegions(p: Point) returns (r: seq<Chunk>)
      requires Valid()
      ensures r == Window(ChunkCoordinate(p, chunksCount))
      ensures |r| == (2 * renderChunksCount + 2) * (2 * renderChunksCount + 2)
    {
      var c := ChunkCoordinate(p, chunksCount);
      r := ListChunksInBound(RenderBound(c, chunksCount, renderChunksCount));
    }

    /** The render window of a chunk coordinate holds exactly the chunks whose offset from
        its first column and first row, taken round the world, is at most
        2 * renderChunksCount + 1. */
    lemma WindowMember(c: Point, q: Point)
      requires Valid() && InGrid(c, chunksCount) && InGrid(q, chunksCount)
      ensures ChunkAt(q) in Window(c) <==>
                && (q.x - c.x + renderChunksCount) % chunksCount <= 2 * renderChunksCount + 1
                && (q.y - c.y + renderChunksCount) % chunksCount <= 2 * renderChunksCount + 1
    {
      ChunksOfMember(WindowCells(c, chunksCount, renderChunksCount), q);
      ChunkCells.WindowMember(c, q, chunksCount, renderChunksCount);
    }

    /** The chunk a point is in belongs to that point's render window. */
    lemma CenterInWindow(p: Point)
      requires Valid()
      ensures ChunkAt(ChunkCoordinate(p, chunksCount)) in Window(ChunkCoordinate(p, chunksCount))
    {
      var c := ChunkCoordinate(p, chunksCount);
      ChunkCells.CenterInWindow(c, chunksCount, renderChunksCount);
      ChunksOfMember(WindowCells(c, chunksCount, renderChunksCount), c);
    }

    /** When the window is no wider than the world it lists each chunk once; when
        2 * renderChunksCount + 1 == N it lists its first chunk again N entries on. */
    lemma WindowNoDup(c: Point)
      requires Valid() && InGrid(c, chunksCount)
      ensures 2 * renderChunksCount + 2 <= chunksCount ==> NoDup(Window(c))
      ensures 2 * renderChunksCount + 1 == chunksCount ==>
                |Window(c)| > chunksCount && Window(c)[chunksCount] == Window(c)[0]
    {
      var cells := WindowCells(c, chunksCount, renderChunksCount);
      ChunksOfNoDup(cells);
      if 2 * renderChunksCount + 2 <= chunksCount {
        ChunkCells.WindowNoDup(c, chunksCount, renderChunksCount);
      } else {
        ChunkCells.WindowRepeatsWhenWorldWide(c, chunksCount, renderChunksCount);
      }
    }

    /** What `leftOuterJoinRenderableRegions` lists for two chunk coordinates. */
    function JoinRegions(a: Point, b: Point): seq<Chunk>
      requires Valid() && InGrid(a, chunksCount) && InGrid(b, chunksCount)
    {
      ChunksOf(JoinCells(a, b, chunksCount, renderChunksCount))
    }

    /** `leftOuterJoinRenderableRegions`. */
    method LeftOuterJoinRenderableRegions(p: Point, q: Point) returns (r: seq<Chunk>)
      requires Valid()
      ensures r == JoinRegions(ChunkCoordinate(p, chunksCount), ChunkCoordinate(q, chunksCount))
      ensures ChunkCoordinate(p, chunksCount) == ChunkCoordinate(q, chunksCount) ==> r == []
    {
      var n, rc := chunksCount, renderChunksCount;
      var a := ChunkCoordinate(p, n);
      var b := ChunkCoordinate(q, n);
      if a == b {
        return [];
      }
      ghost var vs := if a.x != b.x then BoundCells(VerticalStrip(a, b, n, rc), n) else [];
      ghost var hs := if a.y != b.y then BoundCells(HorizontalStrip(a, b, n, rc), n) else [];
      ChunksOfAppend(vs, hs);
      r := [];
      if a.x != b.x {
        r := PushChunksInBound(VerticalStrip(a, b, n, rc), r);
      }
      assert r == ChunksOf(vs);
      if a.y != b.y {
        r := PushChunksInBound(HorizontalStrip(a, b, n, rc), r);
      }
    }

    /** Away from the seam, and for a move of at most one window width on each axis, the join
        lists exactly the chunks of the first window that the second window lacks. */
    lemma JoinIsWindowDifference(a: Point, b: Point, q: Point)
      requires Valid() && InGrid(a, chunksCount) && InGrid(b, chunksCount) && InGrid(q, chunksCount)
      requires InsideSeam(a, chunksCount, renderChunksCount) && InsideSeam(b, chunksCount, renderChunksCount)
      requires -(2 * renderChunksCount + 2) <= a.x - b.x <= 2 * renderChunksCount + 2
      requires -(2 * renderChunksCount + 2) <= a.y - b.y <= 2 * renderChunksCount + 2
      ensures ChunkAt(q) in JoinRegions(a, b) <==>
                ChunkAt(q) in Window(a) && ChunkAt(q) !in Window(b)
    {
      var n, rc := chunksCount, renderChunksCount;
      ChunksOfMember(JoinCells(a, b, n, rc), q);
      ChunksOfMember(WindowCells(a, n, rc), q);
      ChunksOfMember(WindowCells(b, n, rc), q);
      ChunkCells.JoinIsWindowDifference(a, b, q, n, rc);
    }

    /** Away from the seam the join lists no chunk twice. */
    lemma JoinNoDup(a: Point, b: Point)
      requires Valid() && InGrid(a, chunksCount) && InGrid(b, chunksCount)
      requires InsideSeam(a, chunksCount, renderChunksCount) && InsideSeam(b, chunksCount, renderChunksCount)
      ensures NoDup(JoinRegions(a, b))
    {
      ChunksOfNoDup(JoinCells(a, b, chunksCount, renderChunksCount));
      ChunkCells.JoinNoDup(a, b, chunksCount, renderChunksCount);
    }

    /** `forEach`: every chunk with its row-major index, rows outer. */
    method ForEach() returns (visits: seq<Visit>)
      requires Valid()
      ensures |visits| == chunksCount * chunksCount
      ensures forall k :: 0 <= k < |visits| ==>
                && 0 <= k / chunksCount < chunksCount
                && visits[k] == Visit(chunks[k / chunksCount][k % chunksCount], k)
    {
      visits := [];
      var n := chunksCount;
      for y := 0 to n
        invariant |visits| == y * n
        invariant forall k :: 0 <= k < |visits| ==>
                    && 0 <= k / n < n
                    && visits[k] == Visit(chunks[k / n][k % n], k)
      {
        for x := 0 to n
          invariant |visits| == y * n + x
          invariant forall k :: 0 <= k < |visits| ==>
                      && 0 <= k / n < n
                      && visits[k] == Visit(chunks[k / n][k % n], k)
        {
          DivModUnique(y * n + x, y, x, n);
          visits := visits + [Visit(chunks[y][x], y * n + x)];
        }
        MulSucc(n, y);
      }
    }

    /** The squares `scan` passes to its callback for a sequence of anchors. */
    function Squares(anchors: seq<Point>, inflation: int): (r: seq<seq<Chunk>>)
      requires Valid() && NonNegative(anchors)
      ensures |r| == |anchors|
      ensures forall k :: 0 <= k < |anchors| ==> r[k] == BoundChunks(Square(anchors[k], inflation))
    {
      seq(|anchors|, k requires 0 <= k < |anchors| =>
            assert anchors[k] in anchors; BoundChunks(Square(anchors[k], inflation)))
    }

    lemma SquaresAppend(a: seq<Point>, b: seq<Point>, inflation: int)
      requires Valid() && NonNegative(a) && NonNegative(b)
      ensures NonNegative(a + b) && Squares(a + b, inflation) == Squares(a, inflation) + Squares(b, inflation)
    {
      var r := Squares(a + b, inflation);
      forall k | 0 <= k < |r| ensures r[k] == (Squares(a, inflation) + Squares(b, inflation))[k] {
        if k < |a| {
          assert (a + b)[k] == a[k];
        } else {
          assert (a + b)[k] == b[k - |a|];
        }
      }
    }

    /** `scan`: `ok` is false where the source throws; otherwise `calls` are the callback's
        arguments in order. */
    method Scan(radius: int) returns (ok: bool, calls: seq<seq<Chunk>>)
      requires Valid()
      ensures ok <==> 0 < ScanSize(radius, chunksCount) <= chunksCount
      ensures !ok ==> calls == []
      ensures ok ==> var end := chunksCount - ScanSize(radius, chunksCount) + 1;
                     calls == Squares(Anchors(end, end), ScanSize(radius, chunksCount) - 1)
    {
      var size := ScanSize(radius, chunksCount);
      if !(size > 0 && size <= chunksCount) {
        return false, [];
      }
      ok := true;
      var inflation := size - 1;
      var end := chunksCount - inflation;
      calls := [];
      for y := 0 to end
        invariant calls == Squares(Anchors(y, end), inflation)
      {
        AnchorsStep(y, end, inflation);
        calls := ScanRow(y, end, inflation, calls);
      }
    }

    lemma AnchorsStep(y: int, end: int, inflation: int)
      requires Valid() && 0 <= y
      ensures Squares(Anchors(y + 1, end), inflation) ==
                Squares(Anchors(y, end), inflation) + Squares(AnchorRow(end, y), inflation)
    {
      assert Anchors(y + 1, end) == Anchors(y, end) + AnchorRow(end, y);
      SquaresAppend(Anchors(y, end), AnchorRow(end, y), inflation);
    }

    lemma AnchorRowStart(y: int, inflation: int, acc: seq<seq<Chunk>>)
      requires Valid() && 0 <= y
      ensures acc + Squares(AnchorRow(0, y), inflation) == acc
    {
      assert AnchorRow(0, y) == [];
    }

    lemma AnchorRowStep(x: int, y: int, inflation: int, acc: seq<seq<Chunk>>)
      requires Valid() && 0 <= x && 0 <= y
      ensures acc + Squares(AnchorRow(x + 1, y), inflation) ==
                (acc + Squares(AnchorRow(x, y), inflation)) + [BoundChunks(Bound(x, x + inflation, y, y + inflation))]
    {
      assert AnchorRow(x + 1, y) == AnchorRow(x, y) + [Point(x, y)];
      SquaresAppend(AnchorRow(x, y), [Point(x, y)], inflation);
      var done := Squares(AnchorRow(x, y), inflation);
      var next := BoundChunks(Bound(x, x + inflation, y, y + inflation));
      assert Square(Point(x, y), inflation) == Bound(x, x + inflation, y, y + inflation);
      assert Squares([Point(x, y)], inflation) == [next];
      assert acc + (done + [next]) == (acc + done) + [next];
    }

    /** The inner loop of `scan`: the squares anchored in row y, left to right. */
    method ScanRow(y: int, end: int, inflation: int, acc: seq<seq<Chunk>>) returns (out: seq<seq<Chunk>>)
      requires Valid() && 0 <= y && 0 <= end
      ensures out == acc + Squares(AnchorRow(end, y), inflation)
    {
      out := acc;
      AnchorRowStart(y, inflation, acc);
      for x := 0 to end
        invariant out == acc + Squares(AnchorRow(x, y), inflation)
      {
        var neighbors := ListChunksInBound(Bound(x, x + inflation, y, y + inflation));
        AnchorRowStep(x, y, inflation, acc);
        out := out + [neighbors];
      }
    }

    /** The squares `scan` lists for a size that passes its check: (N - size + 1)^2 of them,
        anchored row-major, each `size` chunks on a side, and none of them wraps round the
        world: entry `col, row` of the square anchored at `x, y` is the chunk at
        `x + col, y + row`. */
    lemma ScanSquares(size: int, end: int, x: int, y: int, col: int, row: int)
      requires Valid() && 0 < size <= chunksCount && end == chunksCount - size + 1
      requires 0 <= x < end && 0 <= y < end && 0 <= col < size && 0 <= row < size
      ensures var calls := Squares(Anchors(end, end), size - 1);
              && |calls| == end * end
              && 0 <= y * end + x < end * end
              && |calls[y * end + x]| == size * size
              && 0 <= row * size + col < size * size
              && calls[y * end + x][row * size + col] == chunks[y + row][x + col]
    {
      ScanSquareAt(size, end, x, y);
      SquareChunk(size, x, y, col, row);
    }

    /** Entry `y * end + x` of what `scan` lists is the square anchored at `x, y`. */
    lemma ScanSquareAt(size: int, end: int, x: int, y: int)
      requires Valid() && 0 < size && 0 <= x < end && 0 <= y < end
      ensures var calls := Squares(Anchors(end, end), size - 1);
              && |calls| == end * end
              && 0 <= y * end + x < end * end
              && calls[y * end + x] == BoundChunks(Square(Point(x, y), size - 1))
    {
      var anchors := Anchors(end, end);
      GridCell(Bound(0, end - 1, 0, end - 1), x, y);
      assert anchors[y * end + x] == Point(x, y);
    }

    /** A square of `size` chunks a side inside the grid lists its chunks row-major,
        unwrapped. */
    lemma SquareChunk(size: int, x: int, y: int, col: int, row: int)
      requires Valid() && 0 <= x && 0 <= y && x + size <= chunksCount && y + size <= chunksCount
      requires 0 <= col < size && 0 <= row < size
      ensures var square := BoundChunks(Square(Point(x, y), size - 1));
              && |square| == size * size
              && 0 <= row * size + col < size * size
              && square[row * size + col] == chunks[y + row][x + col]
    {
      SquareCell(x, y, size, chunksCount, col, row);
      var cells := BoundCells(Square(Point(x, y), size - 1), chunksCount);
      assert ChunksOf(cells)[row * size + col] == ChunkAt(Point(x + col, y + row));
    }

    /** `listNeighborsAround`: None where the source throws. */
    method ListNeighborsAround(p: Point, radius: int) returns (r: Option<seq<Chunk>>)
      requires Valid()
      ensures radius == 0 ==> r == Some([])
      ensures radius != 0 ==> (r.None? <==> !(radius >= 0 && radius * 2 <= WORLD_SIZE))
      ensures radius != 0 && r.Some? ==> r.value == BoundChunks(NeighborBound(p, radius, chunksCount))
    {
      if radius == 0 {
        return Some([]);
      }
      if !(radius >= 0 && radius * 2 <= WORLD_SIZE) {
        return None;
      }
      var list := ListChunksInBound(NeighborBound(p, radius, chunksCount));
      r := Some(list);
    }

    /** The neighbours start at the chunk of the top-left corner, end at the chunk of the
        bottom-right corner, and list no chunk twice. */
    lemma NeighborsCorners(p: Point, radius: int)
      requires Valid()
      ensures var r := BoundChunks(NeighborBound(p, radius, chunksCount));
              && |r| > 0 && NoDup(r)
              && r[0] == ChunkAt(ChunkCoordinate(p.Add(-radius, -radius), chunksCount))
              && r[|r| - 1] == ChunkAt(ChunkCoordinate(p.Add(radius, radius), chunksCount))
    {
      ChunkCells.NeighborsCorners(p, radius, chunksCount);
      ChunksOfNoDup(BoundCells(NeighborBound(p, radius, chunksCount), chunksCount));
    }

    /** The entities of `es`, in order, whose coordinate falls in chunk c. */
    function EntitiesIn(es: seq<Entity>, c: Point): seq<Entity>
      requires chunksCount > 0
    {
      if es == [] then []
      else
        var last := es[|es| - 1];
        EntitiesIn(es[..|es| - 1], c) + (if ChunkCoordinate(last.coordinate, chunksCount) == c then [last] else [])
    }

    /** A batch's first i + 1 entities put in chunk c what its first i do, then entity i
        if it falls in c. */
    lemma EntitiesInSnoc(es: seq<Entity>, i: int)
      requires chunksCount > 0 && 0 <= i < |es|
      ensures forall c :: EntitiesIn(es[..i + 1], c) ==
                EntitiesIn(es[..i], c) + (if ChunkCoordinate(es[i].coordinate, chunksCount) == c then [es[i]] else [])
    {
      assert es[..i + 1][..i] == es[..i];
    }

    /** `load`: appends the entity to the chunk at its chunk coordinate and to no other. */
    method Load(entity: Entity)
      requires Valid()
      modifies ChunkAt(ChunkCoordinate(entity.coordinate, chunksCount))
      ensures var c := ChunkCoordinate(entity.coordinate, chunksCount);
              && ChunkAt(c).entities == old(ChunkAt(c).entities) + [entity]
              && ChunkAt(c).CountEntities() == old(ChunkAt(c).CountEntities()) + 1
      ensures forall y, x :: 0 <= y < chunksCount && 0 <= x < chunksCount ==>
                chunks[y][x].entities == old(chunks[y][x].entities) +
                  (if Point(x, y) == ChunkCoordinate(entity.coordinate, chunksCount) then [entity] else [])
    {
      var c := ChunkCoordinate(entity.coordinate, chunksCount);
      var chunk := chunks[c.y][c.x];
      chunk.AddEntity(entity);
    }

    /** `loadBatch`: every chunk receives, in order, the entities of the batch that fall in it. */
    method LoadBatch(es: seq<Entity>)
      requires Valid()
      modifies Repr
      ensures forall y, x :: 0 <= y < chunksCount && 0 <= x < chunksCount ==>
                chunks[y][x].entities == old(chunks[y][x].entities) + EntitiesIn(es, Point(x, y))
    {
      var i := 0;
      while i < |es|
        invariant 0 <= i <= |es|
        invariant forall y, x :: 0 <= y < chunksCount && 0 <= x < chunksCount ==>
                    chunks[y][x].entities == old(chunks[y][x].entities) + EntitiesIn(es[..i], Point(x, y))
      {
        Load(es[i]);
        EntitiesInSnoc(es, i);
        i := i + 1;
      }
      assert es[..|es|] == es;
    }
  }
}
