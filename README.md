# DanmakuCraft2 core, modelled in Dafny

DanmakuCraft2 is a browser game played over a bilibili video's comment stream. Every comment
is an entity in a square world that wraps around at its edges. This project models the
following parts of the game's core and proves properties of each:

- **The chunk grid** of `src/entity/chunk.ts` (`ChunkEntityManager` and `Chunk`). The world,
  WORLD_SIZE units a side, is split into an N x N array of chunks.
  - A world coordinate maps to a wrapped chunk index.
  - A chunk is inflated into a render window.
  - Wrap-aware bounds are listed row by row.
  - `leftOuterJoinRenderableRegions` assembles the chunks that enter view as the player
    moves, from one vertical strip and one horizontal strip.
  - `scan`, `forEach`, `listNeighborsAround`, `load` and `loadBatch` are modelled too.
- **The generic grid** `Chunks<T>` of `src/util/entityStorage/chunk/Chunks.ts`: constructor
  validation, point lookup and bounds listing.
- **The visibility engine builder** of `client/src/engine/visibility/VisibilityEngineBuilder.ts`:
  - one record per entity finder, all sharing one distance checker;
  - two ticker lists, appended in call order;
  - the `build` guard.
- **The comment metadata codec** of `src/environment/bilibili.ts` (`CommentDataUtil`).
  - The game stores a comment's position in a suffix `/[` + char codes appended to the comment
    text.
  - Codes are shifted by 0x4000 or 0x5000 so that they are printable.
  - A "mac" (a 15-bit hash of the first character and the properties) protects the suffix.
- **The binary frame header** of `RemoteCommentReceiver` in the same file:
  - `encode` writes a 16-byte big-endian header in front of an opaque payload;
  - `parse` reads the header back, and for operation 5 walks the packet frame by frame,
    slicing out each message.
- **The server's copy of the parser** in `packages/danmakucraft2-server/scripts/CommentDataUtil.ts`.
  It checks no mac and reads optional buff data.
- **Small bookkeeping**:
  - `getRenderRadius` in `client/src/PhysicalConstants.ts`;
  - the colour bag of `BackgroundColorSystem`/`ColorMixer`;
  - the direction glyphs, line counter and notification counter of `client/src/util/Debug.ts`.

## Modules and files
| file | module | models |
|---|---|---|
| geometry.dfy | `Geometry` | points, Phaser rectangles (`right = x + width`), inclusive bounds and their row-major enumeration |
| js_numbers.dfy | `JsNumbers`, `Wrappers` | JavaScript's truncating `%`, `Math.floor`/`Math.ceil` of a quotient, ToInt32/ToInt16, `>>`, `^`, NaN; `Option` |
| chunk_cells.dfy | `ChunkCells` | the index arithmetic of `chunk.ts` on chunk coordinates alone |
| chunk_entities.dfy | `ChunkEntities` | the `ChunkEntityManager` and `Chunk` classes, which map those cells to chunk objects |
| chunks.dfy | `GenericChunks` | `Chunks<T>` as a datatype with its operations |
| visibility_builder.dfy | `VisibilityBuilder` | `VisibilityEngineBuilder` as a class |
| physical_constants.dfy | `PhysicalConstants` | `getRenderRadius` |
| background_color.dfy | `BackgroundColor` | `ColorMixer` and `BackgroundColorSystem` as classes over a multiset |
| debug_info.dfy | `DebugOverlay` | `DebugInfo` and `Debug` as classes, plus the pure glyph logic |
| comment_codec.dfy | `CommentCodec` | the client's `CommentDataUtil` |
| comment_frames.dfy | `CommentFrames` | `RemoteCommentReceiver`'s framing, with the header written into an `array` |
| server_comment.dfy | `ServerComment` | the server's `CommentDataUtil` |

## Choices the model makes

- **World units.** World coordinates are integers and WORLD_SIZE is 40000, the client's value.
  - A chunk of `chunk.ts` is WORLD_SIZE / N wide, which need not be an integer.
  - The model never forms that quotient. It uses the exact identity
    floor(v / (W / N)) == floor(v * N / W) instead.
  - `chunk.ts` stores the quotient as a double. The two agree when N divides WORLD_SIZE, as
    the client's chunk counts 50 and 20 do; otherwise they can differ (see "## Left out").
  - `Chunks<T>` takes an integer `chunkSize`.
- **The Phaser rectangle.** In Phaser CE, `right = x + width` and `bottom = y + height`
  (`Geometry.Rect`).
  - The inclusive loops of `pushChunksInBound` therefore visit 2n+2 columns and rows of the
    rectangle that `inflate` builds, not 2n+1.
- **Remainders.** JavaScript's `%` truncates toward zero and is written out as `JsNumbers.Rem`.
  `hash` uses 32-bit `<<`, `>>` and `^`, which are written out as ToInt32 and a `bv32` xor.
- **Text.** Text is a sequence of UTF-16 code units: integers in [0, 0x10000).
- **Thrown errors.** An error path that throws or returns `null` becomes `None` or a `Failure`.
- **Bags.** typescript-collections' `Bag` is taken as a multiset:
  - `add` puts in one copy;
  - `remove` takes one copy out if there is one.
- **Finders and systems.** Entity finders and systems are integer handles. The records and
  tickers handed to the unseen `VisibilityEngine` are plain values.

## Model
| member | source | states |
|---|---|---|
| ChunkEntities.RenderChunksCount | src/entity/chunk.ts:19-21 | the smallest integer r with r * chunkSize >= renderDistance, for chunkSize = WORLD_SIZE / chunksCount |
| ChunkEntities.CheckConfiguration | src/entity/chunk.ts:17-32 | the three errors, in the order they are checked: chunksCount <= 0; then renderChunksCount <= 0, which for positive chunksCount happens exactly when renderDistance <= 0; then (2 * renderChunksCount + 1) * chunkSize > WORLD_SIZE |
| ChunkEntities.ChunkEntityManager.Create | src/entity/chunk.ts:17-35 | the constructor either fails with exactly the error `CheckConfiguration` names or yields a valid manager with that chunk count and render chunk count |
| ChunkEntities.ChunkEntityManager.constructor | src/entity/chunk.ts:17-35 | an accepted configuration gives a valid N x N grid of fresh, empty, distinct chunks |
| ChunkEntities.ChunkEntityManager.MakeChunks | src/entity/chunk.ts:37-55 | N rows of N new empty chunks, each at its own grid position |
| ChunkEntities.ChunkEntityManager.ChunksDistinct | src/entity/chunk.ts:42-52 | two grid positions hold the same chunk object only if they are the same position |
| ChunkEntities.Chunk.constructor | src/entity/chunk.ts:270-273 | a new chunk holds no entities, so `countEntities` is 0 |
| ChunkEntities.Chunk.AddEntity | src/entity/chunk.ts:275-283 | the entity is appended, with no check for duplicates, and `countEntities` grows by one |
| ChunkEntities.ChunkEntityManager.Load | src/entity/chunk.ts:63-67 | the entity is appended to exactly the chunk at its chunk coordinate, whose entity count grows by one; every other chunk is unchanged |
| ChunkEntities.ChunkEntityManager.LoadBatch | src/entity/chunk.ts:57-61 | every chunk gains, in order, exactly the batch's entities whose coordinate maps to it |
| ChunkCells.WrapIndex | src/entity/chunk.ts:220-222 | `(i + N) % N` lands in [0, N) and is i mod N for every i >= -N |
| ChunkCells.ChunkIndex | src/entity/chunk.ts:231-234 | each axis of `toChunkCoordinate` is in [0, N), and it is the chunk whose span holds the coordinate wrapped into [0, WORLD_SIZE) |
| ChunkCells.ChunkIndexPeriodic | src/entity/chunk.ts:231-234 | moving a coordinate by whole turns of the world keeps its chunk index |
| ChunkCells.ChunkCoordinate | src/entity/chunk.ts:231-244 | `toChunkCoordinate` always yields a cell of the grid |
| ChunkCells.WrapKeepsRegion | src/entity/chunk.ts:195-197 | `isInSameRegion` holds between a point and its copy any whole number of world turns away on either axis |
| ChunkCells.IsInSameRegion | src/entity/chunk.ts:195-197 | two points are in the same region exactly when, on each axis, their coordinates wrapped into [0, WORLD_SIZE) lie in the same one of the N equal spans |
| ChunkCells.ChunkIndexIsSpan | src/entity/chunk.ts:231-234 | the chunk index of a coordinate is floor(w * N / WORLD_SIZE), for w the coordinate wrapped into [0, WORLD_SIZE) |
| ChunkCells.Inflate | src/entity/chunk.ts:250-257 | the inflated rectangle is 2n+1 wide and high, and its left and top are the wrapped c - n, in [0, N) |
| ChunkCells.RenderBound | src/entity/chunk.ts:69-72 | the loop bounds of `listRenderableRegions`: left and top in [0, N), right and bottom 2 * rc + 1 past them |
| ChunkCells.BoundCells | src/entity/chunk.ts:213-226 | a bound yields exactly (right - left + 1) * (bottom - top + 1) cells, all on the grid |
| ChunkCells.BoundCellsCell | src/entity/chunk.ts:219-224 | rows outer, columns inner: the cell at row r and column c is the wrapped (left + c, top + r) |
| ChunkCells.BoundCellsMember | src/entity/chunk.ts:213-226 | a bound inside the grid visits exactly the cells between its corners |
| ChunkCells.BoundCellsNoDup | src/entity/chunk.ts:213-226 | a bound no wider and no taller than the grid visits no cell twice |
| ChunkCells.WindowCells | src/entity/chunk.ts:69-73 | a render window has (2 * rc + 2)^2 cells |
| ChunkCells.WindowMember | src/entity/chunk.ts:69-73 | a cell is in the window of c exactly when its wrapped offset from c - rc is at most 2 * rc + 1 on both axes |
| ChunkCells.CenterInWindow | src/entity/chunk.ts:69-73 | the centre chunk is in its own window |
| ChunkCells.WindowNoDup | src/entity/chunk.ts:69-73 | a window narrower than the world lists no cell twice |
| ChunkCells.WindowRepeatsWhenWorldWide | src/entity/chunk.ts:30-32 | at the widest configuration the constructor accepts, 2 * rc + 1 == N, the window lists a cell twice |
| ChunkCells.VerticalStrip | src/entity/chunk.ts:104-120 | the vertical strip's left and top are non-negative |
| ChunkCells.HorizontalStrip | src/entity/chunk.ts:122-145 | the horizontal strip's left and top are non-negative |
| ChunkCells.JoinCells | src/entity/chunk.ts:75-148 | empty when both points map to the same chunk; every cell listed lies on the grid |
| ChunkCells.JoinCellsUnwrapped | src/entity/chunk.ts:101-145 | away from the seam, a cell is in the join exactly when it lies in the vertical strip or in the horizontal strip, as given by the window corners |
| ChunkCells.StripsAreDifference | src/entity/chunk.ts:83-100 | for a move no wider than a window, the two strips together are the old square minus the new one |
| ChunkCells.JoinIsWindowDifference | src/entity/chunk.ts:75-148 | away from the seam and for a move no wider than a window, a cell is in the join exactly when it is in a's window and not in b's |
| ChunkCells.StripsDisjoint | src/entity/chunk.ts:104-145 | away from the seam, when both coordinates change, no cell is in both strips |
| ChunkCells.JoinNoDup | src/entity/chunk.ts:75-148 | away from the seam the join lists no cell twice |
| ChunkCells.ScanSize | src/entity/chunk.ts:160 | `size` is the smallest integer with size * chunkSize >= 2 * radius |
| ChunkCells.SquareCell | src/entity/chunk.ts:165-172 | each scanned square is size^2 cells, row-major from its anchor, never wrapped |
| ChunkCells.NeighborBound | src/entity/chunk.ts:184-192 | after the bump, the neighbour bound starts on the grid and spans at most N columns and N rows |
| ChunkCells.NeighborsCorners | src/entity/chunk.ts:175-193 | the neighbour list is non-empty, lists no cell twice, starts at the chunk of p - radius and ends at the chunk of p + radius |
| ChunkEntities.ChunkEntityManager.PushRow | src/entity/chunk.ts:221-224 | one row appends `chunks[(y + N) % N][(x + N) % N]` for x from left to right after the existing list |
| ChunkEntities.ChunkEntityManager.PushChunksInBound | src/entity/chunk.ts:213-226 | the list given keeps its contents, and the bound's chunks follow in row-major order |
| ChunkEntities.ChunkEntityManager.ListChunksInBound | src/entity/chunk.ts:199-207 | exactly the bound's chunks, in row-major order |
| ChunkEntities.ChunkEntityManager.Window | src/entity/chunk.ts:69-73 | the window of a chunk has (2 * rc + 2)^2 chunks |
| ChunkEntities.ChunkEntityManager.ListRenderableRegions | src/entity/chunk.ts:69-73 | the window's chunks, (2 * rc + 2)^2 of them |
| ChunkEntities.ChunkEntityManager.WindowMember | src/entity/chunk.ts:69-73 | a chunk is renderable exactly when its wrapped offset lies within the window on both axes |
| ChunkEntities.ChunkEntityManager.CenterInWindow | src/entity/chunk.ts:69-73 | the chunk of the point itself is always renderable |
| ChunkEntities.ChunkEntityManager.WindowNoDup | src/entity/chunk.ts:69-73 | a window narrower than the world lists no chunk twice; one as wide as the world repeats its first chunk |
| ChunkEntities.ChunkEntityManager.LeftOuterJoinRenderableRegions | src/entity/chunk.ts:75-148 | the vertical strip's chunks then the horizontal strip's; empty when both points map to the same chunk |
| ChunkEntities.ChunkEntityManager.JoinIsWindowDifference | src/entity/chunk.ts:75-148 | away from the seam, for a move no wider than a window: the join's chunks are exactly a's renderable chunks that are not b's |
| ChunkEntities.ChunkEntityManager.JoinNoDup | src/entity/chunk.ts:75-148 | away from the seam the join lists no chunk twice |
| ChunkEntities.ChunkEntityManager.ForEach | src/entity/chunk.ts:150-157 | N^2 visits; visit k is the chunk at row k / N and column k % N, with index k |
| ChunkEntities.ChunkEntityManager.Scan | src/entity/chunk.ts:159-173 | throws exactly unless 0 < size <= N; otherwise it makes one call per anchor, rows outer, with the anchor's square |
| ChunkEntities.ChunkEntityManager.ScanSquares | src/entity/chunk.ts:165-172 | (N - size + 1)^2 calls, each with size^2 chunks; element (row, col) of call (y, x) is `chunks[y + row][x + col]`, with no wrap |
| ChunkEntities.ChunkEntityManager.ListNeighborsAround | src/entity/chunk.ts:175-193 | `[]` for radius 0; throws exactly for a negative radius or 2 * radius > WORLD_SIZE; otherwise the chunks of the bumped bound |
| ChunkEntities.ChunkEntityManager.NeighborsCorners | src/entity/chunk.ts:184-192 | the neighbour list is non-empty, lists no chunk twice, and runs from the chunk of p - radius to the chunk of p + radius |
| GenericChunks.SingleWidth | src/util/entityStorage/chunk/Chunks.ts:12-15 | the set of row widths has one element exactly when there is a row and all rows share one width |
| GenericChunks.New | src/util/entityStorage/chunk/Chunks.ts:7-20 | the three constructor errors in order (chunk size <= 0; mixed widths or no rows; empty rows), and success exactly otherwise |
| GenericChunks.Chunks.At | src/util/entityStorage/chunk/Chunks.ts:55-57 | `chunks[y][x]` throws (`None`) exactly for a missing row; within the row it is exactly the chunk `rows[y][x]`, off the row it is `undefined` |
| GenericChunks.Chunks.GetChunkByCoordinates | src/util/entityStorage/chunk/Chunks.ts:22-25 | throws exactly when the wrapped y coordinate lies at or past the grid's height, rows times chunk size |
| GenericChunks.Chunks.QuotientBelowExactly | src/util/entityStorage/chunk/Chunks.ts:62-66 | a non-negative coordinate's chunk index is below a count exactly when the coordinate is below count times the chunk size |
| GenericChunks.Chunks.ToChunkCoordinates | src/util/entityStorage/chunk/Chunks.ts:62-66 | the chunk coordinates are non-negative |
| GenericChunks.Chunks.ChunkHoldsPoint | src/util/entityStorage/chunk/Chunks.ts:62-66 | the chunk's span holds the wrapped world coordinate on both axes |
| GenericChunks.Chunks.ToChunkCoordinatesPeriodic | src/util/entityStorage/chunk/Chunks.ts:59-66 | whole turns of the world leave the chunk coordinates unchanged |
| GenericChunks.Chunks.CoordinatesInGrid | src/util/entityStorage/chunk/Chunks.ts:62-66 | when the grid covers the world, the chunk coordinates lie in the grid |
| GenericChunks.Chunks.GetChunkSelects | src/util/entityStorage/chunk/Chunks.ts:22-25 | when the grid covers the world, the lookup is `chunks[floor(wy / size)][floor(wx / size)]` of the wrapped coordinate |
| GenericChunks.Chunks.GetChunkPastGrid | src/util/entityStorage/chunk/Chunks.ts:55-57 | when the grid is narrower than the world, a point past its width reads `undefined` |
| GenericChunks.Chunks.ListRow | src/util/entityStorage/chunk/Chunks.ts:43-45 | one row of the listing, appended after what was listed before, or the throw |
| GenericChunks.Chunks.ListChunksInBounds | src/util/entityStorage/chunk/Chunks.ts:27-49 | as written: the lookups of the bumped bound in row-major order, or the throw that the first missing row causes |
| GenericChunks.Chunks.ListingLength | src/util/entityStorage/chunk/Chunks.ts:41-46 | a listing that does not throw has (bx - tx + 1) * (by - ty + 1) elements |
| GenericChunks.Chunks.ListingWithoutWrap | src/util/entityStorage/chunk/Chunks.ts:31-46 | when neither axis is bumped, the listing is `chunks[ty + row][tx + col]` at row-major position (row, col) |
| GenericChunks.Chunks.WrappedRowsThrow | src/util/entityStorage/chunk/Chunks.ts:34-36 | as written, bounds that wrap vertically always throw |
| GenericChunks.Chunks.WrappedColumnsUndefined | src/util/entityStorage/chunk/Chunks.ts:37-44 | as written, bounds that wrap only horizontally end the listing with `undefined` |
| GenericChunks.Chunks.WrappedChunksAt | src/util/entityStorage/chunk/Chunks.ts:44 | the corrected lookup reads `chunks[y % rows][x % width]` |
| GenericChunks.Chunks.ListChunksInBoundsWrapped | src/util/entityStorage/chunk/Chunks.ts:31-46 | the corrected listing: the bumped bound read through the modulo, in row-major order |
| GenericChunks.Chunks.WrappedListingCorners | src/util/entityStorage/chunk/Chunks.ts:31-46 | the corrected listing has the wrap-aware width times height chunks, from the top-left chunk to the bottom-right chunk, wrapped or not |
| GenericChunks.Chunks.WrappedAgreesWithoutWrap | src/util/entityStorage/chunk/Chunks.ts:31-46 | without a wrap the corrected listing equals the listing as written |
| VisibilityBuilder.VisibilityEngineBuilder.constructor | client/src/engine/visibility/VisibilityEngineBuilder.ts:14-23 | a valid builder with one distance checker made from its arguments, the updating radius defaulting to 4/7 of a comment chunk, no records and no tickers |
| VisibilityBuilder.VisibilityEngineBuilder.AddTicker | client/src/engine/visibility/VisibilityEngineBuilder.ts:59-68 | pushes the ticker on the update list or the render list and leaves the other list and the records unchanged |
| VisibilityBuilder.VisibilityEngineBuilder.ApplyVisibilitySystem | client/src/engine/visibility/VisibilityEngineBuilder.ts:25-39 | a record, built with the shared distance checker, is added only for a finder not seen before; exactly one ticker is appended to the chosen list; returns the builder itself |
| VisibilityBuilder.VisibilityEngineBuilder.ApplyTickSystem | client/src/engine/visibility/VisibilityEngineBuilder.ts:41-44 | exactly one tick-system ticker is appended to the chosen list, records unchanged; returns the builder itself |
| VisibilityBuilder.ValuesInOrder | client/src/engine/visibility/VisibilityEngineBuilder.ts:55 | a map's values, taken in a given order of its keys |
| VisibilityBuilder.VisibilityEngineBuilder.RecordsInOrder | client/src/engine/visibility/VisibilityEngineBuilder.ts:55 | the records in their finders' first-registration order, each with the shared distance checker |
| VisibilityBuilder.VisibilityEngineBuilder.RecordsPerFinder | client/src/engine/visibility/VisibilityEngineBuilder.ts:29-33 | the records name each finder at most once, and name every finder ever applied |
| VisibilityBuilder.GuardAsWritten | client/src/engine/visibility/VisibilityEngineBuilder.ts:47 | the guard as written |
| VisibilityBuilder.GuardAsWrittenAlwaysPasses | client/src/engine/visibility/VisibilityEngineBuilder.ts:47 | the guard as written holds for every builder |
| VisibilityBuilder.EmptyBuilderPassesGuardAsWritten | client/src/engine/visibility/VisibilityEngineBuilder.ts:46-49 | an empty builder passes the guard as written but fails the intended one |
| VisibilityBuilder.Guard | client/src/engine/visibility/VisibilityEngineBuilder.ts:46-49 | the intended guard holds exactly when some ticker was added to either list |
| VisibilityBuilder.VisibilityEngineBuilder.BuildAsWritten | client/src/engine/visibility/VisibilityEngineBuilder.ts:46-57 | as written, `build` always returns an engine with the builder's tickers and records |
| VisibilityBuilder.VisibilityEngineBuilder.Build | client/src/engine/visibility/VisibilityEngineBuilder.ts:46-57 | with the intended guard: it throws exactly when both lists are empty; otherwise the engine gets the tickers in call order and the records in first-registration order |
| PhysicalConstants.BaseRadius | client/src/PhysicalConstants.ts:28-31 | the radius before the margin is max(w, h) + 50 + 432 |
| PhysicalConstants.GetRenderRadius | client/src/PhysicalConstants.ts:28-33 | the smallest integer at least 21/20 of the base radius |
| PhysicalConstants.RenderRadiusSymmetric | client/src/PhysicalConstants.ts:28-29 | swapping width and height leaves the radius unchanged |
| PhysicalConstants.RenderRadiusBounds | client/src/PhysicalConstants.ts:31-32 | for a non-negative view the radius is at least max(w, h) + 482 and less than 1.05 times that plus one |
| PhysicalConstants.RenderRadiusMonotone | client/src/PhysicalConstants.ts:28-33 | a larger view never gets a smaller radius |
| BackgroundColor.ColorsOf | client/src/entitySystem/system/existence/BackgroundColorSystem.ts:31-32 | one copy of a colour per entity of the region: as many colours as entities, and each entity's colour among them |
| BackgroundColor.GetRatio | client/src/entitySystem/system/existence/BackgroundColorSystem.ts:86-88 | lies in [0, 1] for a non-negative value, is 1 exactly from max on, and is never above value / max |
| BackgroundColor.GetRatioMonotone | client/src/entitySystem/system/existence/BackgroundColorSystem.ts:86-88 | a larger value never gives a smaller ratio |
| BackgroundColor.ColorMixer.constructor | client/src/entitySystem/system/existence/BackgroundColorSystem.ts:76-84 | a new mixer's bag is the one given, empty by default |
| BackgroundColor.ColorMixer.Add | client/src/entitySystem/system/existence/BackgroundColorSystem.ts:90-92 | one more copy of the colour; every other colour's count is unchanged |
| BackgroundColor.ColorMixer.Remove | client/src/entitySystem/system/existence/BackgroundColorSystem.ts:94-96 | one copy fewer if there was one; every other colour's count is unchanged |
| BackgroundColor.ColorMixer.ColorsCount | client/src/entitySystem/system/existence/BackgroundColorSystem.ts:99-101 | the sum over the distinct colours of their counts is the size of the bag |
| BackgroundColor.BackgroundColorSystem.constructor | client/src/entitySystem/system/existence/BackgroundColorSystem.ts:13-20 | the system keeps the mixer it is given |
| BackgroundColor.BackgroundColorSystem.Enter | client/src/entitySystem/system/existence/BackgroundColorSystem.ts:29-34 | the bag gains one copy per entity colour of the region |
| BackgroundColor.BackgroundColorSystem.Exit | client/src/entitySystem/system/existence/BackgroundColorSystem.ts:36-40 | the bag loses one copy per entity colour of the region, as far as it holds them |
| BackgroundColor.EnterThenExitRestores | client/src/entitySystem/system/existence/BackgroundColorSystem.ts:29-40 | entering a region and then leaving it restores the bag |
| BackgroundColor.ExitKeepsOtherColors | client/src/entitySystem/system/existence/BackgroundColorSystem.ts:36-40 | leaving a region leaves the count of every colour it does not hold unchanged |
| DebugOverlay.GetDirection | client/src/util/Debug.ts:198-206 | 0 exactly within the tolerance; for a positive tolerance, 1 exactly from +tolerance up and 2 exactly from -tolerance down |
| DebugOverlay.GlyphIndexInRange | client/src/util/Debug.ts:224-226 | the index h + 3v is in [0, 8], decodes back to (h, v), and picks the dot exactly when both directions are 0 |
| DebugOverlay.Glyph | client/src/util/Debug.ts:224-226 | the dot exactly when both offsets are within 200; otherwise a positive horizontal offset of at least 200 points left, a negative one right, a positive vertical one up and a negative one down, and the eight sign pairs give the glyphs `←→↑↖↗↓↙↘` |
| DebugOverlay.LabelWithNote | client/src/util/Debug.ts:209-211 | a note turns the text into `text(note)` |
| DebugOverlay.Label | client/src/util/Debug.ts:208-231 | the label starts with the text; with neither coordinates nor note it is the text; with coordinates it is longer |
| DebugOverlay.DebugInfo.constructor | client/src/util/Debug.ts:191-196 | the overlay starts at the given line and line height, with nothing drawn |
| DebugOverlay.DebugInfo.Text | client/src/util/Debug.ts:208-237 | `currentY` advances by one line height and the label is drawn at x = 10 on the new line; returns the overlay |
| DebugOverlay.DebugInfo.Start | client/src/util/Debug.ts:239-245 | `currentY` resets to 0; the player line and the render-radius line are drawn at one and two line heights, where `currentY` then stays |
| DebugOverlay.Debug.constructor | client/src/util/Debug.ts:25-28 | the notification counter starts at the given count |
| DebugOverlay.Debug.GetNotificationMessage | client/src/util/Debug.ts:161-168 | four doublings make the message the base 16 times over; the counter goes up by exactly one |
| DebugOverlay.RepeatAdd | client/src/util/Debug.ts:163-166 | doubling j copies gives 2j copies: j + k copies of a string are j copies followed by k |
| DebugOverlay.RepeatBlocks | client/src/util/Debug.ts:161-168 | every block of the repeated message is the base message |
| DebugOverlay.NotificationBase | client/src/util/Debug.ts:162 | the base message is `测试` followed by at least one decimal digit and nothing else |
| JsNumbers.Rem | src/environment/bilibili.ts:469 | JavaScript's remainder keeps the dividend's sign and has magnitude below the divisor |
| JsNumbers.FloorDiv | src/util/entityStorage/chunk/Chunks.ts:62-66 | `Math.floor(a / b)` is the r with r * b <= a < (r + 1) * b, non-negative for non-negative a |
| JsNumbers.CeilDiv | src/entity/chunk.ts:19-21 | `Math.ceil(a / b)` is the r with (r - 1) * b < a <= r * b |
| JsNumbers.ToInt16 | src/environment/bilibili.ts:311 | the 16-bit wrap of `setInt16`: in [-2^15, 2^15), congruent mod 2^16, and the identity in range |
| JsNumbers.NumberToInt32 | src/environment/bilibili.ts:465 | a bitwise operator's ToInt32 of a number: a signed 32-bit value, 0 for NaN |
| JsNumbers.ShiftRight15 | src/environment/bilibili.ts:468 | `x >> 15` lies in [-2^16, 2^16) and has the sign of x |
| JsNumbers.Xor32 | src/environment/bilibili.ts:468 | `a ^ b` is a signed 32-bit value, non-negative exactly when a and b have the same sign |
| JsNumbers.ToInt32 | src/environment/bilibili.ts:465 | the 32-bit wrap of `<<=` and friends: in [-2^31, 2^31), congruent mod 2^32, and the identity in range |
| CommentCodec.LastIndexOfDelimiter | src/environment/bilibili.ts:372-375 | `lastIndexOf('/[')`: a delimiter position with no delimiter after it, or none exactly when the text has no delimiter |
| CommentCodec.DelimiterBeforeMetadata | src/environment/bilibili.ts:372 | in text + `/[` + encoded codes, the last delimiter is the one appended, whatever the text holds |
| CommentCodec.CodeRoundTrip | src/environment/bilibili.ts:475-488 | every code in [0, 0x8000) is shifted into the accepted ranges and shifted back to itself |
| CommentCodec.DecodedIsSafe | src/environment/bilibili.ts:482-488 | every accepted code decodes into [0, 0x8000) and re-encodes to itself |
| CommentCodec.ToActualCharCodes | src/environment/bilibili.ts:482-488 | throws exactly when some code is outside [0x4000, 0x9fff] and [0xb000, 0xcfff]; otherwise each code is decoded, into [0, 0x8000) |
| CommentCodec.ToSafeCharCodesAsWritten | src/environment/bilibili.ts:475-480 | as written, throws unless every code is at least 0x8000 |
| CommentCodec.ToSafeCharCodes | src/environment/bilibili.ts:475-480 | with the guard the comment at line 474 states: throws exactly when some code is outside [0, 0x8000); otherwise every output is an accepted code |
| CommentCodec.SafeCharCodesRoundTrip | src/environment/bilibili.ts:475-488 | `toActualCharCodes` undoes the corrected `toSafeCharCodes` |
| CommentCodec.SafeCharCodesGuardInverted | src/environment/bilibili.ts:474-477 | on every non-empty list of codes in [0, 0x8000), the guard as written throws and the intended one does not |
| CommentCodec.FromCharCodesKeepsText | src/environment/bilibili.ts:450 | code units pass through `String.fromCharCode` unchanged |
| CommentCodec.Salted | src/environment/bilibili.ts:463 | the codes, unchanged, between four salt codes in front (the first is 44) and four behind |
| CommentCodec.HashStep | src/environment/bilibili.ts:465-466 | one turn of the loop gives NaN exactly when its code is NaN |
| CommentCodec.HashFold | src/environment/bilibili.ts:462-467 | after the loop `ret` is NaN exactly when the code read last, the first one, is NaN: an earlier NaN is cleared by the next shift |
| CommentCodec.HashFinish | src/environment/bilibili.ts:468-470 | after `(ret >> 15) ^ ret` and `% 0x8000` the result lies in [0, 0x8000): the shift keeps the sign, so the xor clears it |
| CommentCodec.HashOf | src/environment/bilibili.ts:461-471 | the hash lies in [0, 0x8000) |
| CommentCodec.Hash | src/environment/bilibili.ts:461-471 | the downward loop over the salted codes computes the hash, in [0, 0x8000) |
| CommentCodec.FirstCharCode | src/environment/bilibili.ts:457 | `charCodeAt(0) % 0x8000` is NaN exactly for empty text, and otherwise the first code unit modulo 0x8000 |
| CommentCodec.MacOf | src/environment/bilibili.ts:455-459 | the tag lies in [0, 0x8000) |
| CommentCodec.Mac | src/environment/bilibili.ts:455-459 | the hash of the first char code modulo 0x8000 (NaN for empty text), followed by the properties |
| CommentCodec.MacReadsFirstCharCode | src/environment/bilibili.ts:455-459 | the tag depends on the text only through its first char code |
| CommentCodec.MetadataOf | src/environment/bilibili.ts:432-453 | corrected metadata is five code units, starting with the delimiter `/[` |
| CommentCodec.GenerateCommentMetadata | src/environment/bilibili.ts:432-453 | with the corrected guard: the delimiter followed by the encoded position and tag |
| CommentCodec.MetadataMadeWhen | src/environment/bilibili.ts:432-453 | with the corrected guard, metadata is made exactly when both coordinates are in [0, 0x8000) |
| CommentCodec.GenerateCommentMetadataAsWritten | src/environment/bilibili.ts:432-453 | `generateCommentMetadata` as written, with the inverted guard, throws on every call |
| CommentCodec.GenerateAsWrittenAlwaysThrows | src/environment/bilibili.ts:445-448 | as written, every call throws, since the tag is always below 0x8000 |
| CommentCodec.Split | src/environment/bilibili.ts:415-416 | `split(',')` yields at least one field, and no field holds a comma |
| CommentCodec.SplitJoin | src/environment/bilibili.ts:415-416 | joining the fields with commas gives back the attributes |
| CommentCodec.JoinSplit | src/environment/bilibili.ts:415-416 | comma-free fields joined with commas split back into themselves |
| CommentCodec.ParseFromXmlStrings | src/environment/bilibili.ts:370-430 | copies the metadata's char codes in a loop and computes the parse |
| CommentCodec.ParseOf | src/environment/bilibili.ts:370-430 | a parsed comment needs a `/[` in the text; its text is what comes before the last one and its attribute fields are the split attributes |
| CommentCodec.ParseNeedsDelimiter | src/environment/bilibili.ts:372-375 | text without `/[` gives null |
| CommentCodec.ParseRejectsUnsafeCodes | src/environment/bilibili.ts:383-387 | a metadata code outside the accepted ranges gives null |
| CommentCodec.ReadProperties | src/environment/bilibili.ts:393-429 | a comment exactly when 3 or 5 codes are decoded and the popped tag equals the mac of the text and the rest; then the position is the first two, the advanced type and parameter are null exactly with 2 left and are the next two with 4, and the attribute fields are the split |
| CommentCodec.ParsedComment | src/environment/bilibili.ts:370-412 | a parsed comment's text is the prefix before the last `/[`, followed by 3 or 5 accepted codes |
| CommentCodec.MetadataRoundTrip | src/environment/bilibili.ts:370-453 | parsing any text followed by its corrected metadata gives back the text and the position, with no advanced comment |
| CommentFrames.Int32BE | src/environment/bilibili.ts:304-309 | `setInt32` writes four bytes |
| CommentFrames.Word32 | src/environment/bilibili.ts:331-335 | four big-endian bytes read as a word in [0, 2^32) |
| CommentFrames.GetInt32 | src/environment/bilibili.ts:331-335 | `getInt32` throws exactly when fewer than four bytes remain; it reads a signed 32-bit value |
| CommentFrames.GetInt16 | src/environment/bilibili.ts:337 | `getInt16` throws exactly when fewer than two bytes remain; it reads a signed 16-bit value |
| CommentFrames.Int32RoundTrip | src/environment/bilibili.ts:304-335 | `getInt32` reads back ToInt32 of what `setInt32` wrote |
| CommentFrames.Int32BytesRoundTrip | src/environment/bilibili.ts:304-335 | writing back what `getInt32` read reproduces the four bytes |
| CommentFrames.Int16RoundTrip | src/environment/bilibili.ts:311-337 | `getInt16` reads back ToInt16 of what `setInt16` wrote |
| CommentFrames.Int16BytesRoundTrip | src/environment/bilibili.ts:311-337 | writing back what `getInt16` read reproduces the two bytes |
| CommentFrames.Put | src/environment/bilibili.ts:309-311 | a write changes exactly the bytes at its offset |
| CommentFrames.EntryBytes | src/environment/bilibili.ts:308-312 | an entry writes as many bytes as its size says |
| CommentFrames.WriteEntry | src/environment/bilibili.ts:308-312 | writing an entry never changes the buffer's length |
| CommentFrames.WriteEntries | src/environment/bilibili.ts:307-313 | writing the entries never changes the buffer's length |
| CommentFrames.EntriesFit | src/environment/bilibili.ts:164-169 | every entry of the table fits the 16-byte header |
| CommentFrames.FrameHeader | src/environment/bilibili.ts:303-313 | the header is 16 bytes |
| CommentFrames.HeaderWritten | src/environment/bilibili.ts:303-313 | after the two length writes, the table with the given operation writes exactly length 16+len, headerLen 16, ver 1, op and seq 1, big-endian at offsets 0, 4, 6, 8 and 12 |
| CommentFrames.Frame | src/environment/bilibili.ts:299-316 | a frame is 16 + len bytes, with the payload unchanged after the header |
| CommentFrames.ReadFrameHeader | src/environment/bilibili.ts:328-339 | a frame's header reads back packet length 16+len, header length 16, version 1, the operation and sequence 1 |
| CommentFrames.ReadHeader | src/environment/bilibili.ts:327-339 | `parse` throws on a buffer shorter than the 16-byte header; on a longer one the header reads yield the five header fields |
| CommentFrames.ReadFailurePersists | src/environment/bilibili.ts:333-339 | once an entry's read throws, the whole read throws |
| CommentFrames.FrameRoundTrip | src/environment/bilibili.ts:299-364 | parsing an encoded frame reads back its header fields; for operation 3 it throws exactly when the payload is shorter than four bytes and otherwise counts its first four bytes; for operation 5 and a frame under 2^31 bytes the loop hands the payload to the decoder as its one slice; any other operation has no body |
| CommentFrames.SliceIndex | src/environment/bilibili.ts:350 | a `slice` position is clamped into [0, length]: unchanged within, counted from the end when negative, 0 before the start and the length past the end |
| CommentFrames.Slice | src/environment/bilibili.ts:350 | `buffer.slice(start, end)` is the bytes from start to end when both lie in order within the buffer, and never longer than the buffer |
| CommentFrames.Offsets | src/environment/bilibili.ts:345 | the offsets the loop counter can read are exactly 0 to the buffer's length minus one |
| CommentFrames.WalkMessages | src/environment/bilibili.ts:341-356 | the loop's outcome is the `WalkFrom` walk from offset 0: the slices in order, or the throw, or the loop that never ends |
| CommentFrames.WalkStep | src/environment/bilibili.ts:345-350 | at an unread in-range offset, the loop slices from `i + l` to `i + step` and goes on from `i + step` |
| CommentFrames.FirstStep | src/environment/bilibili.ts:344-350 | the first turn reads offset 0 and moves on by the packet length |
| CommentFrames.SingleFrameWalk | src/environment/bilibili.ts:341-356 | over one encoded frame under 2^31 bytes the loop makes one step and hands the payload to the decoder |
| CommentFrames.WalkFrames | src/environment/bilibili.ts:341-356 | frames `encode` made, sent back to back after any bytes already read, are split apart: the loop hands their payloads to the decoder in order |
| CommentFrames.PackedFrames | src/environment/bilibili.ts:341-356 | in frames `encode` made, sent back to back after a prefix, the loop reads each frame's length field, header length 16 and payload, one after the other up to the end |
| CommentFrames.WalkFramesFrom | src/environment/bilibili.ts:341-356 | from an offset where the loop reads frames up to the end, it hands their payloads to the decoder in order |
| CommentFrames.FramesStep | src/environment/bilibili.ts:345-350 | at the first of several frames the loop reads, it slices out that payload and moves on to the next frame |
| CommentFrames.FrameReads | src/environment/bilibili.ts:346-350 | at a frame's offset the loop reads the frame's length and header length 16, and its slice is the payload |
| CommentFrames.ZeroStepLoops | src/environment/bilibili.ts:344-345 | an operation-5 packet whose length field is 0 sends `parse` round offset 0 forever |
| CommentFrames.NegativeStepThrows | src/environment/bilibili.ts:345-346 | an operation-5 packet with a negative length field makes `parse` throw on the read before the buffer |
| CommentFrames.ShortTailThrows | src/environment/bilibili.ts:345-347 | an operation-5 packet whose length field stops fewer than six bytes before the end makes `parse` throw, such as 18 bytes with a length field of 16 |
| CommentFrames.RemoteCommentReceiver.constructor | src/environment/bilibili.ts:164-169 | the receiver starts with the default frame table |
| CommentFrames.RemoteCommentReceiver.SetInt32 | src/environment/bilibili.ts:309 | `setInt32` writes four big-endian bytes at the offset and nothing else |
| CommentFrames.RemoteCommentReceiver.SetInt16 | src/environment/bilibili.ts:311 | `setInt16` writes two big-endian bytes at the offset and nothing else |
| CommentFrames.RemoteCommentReceiver.MergeBuffers | src/environment/bilibili.ts:318-325 | the merged buffer is the first buffer followed by the second |
| CommentFrames.RemoteCommentReceiver.WriteHeader | src/environment/bilibili.ts:307-313 | the view ends as writing each entry in turn leaves it |
| CommentFrames.RemoteCommentReceiver.Encode | src/environment/bilibili.ts:299-316 | stores the operation in the shared table's third entry and returns the frame of the payload |
| CommentFrames.RemoteCommentReceiver.Parse | src/environment/bilibili.ts:327-364 | `parse` with the receiver's table: the fields and body, the thrown range error, or the operation-5 loop that never ends, exactly as `ParseOf` gives them |
| ServerComment.ParseFromXmlLine | packages/danmakucraft2-server/scripts/CommentDataUtil.ts:18-66 | copies the metadata's char codes in a loop and computes the parse |
| ServerComment.ParseLineOf | packages/danmakucraft2-server/scripts/CommentDataUtil.ts:18-66 | a parsed line needs a `/[` in the text, and its text is what comes before the last one |
| ServerComment.ParseLineNeedsDelimiter | packages/danmakucraft2-server/scripts/CommentDataUtil.ts:20-23 | text without `/[` gives null |
| ServerComment.ParseLineRejectsUnsafeCodes | packages/danmakucraft2-server/scripts/CommentDataUtil.ts:31-35 | a metadata code outside the accepted ranges gives null |
| ServerComment.ReadServerProperties | packages/danmakucraft2-server/scripts/CommentDataUtil.ts:40-65 | a comment exactly when 2 or 4 codes are decoded, with no mac; the position is the first two; size and colour are the third and fourth attribute fields, undefined exactly past the split's end; buff data exactly with 4 codes whose third is a buff type, made of the third and fourth |
| ServerComment.ParsedLine | packages/danmakucraft2-server/scripts/CommentDataUtil.ts:18-66 | a parsed comment's text is the prefix before the last `/[`, followed by 2 or 4 accepted codes; its position is the first two decoded |
| ServerComment.PositionRoundTrip | packages/danmakucraft2-server/scripts/CommentDataUtil.ts:18-66 | a position encoded with the client's shift after any text parses back, with no buff data |
| ServerComment.ClientMetadataRejected | packages/danmakucraft2-server/scripts/CommentDataUtil.ts:40-55 | the client's own metadata (position and tag, 3 codes) is never accepted by the server copy |
| ServerComment.ParseDocument | packages/danmakucraft2-server/scripts/CommentDataUtil.ts:8-16 | the filtered list is no longer than the document |
| ServerComment.ParseDocumentAppend | packages/danmakucraft2-server/scripts/CommentDataUtil.ts:8-16 | `map` then `filter` keeps document order: two runs of elements give the first run's comments followed by the second's |
| ServerComment.ParseDocumentSingle | packages/danmakucraft2-server/scripts/CommentDataUtil.ts:8-16 | one element gives exactly its comment when it parses, and nothing otherwise |
| ServerComment.ParseDocumentOnlyParsed | packages/danmakucraft2-server/scripts/CommentDataUtil.ts:8-16 | every comment of the document comes from an element that parses to it |
| ServerComment.ParseDocumentKeepsParsed | packages/danmakucraft2-server/scripts/CommentDataUtil.ts:8-16 | every element that parses contributes its comment |

## Left out

- WORLD_SIZE is imported in `src/` from a module that is not part of this model. The client's
  value, 40000, is assumed.
- `chunksCount` is taken as an integer, so `Math.floor(chunksCount)` is the identity.
  Coordinates are integers, so the NaN/Infinity check of `toChunkCoordinate` has no case to
  reject.
- `makeChunks` passes one mutable `Phaser.Point` to every `Chunk`, and the `Region`
  constructor is not part of this model. Chunk anchors are therefore not modelled; each chunk
  records only its grid position, as a ghost map.
- ChunkCells.JoinIsWindowDifference: proved only when neither window crosses the world's seam
  and the move is no wider than a window. The source mixes wrapped left bounds with unwrapped
  right bounds, so elsewhere the join is not a set difference.
- `forEach` and `scan` take callbacks. The model returns the sequence of calls they would make,
  in order; the callbacks' effects are not modelled.
- `toWorldCoordinate2d` is not part of this model. It is taken to wrap each coordinate into
  [0, WORLD_SIZE) by the Euclidean remainder.
- `validateRadius` is not part of this model, so `listChunksInBounds` checks nothing about the
  bounds' size. The `Chunks<T>` iterator, built on the unseen `IterablesIterator`, is not
  modelled.
- GenericChunks.New: `chunkSize` is an integer in the model; the source accepts any positive
  number.
- BackgroundColor.GetRatio: requires max > 0. Its callers pass the constants 15 and 300; with a
  zero max JavaScript gives NaN, which the model does not represent.
- ChunkEntities.RenderChunksCount: uses the exact chunk size WORLD_SIZE / N, where
  src/entity/chunk.ts:20 stores a double. When N does not divide WORLD_SIZE, the source's
  ceiling over the rounded size can be one more than the model's.
- ChunkEntities.CheckConfiguration: the "too large" test of src/entity/chunk.ts:30 uses the
  exact chunk size. When N does not divide WORLD_SIZE, the rounded product can exceed
  WORLD_SIZE where the exact one does not, so the source can throw where the model accepts.
- ChunkCells.ChunkIndex: floor(v * N / WORLD_SIZE) is exact, while src/entity/chunk.ts:232
  divides by the double chunk size. When N does not divide WORLD_SIZE, a coordinate on a span
  boundary can land one chunk lower in the source.
- ChunkCells.IsInSameRegion: compares the exact indices of ChunkCells.ChunkIndex. It differs
  from the source where that index does.
- ChunkCells.ScanSize: `Math.ceil(radius * 2 / chunkSize)` of src/entity/chunk.ts:160 is
  taken over the exact chunk size. When N does not divide WORLD_SIZE, the source can be one
  larger.
- VisibilityBuilder.VisibilityEngineBuilder.constructor: only the default distance checker,
  records map and ticker lists are modelled. The source also accepts them as arguments;
  records built with another checker would break `Valid` and `RecordsPerFinder`, which hold
  for builders made with the defaults. The default updating radius is the exact fraction
  3200/7, not the double nearest to it.
- BackgroundColor.ColorMixer.constructor: takes the colour bag, but not the four
  floating-point saturation and lightness parameters, which only the unmodelled colour
  arithmetic reads.
- The rest of `getMixedColor` (hue, saturation, lightness), `finish`, `blendColors` and the
  colour tween use floating-point polar and HSL arithmetic and Phaser. Only the colour count is
  modelled. The `nCopies` argument of `add`/`remove` is left out because its callers never pass
  it.
- PhysicalConstants.GetRenderRadius: the factor 1.05 is taken as the exact fraction 21/20; the
  floating-point rounding of `renderRadius * 1.05` is not modelled.
- The Debug constructor's reflection loop, the `window` assignment, the ajax `fill` call,
  comment creation and Phaser's drawing are I/O or foreign. Drawing is modelled as the list of
  lines sent to `game.debug.text`.
- DebugOverlay.DebugInfo.Text: the world offset and the rounded distance (`Math.round` of a
  floating-point magnitude) come in as a parameter rather than being computed;
  `toWorldCoordinateOffset2d` is not part of this model. The coordinates are passed in already
  floored.
- The `VisibilityEngine`, `DistanceChecker`, `EntityFinderRecord` and ticker classes are not
  part of this model. They are plain values here, so the engine's sharing of one record object
  between tickers is represented by equal values.
- The `BuffType` enum is not part of this model. The set of buff-type numbers it defines is a
  parameter.
- `Number()` of the attribute fields is foreign. The fields are kept as text, and the client's
  show time, mode, size, colour, send time and user id are kept as the list of split fields.
- `JSON.stringify`, `TextEncoder`, `TextDecoder` and `JSON.parse` are foreign. The payload is
  opaque bytes.
- CommentFrames.ParseOf: the operation-5 loop (src/environment/bilibili.ts:341-356) is modelled
  up to the slices it hands to `TextDecoder` and `JSON.parse`. The decoding is foreign, so the
  body is the list of slices, and the dropping of a slice that fails to parse is not modelled.
  A run that comes back to an offset it has read would go on forever; the model stops there
  and reports `Loops`.
- ChunkEntities.Chunk.CountEntities: has no contract of its own. It is the length of the
  entity list, and the constructor and `AddEntity` state what it becomes.
- `data.op && ...` treats op 0 as false. That changes nothing here, since neither 3 nor 5 is 0.
- The static `frameDefinitionEntries` table is a field of the receiver object. Its sharing
  between receivers is not modelled.
- The WebSocket lifecycle, retry and heartbeat timers, the DOM adapters and the `window`
  environment reads of `bilibili.ts` are I/O.
- CommentCodec.Hash: the model computes `31 * ret + code` exactly. JavaScript doubles are exact
  here because the intermediate values stay below 2^53.

## Findings
| source | as written | input that shows it | evidently intended | confidence | as-written member | corrected member |
|---|---|---|---|---|---|---|
| src/environment/bilibili.ts:474-477 | `toSafeCharCodes` throws when some code is below 0x8000, so `generateCommentMetadata` throws on every position and tag | `generateCommentMetadata("a", 1, 2)`: every property is below 0x8000 (the tag always is), so it throws | throw when some code is outside [0, 0x8000), as the comment at line 474 says; then the metadata parses back | not executed | CommentCodec.GenerateAsWrittenAlwaysThrows | CommentCodec.MetadataRoundTrip |
| client/src/engine/visibility/VisibilityEngineBuilder.ts:47 | `asSequence([onUpdate, onUpdate]).any()` tests a two-element list, so `build` never throws | `new VisibilityEngineBuilder(p, r).build()` with no system applied returns an engine | throw "No systems were applied" exactly when both ticker lists are empty | not executed | VisibilityBuilder.GuardAsWrittenAlwaysPasses | VisibilityBuilder.VisibilityEngineBuilder.Build |
| src/util/entityStorage/chunk/Chunks.ts:34-44 | the bottom-right corner is bumped by the grid size, but the lookup never reduces the index modulo it | a 2 x 2 grid of chunk size 20000 and bounds from (30000, 30000) to (50000, 50000): rows 1..2 are read and `chunks[2]` is undefined, so it throws | read the bumped indices modulo the grid size, listing the chunks across the seam | not executed | GenericChunks.Chunks.WrappedRowsThrow | GenericChunks.Chunks.WrappedListingCorners |
