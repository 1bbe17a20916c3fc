/** The render radius of client/src/PhysicalConstants.ts: how far from the player the client
    keeps comments drawn, given the size of the game view. */
module PhysicalConstants {
  import JsNumbers

  const WORLD_SIZE: int := 40000
  const MAXIMUM_COMMENT_WIDTH: int := 100
  /** A comment is anchored at its centre, so half of it can stick out of its chunk. */
  const MAXIMUM_COMMENT_WIDTH_OUTSIDE_CHUNK: int := MAXIMUM_COMMENT_WIDTH / 2
  const PLAYER_MOVE_DISTANCE_PER_SECOND: int := 216
  const COMMENT_CHUNKS_COUNT: int := 50
  /** The default updating radius of an entity tracker: 4/7 of a comment chunk, kept as the
      exact fraction 3200/7 rather than the double nearest to it. */
  const ENTITY_TRACKER_UPDATE_RADIUS: real := WORLD_SIZE as real / COMMENT_CHUNKS_COUNT as real * (4.0 / 7.0)

  /** The factor 1.05 of `getRenderRadius`, as the exact fraction 21 / 20. */
  const MARGIN_NUMERATOR: int := 21
  const MARGIN_DENOMINATOR: int := 20

  function Max(a: int, b: int): int
  {
    if a >= b then a else b
  }

  /** The radius before the margin: the longer side of the view, the part of a comment
      outside its chunk, and two seconds of player movement. */
  function BaseRadius(gameWidth: int, gameHeight: int): (r: int)
    ensures r == Max(gameWidth, gameHeight) + 482
  {
    var longerSide := Max(gameWidth, gameHeight);
    var bufferingDistance := PLAYER_MOVE_DISTANCE_PER_SECOND * 2;
    longerSide + MAXIMUM_COMMENT_WIDTH_OUTSIDE_CHUNK + bufferingDistance
  }

  /** `getRenderRadius`: the smallest integer at least 1.05 times the base radius. */
  function GetRenderRadius(gameWidth: int, gameHeight: int): (r: int)
    ensures var base := BaseRadius(gameWidth, gameHeight);
            MARGIN_DENOMINATOR * r - MARGIN_DENOMINATOR < MARGIN_NUMERATOR * base <= MARGIN_DENOMINATOR * r
  {
    JsNumbers.CeilDiv(BaseRadius(gameWidth, gameHeight) * MARGIN_NUMERATOR, MARGIN_DENOMINATOR)
  }

  /** The radius depends only on the longer side, so width and height can be swapped. */
  lemma RenderRadiusSymmetric(gameWidth: int, gameHeight: int)
    ensures GetRenderRadius(gameWidth, gameHeight) == GetRenderRadius(gameHeight, gameWidth)
  {
  }

  /** For a view of non-negative size the radius is at least the longer side plus 482,
      and it overshoots 1.05 times that by less than one. */
  lemma RenderRadiusBounds(gameWidth: int, gameHeight: int)
    requires gameWidth >= 0 && gameHeight >= 0
    ensures GetRenderRadius(gameWidth, gameHeight) >= Max(gameWidth, gameHeight) + 482
    ensures 20 * GetRenderRadius(gameWidth, gameHeight) < 21 * (Max(gameWidth, gameHeight) + 482) + 20
  {
  }

  /** A larger view never gets a smaller radius. */
  lemma RenderRadiusMonotone(gameWidth: int, gameHeight: int, gameWidth': int, gameHeight': int)
    requires gameWidth <= gameWidth' && gameHeight <= gameHeight'
    ensures GetRenderRadius(gameWidth, gameHeight) <= GetRenderRadius(gameWidth', gameHeight')
  {
  }
}
