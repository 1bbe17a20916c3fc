/** The counters and line layout of client/src/util/Debug.ts: the test notifications of
    `Debug` and the text overlay of `DebugInfo`, which writes one line per call further
    down the screen and marks each listed object with an arrow towards it. Drawing is
    modelled as the list of lines sent to Phaser's debug text. */
module DebugOverlay {
  import opened Geometry
  import opened Wrappers

  /** The decimal digits of a natural number, as a template literal prints it. */
  function Decimal(n: nat): (s: string)
    ensures |s| > 0
    ensures forall k :: 0 <= k < |s| ==> '0' <= s[k] <= '9'
    decreases n
  {
    var digit := ['0' + (n % 10) as char];
    if n < 10 then digit else Decimal(n / 10) + digit
  }

  /** An integer as a template literal prints it. */
  function IntText(i: int): string
  {
    if i < 0 then "-" + Decimal(-i) else Decimal(i)
  }

  /** `s` written `k` times in a row. */
  function Repeat(s: string, k: nat): (r: string)
    ensures |r| == k * |s|
  {
    if k == 0 then "" else Repeat(s, k - 1) + s
  }

  /** Repetitions put one after the other add up. */
  lemma {:induction false} RepeatAdd(s: string, j: nat, k: nat)
    ensures Repeat(s, j) + Repeat(s, k) == Repeat(s, j + k)
    decreases k
  {
    if k > 0 {
      RepeatAdd(s, j, k - 1);
      assert Repeat(s, j) + (Repeat(s, k - 1) + s) == (Repeat(s, j) + Repeat(s, k - 1)) + s;
    }
  }

  /** `getDirection(offset, tolerance)`: 0 within the tolerance either way, otherwise 1 for
      a positive offset and 2 for a negative one. */
  function GetDirection(offset: int, tolerance: int := 200): (d: int)
    ensures 0 <= d <= 2
    ensures d == 0 <==> -tolerance < offset < tolerance
    ensures tolerance > 0 ==> (d == 1 <==> offset >= tolerance)
    ensures tolerance > 0 ==> (d == 2 <==> offset <= -tolerance)
  {
    if (if offset < 0 then -offset else offset) < tolerance then 0
    else if offset > 0 then 1
    else 2
  }

  /** The arrows `text` picks from: `•←→↑↖↗↓↙↘`. */
  const DIRECTION_GLYPHS: string := "\U{2022}\U{2190}\U{2192}\U{2191}\U{2196}\U{2197}\U{2193}\U{2199}\U{2198}"

  /** The index `text` passes to `charAt`. */
  function GlyphIndex(horizontal: int, vertical: int): int
  {
    horizontal + vertical * 3
  }

  /** Every pair of directions names its own glyph, the dot exactly when the object is
      within the tolerance along both axes. */
  lemma GlyphIndexInRange(horizontal: int, vertical: int)
    requires 0 <= horizontal <= 2 && 0 <= vertical <= 2
    ensures 0 <= GlyphIndex(horizontal, vertical) < |DIRECTION_GLYPHS|
    ensures GlyphIndex(horizontal, vertical) == 0 <==> horizontal == 0 && vertical == 0
    ensures GlyphIndex(horizontal, vertical) % 3 == horizontal && GlyphIndex(horizontal, vertical) / 3 == vertical
    ensures DIRECTION_GLYPHS[GlyphIndex(horizontal, vertical)] == '\U{2022}' <==> horizontal == 0 && vertical == 0
  {
    DivModUnique(GlyphIndex(horizontal, vertical), vertical, horizontal, 3);
  }

  /** The arrow towards an object at the given world offset from the player: the dot
      within 200 along both axes, otherwise the arrow for the pair of signs, a positive
      horizontal offset giving a left arrow and a positive vertical one an upward arrow. */
  function Glyph(offset: Point): (c: char)
    ensures c == '\U{2022}' <==> -200 < offset.x < 200 && -200 < offset.y < 200
    ensures offset.x >= 200 && -200 < offset.y < 200 ==> c == '\U{2190}'
    ensures offset.x <= -200 && -200 < offset.y < 200 ==> c == '\U{2192}'
    ensures -200 < offset.x < 200 && offset.y >= 200 ==> c == '\U{2191}'
    ensures offset.x >= 200 && offset.y >= 200 ==> c == '\U{2196}'
    ensures offset.x <= -200 && offset.y >= 200 ==> c == '\U{2197}'
    ensures -200 < offset.x < 200 && offset.y <= -200 ==> c == '\U{2193}'
    ensures offset.x >= 200 && offset.y <= -200 ==> c == '\U{2199}'
    ensures offset.x <= -200 && offset.y <= -200 ==> c == '\U{2198}'
  {
    GlyphIndexInRange(GetDirection(offset.x), GetDirection(offset.y));
    DIRECTION_GLYPHS[GetDirection(offset.x) + GetDirection(offset.y) * 3]
  }

  /** Where the overlay asks for the arrow, the caller's world offset to the object and its
      rounded distance. */
  datatype Navigation = Navigation(offset: Point, distance: int)

  /** The line `text` writes: the text, the note in brackets when there is one, and the
      floored coordinates with the arrow and distance when coordinates are given. */
  function Label(text: string, coordinates: Option<Point>, note: string, navigation: Option<Navigation>): (r: string)
    ensures |text| <= |r| && r[..|text|] == text
    ensures coordinates.None? && note == "" ==> r == text
    ensures coordinates.Some? ==> |r| > |text|
  {
    var withNote := if note != "" then text + "(" + note + ")" else text;
    match coordinates
    case None => withNote
    case Some(p) =>
      var nav := match navigation
        case None => ""
        case Some(n) => " " + [Glyph(n.offset)] + " (" + IntText(n.distance) + ")";
      withNote + ": (" + IntText(p.x) + ", " + IntText(p.y) + ")" + nav
  }

  /** A note without coordinates yields `text(note)`. */
  lemma LabelWithNote(text: string, note: string, navigation: Option<Navigation>)
    requires note != ""
    ensures Label(text, None, note, navigation) == text + "(" + note + ")"
    ensures |Label(text, None, note, navigation)| == |text| + |note| + 2
  {
  }

  /** One call of `game.debug.text`: the string and where it is drawn. */
  datatype Line = Line(text: string, x: int, y: int)

  class DebugInfo {
    var currentY: int
    const lineHeight: int
    /** The lines drawn so far. */
    var drawn: seq<Line>

    constructor (currentY: int := 20, lineHeight: int := 18)
      ensures this.currentY == currentY && this.lineHeight == lineHeight && drawn == []
    {
      this.currentY := currentY;
      this.lineHeight := lineHeight;
      drawn := [];
    }

    /** `text`: draws the label one line height further down and returns the overlay. */
    method Text(text: string, coordinates: Option<Point>, note: string, navigation: Option<Navigation>)
      returns (self: DebugInfo)
      modifies this
      ensures self == this
      ensures currentY == old(currentY) + lineHeight
      ensures drawn == old(drawn) + [Line(Label(text, coordinates, note, navigation), 10, currentY)]
    {
      currentY := currentY + lineHeight;
      drawn := drawn + [Line(Label(text, coordinates, note, navigation), 10, currentY)];
      self := this;
    }

    /** `start`: back to the top, then the player's coordinates (without an arrow) and the
        render radius, on the first two lines. */
    method Start(playerCoordinates: Point, renderRadius: int) returns (self: DebugInfo)
      modifies this
      ensures self == this
      ensures currentY == 2 * lineHeight
      ensures drawn == old(drawn) + [
                Line(Label("Player", Some(playerCoordinates), "", None), 10, lineHeight),
                Line("Render radius: " + IntText(renderRadius), 10, 2 * lineHeight)]
    {
      currentY := 0;
      var _ := Text("Player", Some(playerCoordinates), "", None);
      var _ := Text("Render radius: " + IntText(renderRadius), None, "", None);
      self := this;
    }
  }

  /** The base of a test notification: `测试` and the count. */
  function NotificationBase(count: nat): (r: string)
    ensures |r| > 2 && r[..2] == "\U{6D4B}\U{8BD5}"
    ensures forall k :: 2 <= k < |r| ==> '0' <= r[k] <= '9'
  {
    "\U{6D4B}\U{8BD5}" + Decimal(count)
  }

  class Debug {
    var notificationShowCounts: nat

    constructor (notificationShowCounts: nat := 0)
      ensures this.notificationShowCounts == notificationShowCounts
    {
      this.notificationShowCounts := notificationShowCounts;
    }

    /** `getNotificationMessage`: the base for the current count, doubled four times, that
        is sixteen copies; the count goes up by one. */
    method GetNotificationMessage() returns (message: string)
      modifies this
      ensures notificationShowCounts == old(notificationShowCounts) + 1
      ensures message == Repeat(NotificationBase(old(notificationShowCounts)), 16)
    {
      message := NotificationBase(notificationShowCounts);
      notificationShowCounts := notificationShowCounts + 1;
      ghost var base := message;
      assert message == Repeat(base, 1);
      RepeatAdd(base, 1, 1);
      message := message + message;
      RepeatAdd(base, 2, 2);
      message := message + message;
      RepeatAdd(base, 4, 4);
      message := message + message;
      RepeatAdd(base, 8, 8);
      message := message + message;
    }
  }

  /** Sixteen copies of the base are sixteen equal blocks. */
  lemma RepeatBlocks(s: string, k: nat, i: nat)
    requires i < k
    ensures (i + 1) * |s| <= |Repeat(s, k)|
    ensures Repeat(s, k)[i * |s|..(i + 1) * |s|] == s
    decreases k
  {
    var r := Repeat(s, k);
    assert r == Repeat(s, k - 1) + s;
    if i < k - 1 {
      RepeatBlocks(s, k - 1, i);
      assert (i + 1) * |s| <= (k - 1) * |s| by {
        PositiveProduct(k - 1 - (i + 1), |s|);
      }
      assert r[i * |s|..(i + 1) * |s|] == Repeat(s, k - 1)[i * |s|..(i + 1) * |s|];
    } else {
      assert i * |s| == |Repeat(s, k - 1)|;
    }
  }
}
