/** The colour bookkeeping of client/src/entitySystem/system/existence/BackgroundColorSystem.ts:
    the system adds the colour of every comment in a region the player enters to its
    `ColorMixer` and removes them again when the player leaves; the mixer keeps the colours
    in a bag and totals them. The typescript-collections `Bag` is taken as a multiset whose
    `add` puts in one copy and whose `remove` takes out one copy when there is one. */
module BackgroundColor {

  /** A comment entity as the system sees it: its colour, as an RGB number. */
  datatype CommentEntity = CommentEntity(color: int)

  /** The colours of the entities of a region, one copy per entity. */
  function ColorsOf(container: seq<CommentEntity>): (r: multiset<int>)
    ensures |r| == |container|
    ensures forall k :: 0 <= k < |container| ==> container[k].color in r
  {
    if |container| == 0 then multiset{}
    else ColorsOf(container[..|container| - 1]) + multiset{container[|container| - 1].color}
  }

  /** The entity at `i` adds its colour to those before it. */
  lemma ColorsOfStep(container: seq<CommentEntity>, i: nat)
    requires i < |container|
    ensures ColorsOf(container[..i + 1]) == ColorsOf(container[..i]) + multiset{container[i].color}
  {
    assert container[..i + 1][..i] == container[..i];
  }

  /** `k` copies of `c`. */
  ghost function Copies(c: int, k: nat): (r: multiset<int>)
    ensures |r| == k && r[c] == k && forall d :: d != c ==> r[d] == 0
  {
    if k == 0 then multiset{} else Copies(c, k - 1) + multiset{c}
  }

  /** `getRatio(value, max)`: `min(value, max) / max`. Its callers pass the positive
      constants 15 and 300. */
  function GetRatio(value: real, max: real): (r: real)
    requires max > 0.0
    ensures value >= 0.0 ==> 0.0 <= r <= 1.0
    ensures r == 1.0 <==> value >= max
    ensures r * max <= value
  {
    (if value <= max then value else max) / max
  }

  /** A larger value never gives a smaller ratio. */
  lemma GetRatioMonotone(value: real, value': real, max: real)
    requires max > 0.0 && value <= value'
    ensures GetRatio(value, max) <= GetRatio(value', max)
  {
    var a := if value <= max then value else max;
    var b := if value' <= max then value' else max;
    QuotientMonotone(a, b, max);
  }

  lemma QuotientMonotone(a: real, b: real, m: real)
    requires m > 0.0 && a <= b
    ensures a / m <= b / m
  {
    var d := (b - a) / m;
    assert d * m == b - a;
    assert b / m == a / m + d;
  }

  class ColorMixer {
    /** `rgbsCounter`. */
    var rgbsCounter: multiset<int>

    /** The colour bag starts as given, empty by default. */
    constructor (rgbsCounter: multiset<int> := multiset{})
      ensures this.rgbsCounter == rgbsCounter
    {
      this.rgbsCounter := rgbsCounter;
    }

    /** `add(rgb)`: one more copy of `rgb`; no other colour's count changes. */
    method Add(rgb: int)
      modifies this
      ensures rgbsCounter == old(rgbsCounter) + multiset{rgb}
      ensures rgbsCounter[rgb] == old(rgbsCounter[rgb]) + 1
      ensures forall c :: c != rgb ==> rgbsCounter[c] == old(rgbsCounter[c])
    {
      rgbsCounter := rgbsCounter + multiset{rgb};
    }

    /** `remove(rgb)`: one copy of `rgb` fewer, if there is one; no other colour's count
        changes. */
    method Remove(rgb: int)
      modifies this
      ensures rgbsCounter == old(rgbsCounter) - multiset{rgb}
      ensures rgbsCounter[rgb] == if old(rgbsCounter[rgb]) > 0 then old(rgbsCounter[rgb]) - 1 else 0
      ensures forall c :: c != rgb ==> rgbsCounter[c] == old(rgbsCounter[c])
    {
      rgbsCounter := rgbsCounter - multiset{rgb};
    }

    /** The total of `getMixedColor`: the counts of the distinct colours, summed; it is the
        number of colours in the bag. */
    method ColorsCount() returns (colorsCount: nat)
      ensures colorsCount == |rgbsCounter|
    {
      var mixingRgbs := set c | c in rgbsCounter;
      ghost var seen: multiset<int> := multiset{};
      ghost var rest := rgbsCounter;
      colorsCount := 0;
      while mixingRgbs != {}
        invariant seen + rest == rgbsCounter
        invariant colorsCount == |seen|
        invariant forall c :: c in mixingRgbs ==> rest[c] == rgbsCounter[c]
        invariant forall c :: c !in mixingRgbs ==> rest[c] == 0
        decreases |mixingRgbs|
      {
        SomeElement(mixingRgbs);
        var rgb :| rgb in mixingRgbs;
        var count := rgbsCounter[rgb];
        SplitOff(rest, rgb);
        seen := seen + Copies(rgb, count);
        rest := rest[rgb := 0];
        colorsCount := colorsCount + count;
        mixingRgbs := mixingRgbs - {rgb};
      }
      assert forall c :: rest[c] == multiset{}[c];
      assert rest == multiset{};
    }

    /** A non-empty set has an element for the iteration to visit. */
    static lemma SomeElement(s: set<int>)
      requires s != {}
      ensures exists c :: c in s
    {
      if forall c :: c !in s {
        assert false;
      }
    }

    /** A colour's copies and the rest of a bag make up the bag. */
    static lemma SplitOff(m: multiset<int>, c: int)
      ensures m == m[c := 0] + Copies(c, m[c])
      ensures |m| == |m[c := 0]| + m[c]
    {
      assert m == m[c := 0] + Copies(c, m[c]);
    }
  }

  class BackgroundColorSystem {
    const colorMixer: ColorMixer

    constructor (colorMixer: ColorMixer)
      ensures this.colorMixer == colorMixer
    {
      this.colorMixer := colorMixer;
    }

    /** `enter(region)`: adds the colour of every entity in the region. */
    method Enter(container: seq<CommentEntity>)
      modifies colorMixer
      ensures colorMixer.rgbsCounter == old(colorMixer.rgbsCounter) + ColorsOf(container)
    {
      for i := 0 to |container|
        invariant colorMixer.rgbsCounter == old(colorMixer.rgbsCounter) + ColorsOf(container[..i])
      {
        ColorsOfStep(container, i);
        colorMixer.Add(container[i].color);
      }
      assert container[..|container|] == container;
    }

    /** `exit(region)`: removes the colour of every entity in the region, each as far as
        the bag holds it. */
    method Exit(container: seq<CommentEntity>)
      modifies colorMixer
      ensures colorMixer.rgbsCounter == old(colorMixer.rgbsCounter) - ColorsOf(container)
    {
      for i := 0 to |container|
        invariant colorMixer.rgbsCounter == old(colorMixer.rgbsCounter) - ColorsOf(container[..i])
      {
        ColorsOfStep(container, i);
        RemoveOneMore(old(colorMixer.rgbsCounter), ColorsOf(container[..i]), container[i].color);
        colorMixer.Remove(container[i].color);
      }
      assert container[..|container|] == container;
    }

    /** Removing one more copy after removing several is removing them all at once. */
    static lemma RemoveOneMore(m: multiset<int>, removed: multiset<int>, c: int)
      ensures (m - removed) - multiset{c} == m - (removed + multiset{c})
    {
    }
  }

  /** Entering a region and then leaving it restores the bag. */
  lemma EnterThenExitRestores(m: multiset<int>, container: seq<CommentEntity>)
    ensures (m + ColorsOf(container)) - ColorsOf(container) == m
  {
  }

  /** Leaving a region removes no colour that the region does not hold. */
  lemma ExitKeepsOtherColors(m: multiset<int>, container: seq<CommentEntity>, c: int)
    requires forall k :: 0 <= k < |container| ==> container[k].color != c
    ensures (m - ColorsOf(container))[c] == m[c]
    decreases |container|
  {
    if |container| > 0 {
      ExitKeepsOtherColors(m, container[..|container| - 1], c);
    }
  }
}
