/** The discrete and piecewise-linear parts of `ColorMap`, over `real` as an
    idealisation of `double`: the factory of named colour strategies, the
    clamps of the value transform, the alpha control-point interpolation,
    table lookup, the Rainbow strategy and the fixed OSPRay helper lists. */
module ColorMaps {
  import opened Wrappers
  import StringOrder

  /** The colour strategies the factory can build. */
  datatype Strategy =
    | Rainbow | OldRainbow | Blackbody | Grayscale | OrangeBlackLime
    | Darkhue | Lighthue | Don | RedTint | OrangeTint | YellowTint
    | GreenTint | CyanTint | BlueTint | PurpleTint | Turbo | Magma
    | Inferno | Plasma | Viridis | Cividis | BPSeismic | MixedRainbow
    | MixedGrayScale | PinkWhiteBlue

  /** `colorMapFactoryMap`: the registered names. */
  const FactoryMap: map<string, Strategy> := map[
    "Rainbow" := Rainbow,
    "Old Rainbow" := OldRainbow,
    "Blackbody" := Blackbody,
    "Grayscale" := Grayscale,
    "Orange,Black,Lime" := OrangeBlackLime,
    "Darkhue" := Darkhue,
    "Lighthue" := Lighthue,
    "Don" := Don,
    "Red Tint" := RedTint,
    "Orange Tint" := OrangeTint,
    "Yellow Tint" := YellowTint,
    "Green Tint" := GreenTint,
    "Cyan Tint" := CyanTint,
    "Blue Tint" := BlueTint,
    "Purple Tint" := PurpleTint,
    "Turbo" := Turbo,
    "Magma" := Magma,
    "Inferno" := Inferno,
    "Plasma" := Plasma,
    "Viridis" := Viridis,
    "Cividis" := Cividis,
    "BP Seismic" := BPSeismic,
    "Mixed Rainbow" := MixedRainbow,
    "Mixed GrayScale" := MixedGrayScale,
    "Pink,White,Blue" := PinkWhiteBlue
  ]

  /** A colour map: its strategy and the parameters it was created with. */
  datatype ColorMap = ColorMap(
    strategy: Strategy,
    name: string,
    resolution: nat,
    shift: real,
    invert: bool,
    rescaleScale: real,
    rescaleShift: real,
    alphaPoints: seq<real>)

  /** `StandardColorMapFactory::create`: a registered name gets its own
      strategy, any other name the Rainbow strategy; the map keeps the
      caller's name and parameters either way, and the getters return them. */
  function Create(name: string, resolution: nat, shift: real, invert: bool,
                  rescaleScale: real, rescaleShift: real, alphaPoints: seq<real>): (c: ColorMap)
    ensures name in FactoryMap ==> c.strategy == FactoryMap[name]
    ensures name !in FactoryMap ==> c.strategy == Rainbow
    ensures c.name == name && c.resolution == resolution && c.shift == shift
    ensures c.invert == invert && c.rescaleScale == rescaleScale
    ensures c.rescaleShift == rescaleShift && c.alphaPoints == alphaPoints
  {
    var strategy := if name in FactoryMap then FactoryMap[name] else Rainbow;
    ColorMap(strategy, name, resolution, shift, invert, rescaleScale, rescaleShift, alphaPoints)
  }

  /** `StandardColorMapFactory::getList`: the factory map's keys in its
      iteration order, ascending by `std::string` comparison, each of the 25
      registered names once. */
  function GetList(): (names: seq<string>)
    ensures StringOrder.StrictlyAscending(names)
    ensures forall x :: x in names <==> x in FactoryMap
    ensures |names| == |FactoryMap|
  {
    StringOrder.SortedKeys(FactoryMap.Keys)
  }

  // ---------------------------------------------------------------------
  // getTransformedValue

  /** `std::min(std::max(0., x), 1.)`. */
  function Clamp01(x: real): (r: real)
    ensures 0.0 <= r <= 1.0
    ensures 0.0 <= x <= 1.0 ==> r == x
    ensures x < 0.0 ==> r == 0.0
    ensures 1.0 < x ==> r == 1.0
  {
    var lower := if 0.0 < x then x else 0.0;
    if lower < 1.0 then lower else 1.0
  }

  /** The data value rescaled by a data range (`shift`, `scale`) and clamped
      to [0, 1]. */
  function Rescaled01(shift: real, scale: real, f: real): (v: real)
    ensures 0.0 <= v <= 1.0
  {
    Clamp01((f + shift) * scale)
  }

  /** The value after rescaling, the first clamp and the optional inversion,
      paired with the shift the gamma step then uses. */
  function Normalized(c: ColorMap, f: real): (r: (real, real))
    ensures 0.0 <= r.0 <= 1.0
    ensures var v := Rescaled01(c.rescaleShift, c.rescaleScale, f);
      if c.invert then r == (1.0 - v, -c.shift) else r == (v, c.shift)
  {
    var v := Rescaled01(c.rescaleShift, c.rescaleScale, f);
    if c.invert then (1.0 - v, -c.shift) else (v, c.shift)
  }

  /** Inverting the map mirrors the normalised value and negates the shift. */
  lemma InvertMirrors(c: ColorMap, f: real)
    ensures Normalized(c.(invert := true), f).0 == 1.0 - Normalized(c.(invert := false), f).0
    ensures Normalized(c.(invert := true), f).1 == -Normalized(c.(invert := false), f).1
  {
  }

  /** `getTransformedValue`: the resolution quantisation and the tan/pow gamma
      are the parameter `gamma` (value, shift, resolution); whatever it
      produces, the final clamp keeps the result in [0, 1]. */
  function TransformedValue(c: ColorMap, f: real, gamma: (real, real, nat) -> real): (r: real)
    ensures 0.0 <= r <= 1.0
    ensures var (v, shift) := Normalized(c, f);
      0.0 <= gamma(v, shift, c.resolution) <= 1.0 ==> r == gamma(v, shift, c.resolution)
  {
    var (v, shift) := Normalized(c, f);
    Clamp01(gamma(v, shift, c.resolution))
  }

  // ---------------------------------------------------------------------
  // alpha

  /** The control list is pairs (x, y); `i` is the index of an x. */
  predicate EvenLength(p: seq<real>)
  {
    |p| % 2 == 0
  }

  /** The x's of the control list strictly increase. */
  predicate StrictlyIncreasingX(p: seq<real>)
  {
    forall a, b :: 0 <= a < b < |p| && a % 2 == 0 && b % 2 == 0 ==> p[a] < p[b]
  }

  /** The search loop of `alpha`: the first x index from `i` on whose x is
      not below `t`, or the list length. */
  function SegmentEnd(p: seq<real>, t: real, i: nat): (r: nat)
    requires EvenLength(p) && i % 2 == 0 && i <= |p|
    ensures i <= r <= |p| && r % 2 == 0
    ensures r < |p| ==> t <= p[r]
    ensures forall k :: i <= k < r && k % 2 == 0 ==> p[k] < t
    decreases |p| - i
  {
    if i < |p| && p[i] < t then SegmentEnd(p, t, i + 2) else i
  }

  /** With increasing x's the loop stops at the first control point at or
      after `t`. */
  lemma {:induction false} SegmentEndLocates(p: seq<real>, t: real, k: nat)
    requires EvenLength(p) && StrictlyIncreasingX(p)
    requires k % 2 == 0 && k < |p| && t <= p[k]
    requires k == 0 || p[k - 2] < t
    ensures SegmentEnd(p, t, 0) == k
  {
    var r := SegmentEnd(p, t, 0);
    if r < k {
      assert false;
    } else if r > k {
      assert false;
    }
  }

  /** The line through (x0, y0) and (x1, y1) at `t`: the interpolation of
      `alpha`'s last two statements. */
  function Lerp(x0: real, y0: real, x1: real, y1: real, t: real): (r: real)
    requires x0 != x1
    ensures t == x0 ==> r == y0
    ensures t == x1 ==> r == y1
  {
    var d := x1 - x0;
    var interp := (t - x0) / d;
    assert t == x1 ==> interp == d / d;
    (1.0 - interp) * y0 + interp * y1
  }

  lemma LerpConstant(x0: real, x1: real, y: real, t: real)
    requires x0 != x1
    ensures Lerp(x0, y, x1, y, t) == y
  {
    var u := (t - x0) / (x1 - x0);
    assert (1.0 - u) * y + u * y == y;
  }

  lemma LerpSlope(x0: real, y0: real, x1: real, y1: real, t: real)
    requires x0 != x1
    ensures Lerp(x0, y0, x1, y1, t) == y0 + (t - x0) / (x1 - x0) * (y1 - y0)
    ensures t == x1 ==> Lerp(x0, y0, x1, y1, t) == y1
  {
    var u := (t - x0) / (x1 - x0);
    assert (1.0 - u) * y0 + u * y1 == y0 + u * (y1 - y0);
    if t == x1 {
      var d := x1 - x0;
      assert u == d / d;
    }
  }

  lemma LerpBetween(x0: real, y0: real, x1: real, y1: real, t: real, lo: real, hi: real)
    requires x0 < t <= x1
    requires lo <= y0 <= hi && lo <= y1 <= hi
    ensures lo <= Lerp(x0, y0, x1, y1, t) <= hi
  {
    var u := (t - x0) / (x1 - x0);
    DivisionInUnitInterval(t - x0, x1 - x0);
    ConvexCombination(y0, y1, u, lo, hi);
  }

  lemma DivisionInUnitInterval(a: real, b: real)
    requires 0.0 < a <= b
    ensures 0.0 < a / b <= 1.0
  {
  }

  /** `ColorMap::alpha` as written. `None` stands for the zero denominator
      of the final division (NaN in floating point), which the empty
      interpolation interval produces. */
  function AlphaAsWritten(p: seq<real>, t: real): (r: Option<real>)
    requires EvenLength(p)
    ensures |p| == 0 ==> r == Some(0.5)
    ensures |p| > 0 && r.None? ==> (t <= p[0] && p[0] == 0.0) || (1.0 < t && p[|p| - 2] == 1.0)
    ensures |p| > 0 && t <= p[0] && p[0] == 0.0 ==> r.None?
  {
    if |p| == 0 then Some(0.5)
    else
      var i := SegmentEnd(p, t, 0);
      var startx := if i == 0 then 0.0 else p[i - 2];
      var starty := if i == 0 then p[1] else p[i - 1];
      var endx := if i == |p| then 1.0 else p[i];
      var endy := if i == |p| then p[i - 1] else p[i + 1];
      if endx - startx == 0.0 then None
      else Some(Lerp(startx, starty, endx, endy, t))
  }

  /** The first control point at x = 0 and a transformed value of 0, which
      `getTransformedValue` produces for every datum at or below the bottom of
      the range of a non-inverted map, or at or above the top of an inverted
      one: the as-written interpolation divides 0 by 0. */
  lemma AlphaAsWrittenZeroDenominator()
    ensures AlphaAsWritten([0.0, 0.25], 0.0) == None
  {
    assert SegmentEnd([0.0, 0.25], 0.0, 0) == 0;
  }

  /** `ColorMap::alpha`, with the end segments returning their constant y
      instead of interpolating between two equal y's. Defined for every
      value and every even-length control list. */
  function Alpha(p: seq<real>, t: real): (r: real)
    requires EvenLength(p)
    ensures |p| == 0 ==> r == 0.5
    ensures |p| > 0 && t <= p[0] ==> r == p[1]
    ensures |p| > 0 && (forall k :: 0 <= k < |p| && k % 2 == 0 ==> p[k] < t) ==> r == p[|p| - 1]
  {
    if |p| == 0 then 0.5
    else
      var i := SegmentEnd(p, t, 0);
      if i == 0 then p[1]
      else if i == |p| then p[i - 1]
      else Lerp(p[i - 2], p[i - 1], p[i], p[i + 1], t)
  }

  /** Wherever the as-written `alpha` yields a number, the corrected one
      yields the same number. */
  lemma AlphaAgreesWhereDefined(p: seq<real>, t: real)
    requires EvenLength(p) && AlphaAsWritten(p, t).Some?
    ensures Alpha(p, t) == AlphaAsWritten(p, t).value
  {
    if |p| > 0 {
      var i := SegmentEnd(p, t, 0);
      if i == 0 {
        LerpConstant(0.0, p[0], p[1], t);
      } else if i == |p| {
        LerpConstant(p[i - 2], 1.0, p[i - 1], t);
      }
    }
  }

  /** Between two bracketing control points `alpha` interpolates linearly;
      at a control x it returns that point's y. */
  lemma AlphaInterpolates(p: seq<real>, t: real, k: nat)
    requires EvenLength(p) && StrictlyIncreasingX(p)
    requires 2 <= k < |p| && k % 2 == 0 && p[k - 2] < t <= p[k]
    ensures Alpha(p, t) ==
      p[k - 1] + (t - p[k - 2]) / (p[k] - p[k - 2]) * (p[k + 1] - p[k - 1])
    ensures t == p[k] ==> Alpha(p, t) == p[k + 1]
  {
    SegmentEndLocates(p, t, k);
    LerpSlope(p[k - 2], p[k - 1], p[k], p[k + 1], t);
  }

  /** At the first control x, alpha is the first control y: the constant
      the before-first-point branch sets up with `starty = endy`. */
  lemma AlphaAtFirstControlPoint(p: seq<real>)
    requires EvenLength(p) && |p| > 0
    ensures Alpha(p, p[0]) == p[1]
  {
  }

  /** `alpha` never leaves the range of the control y's. */
  lemma AlphaWithinControlRange(p: seq<real>, t: real, lo: real, hi: real)
    requires EvenLength(p) && |p| > 0
    requires forall k :: 0 <= k < |p| && k % 2 == 1 ==> lo <= p[k] <= hi
    ensures lo <= Alpha(p, t) <= hi
  {
    var i := SegmentEnd(p, t, 0);
    if 0 < i < |p| {
      LerpBetween(p[i - 2], p[i - 1], p[i], p[i + 1], t, lo, hi);
    }
  }

  /** A convex combination of two values in [lo, hi] stays in [lo, hi]. */
  lemma ConvexCombination(a: real, b: real, u: real, lo: real, hi: real)
    requires 0.0 <= u <= 1.0
    requires lo <= a <= hi && lo <= b <= hi
    ensures lo <= (1.0 - u) * a + u * b <= hi
    ensures lo <= a * (1.0 - u) + b * u <= hi
  {
    var r := (1.0 - u) * a + u * b;
    assert a * (1.0 - u) + b * u == r;
    if a <= b {
      ConvexOrdered(a, b, u, r);
    } else {
      ConvexOrdered(b, a, 1.0 - u, r);
    }
  }

  /** A convex combination `r` of `a <= b` lies in [a, b]. */
  lemma ConvexOrdered(a: real, b: real, u: real, r: real)
    requires 0.0 <= u <= 1.0 && a <= b
    requires r == (1.0 - u) * a + u * b
    ensures a <= r <= b
  {
    MulNonnegative(u, b - a);
    MulNonnegative(1.0 - u, b - a);
    assert r - a == u * (b - a);
    assert b - r == (1.0 - u) * (b - a);
  }

  lemma ScaleDown(u: real, d: real)
    requires 0.0 <= u <= 1.0 && 0.0 <= d
    ensures 0.0 <= u * d <= d
  {
    MulNonnegative(u, d);
    MulNonnegative(1.0 - u, d);
    assert d - u * d == (1.0 - u) * d;
  }

  lemma MulNonnegative(x: real, y: real)
    requires 0.0 <= x && 0.0 <= y
    ensures 0.0 <= x * y
  {
  }

  // ---------------------------------------------------------------------
  // Colour tables and the Rainbow strategy

  datatype RGB = RGB(r: real, g: real, b: real)

  /** `mix`: linear blend from `a` (c = 0) to `b` (c = 1). */
  function Mix(a: real, b: real, c: real): (r: real)
    ensures c == 0.0 ==> r == a
    ensures 0.0 <= c <= 1.0 && a <= b ==> a <= r <= b
    ensures 0.0 <= c <= 1.0 && b <= a ==> b <= r <= a
  {
    var r := a * (1.0 - c) + b * c;
    MixBounds(a, b, c, r);
    r
  }

  lemma MixBounds(a: real, b: real, c: real, r: real)
    requires r == a * (1.0 - c) + b * c
    ensures 0.0 <= c <= 1.0 && a <= b ==> a <= r <= b
    ensures 0.0 <= c <= 1.0 && b <= a ==> b <= r <= a
  {
    if 0.0 <= c <= 1.0 {
      ConvexCombination(a, b, c, if a <= b then a else b, if a <= b then b else a);
    }
  }

  /** The index `readColorFromArray` reads for `f` in a table of `n`
      entries: `int(f * (n - 1))`. */
  function TableIndex(n: nat, f: real): (index: nat)
    requires n > 0 && 0.0 <= f <= 1.0
    ensures index <= n - 1
    ensures index as real <= f * (n - 1) as real < index as real + 1.0
    ensures f == 0.0 ==> index == 0
    ensures f == 1.0 ==> index == n - 1
  {
    var m := f * (n - 1) as real;
    ScaleDown(f, (n - 1) as real);
    assert 0.0 <= m <= (n - 1) as real;
    m.Floor
  }

  /** `readColorFromArray`: blends the two table entries around `f`. */
  function ReadColorFromArray(v: seq<RGB>, f: real): (c: RGB)
    requires |v| > 0 && 0.0 <= f <= 1.0
    ensures f == 0.0 ==> c == v[0]
    ensures f == 1.0 ==> c == v[|v| - 1]
    ensures var i := TableIndex(|v|, f);
      var j := if i + 1 < |v| - 1 then i + 1 else |v| - 1;
      Between(c, v[i], v[j])
  {
    var segments := |v| - 1;
    var index := TableIndex(|v|, f);
    var c0 := v[index];
    var c1 := v[if index + 1 < segments then index + 1 else segments];
    var m := f * segments as real - index as real;
    RGB(Mix(c0.r, c1.r, m), Mix(c0.g, c1.g, m), Mix(c0.b, c1.b, m))
  }

  /** Each channel of `c` lies between those of `a` and `b`. */
  predicate Between(c: RGB, a: RGB, b: RGB)
  {
    && (a.r <= c.r <= b.r || b.r <= c.r <= a.r)
    && (a.g <= c.g <= b.g || b.g <= c.g <= a.g)
    && (a.b <= c.b <= b.b || b.b <= c.b <= a.b)
  }

  /** Every channel in [0, 1]. */
  predicate InGamut(c: RGB)
  {
    0.0 <= c.r <= 1.0 && 0.0 <= c.g <= 1.0 && 0.0 <= c.b <= 1.0
  }

  /** `Rainbow::getColorMapVal`: blue, dark cyan, green, orange, red. */
  function RainbowColor(f: real): (c: RGB)
    ensures 0.0 <= f <= 1.0 ==> InGamut(c)
    ensures f == 0.0 ==> c == RGB(0.0, 0.0, 1.0)
    ensures f == 1.0 ==> c == RGB(1.0, 0.0, 0.0)
  {
    if f < 0.25 then RGB(0.0, f * 3.0, 1.0 - f)
    else if 0.25 <= f && f < 0.5 then RGB(0.0, f + 0.5, 1.5 - f * 3.0)
    else if 0.5 <= f && f < 0.75 then RGB(4.0 * f - 2.0, 2.0 - 2.0 * f, 0.0)
    else RGB(1.0, 2.0 - 2.0 * f, 0.0)
  }

  /** The four Rainbow pieces meet at their breakpoints, so the map has no
      jumps: approaching 0.25, 0.5 and 0.75 from below gives the colour at
      the breakpoint. */
  lemma RainbowContinuousAtBreakpoints()
    ensures RGB(0.0, 0.25 * 3.0, 1.0 - 0.25) == RainbowColor(0.25)
    ensures RGB(0.0, 0.5 + 0.5, 1.5 - 0.5 * 3.0) == RainbowColor(0.5)
    ensures RGB(4.0 * 0.75 - 2.0, 2.0 - 2.0 * 0.75, 0.0) == RainbowColor(0.75)
  {
  }

  // ---------------------------------------------------------------------
  // ColorMap_OSP_helper

  /** The names the helper has a list for. */
  predicate IsOspName(name: string)
  {
    name in {"Rainbow", "Old Rainbow", "Blackbody", "Grayscale", "Orange,Black,Lime", "Darkhue", "BP Seismic"}
  }

  datatype OspLists = OspLists(opacities: seq<real>, colors: seq<real>)

  /** The RGB triples of a few maps, for the OSPRay renderer. */
  function OspHelper(name: string): (r: OspLists)
    ensures r.opacities == [0.5, 0.5]
    ensures |r.colors| % 3 == 0
    ensures forall k :: 0 <= k < |r.colors| ==> 0.0 <= r.colors[k] <= 1.0
    ensures name == "Rainbow" || name == "Old Rainbow" || name == "Darkhue" ==> |r.colors| == 15
    ensures name == "Blackbody" ==> |r.colors| == 12
    ensures name == "Orange,Black,Lime" || name == "BP Seismic" ==> |r.colors| == 9
    ensures name == "Grayscale" ==> |r.colors| == 6
    ensures !IsOspName(name) ==> r.colors == []
  {
    var colors: seq<real> :=
      if name == "Rainbow" then
        [0.0, 0.0, 1.0,  0.0, 0.75, 0.75,  0.0, 1.0, 0.0,  1.0, 0.5, 0.0,  1.0, 0.0, 0.0]
      else if name == "Old Rainbow" then
        [0.0, 0.0, 1.0,  0.0, 1.0, 1.0,  0.0, 1.0, 0.0,  1.0, 1.0, 0.0,  1.0, 0.0, 0.0]
      else if name == "Blackbody" then
        [0.0, 0.0, 0.0,  1.0, 0.0, 0.0,  1.0, 1.0, 0.0,  1.0, 1.0, 1.0]
      else if name == "Grayscale" then
        [0.0, 0.0, 0.0,  1.0, 1.0, 1.0]
      else if name == "Orange,Black,Lime" then
        [1.0, 0.5, 0.0,  0.0, 0.0, 0.0,  0.0, 1.0, 0.0]
      else if name == "Darkhue" then
        [0.0, 0.0, 0.0,  0.0, 0.0, 0.333333,  0.5, 0.0, 0.5,  1.0, 0.0, 0.0,  1.0, 0.0, 0.25 * 2.6666666]
      else if name == "BP Seismic" then
        [0.0, 0.0, 1.0,  1.0, 1.0, 1.0,  1.0, 0.0, 0.0]
      else [];
    OspLists([0.5, 0.5], colors)
  }

  /** The OSPRay Rainbow list samples the Rainbow strategy at 0, 1/4, 1/2,
      3/4 and 1. */
  lemma OspRainbowSamplesRainbow()
    ensures var s := [RainbowColor(0.0), RainbowColor(0.25), RainbowColor(0.5),
                      RainbowColor(0.75), RainbowColor(1.0)];
      OspHelper("Rainbow").colors ==
        [s[0].r, s[0].g, s[0].b, s[1].r, s[1].g, s[1].b, s[2].r, s[2].g, s[2].b,
         s[3].r, s[3].g, s[3].b, s[4].r, s[4].g, s[4].b]
  {
  }
}
