/**
 * piece.js `generateRandomColors`: clamped saturation and brightness ranges, then `count`
 * HSB colours, each from three `cusrand` draws (hue, saturation, brightness, in that order).
 */
module Palette {
  import opened RandomDraw

  /** The HSB triple the source hands to p5's `color("hsb(h, s%, b%)")`. */
  datatype Hsb = Hsb(hue: int, sat: int, bri: int)

  /** An inclusive integer range [lo, hi]. */
  datatype Range = Range(lo: int, hi: int) {
    predicate Contains(x: int) {
      lo <= x <= hi
    }
  }

  function Max(a: int, b: int): int {
    if a < b then b else a
  }

  function Min(a: int, b: int): int {
    if a < b then a else b
  }

  /**
   * `[Math.max(0, value - offset), value]`, the range of `satMin`/`satMax` and of
   * `briMin`/`briMax`: it never reaches below zero, ends at the slider value and, for
   * non-negative inputs, is non-empty and spans `Min(offset, value)`.
   */
  function JitterRange(value: int, offset: int): (r: Range)
    ensures 0 <= r.lo && r.hi == value
    ensures 0 <= value && 0 <= offset ==> r.lo <= r.hi && r.hi - r.lo == Min(offset, value)
  {
    Range(Max(0, value - offset), value)
  }

  /** The hue range: `cusrand(0, 360)` can return 360, so both ends are included. */
  const HueRange: Range := Range(0, 360)

  /** `Array.from({ length: count })`: a negative length becomes 0. */
  function ArrayLength(count: int): (length: nat)
    ensures length == 0 <==> count <= 0
    ensures count >= 0 ==> length == count
  {
    if count < 0 then 0 else count
  }

  /** One colour of the palette from its three draws. */
  function RandomColor(satRange: Range, briRange: Range, dHue: real, dSat: real, dBri: real): Hsb {
    Hsb(Draw(HueRange.lo, HueRange.hi, dHue),
        Draw(satRange.lo, satRange.hi, dSat),
        Draw(briRange.lo, briRange.hi, dBri))
  }

  predicate InRanges(c: Hsb, satRange: Range, briRange: Range) {
    HueRange.Contains(c.hue) && satRange.Contains(c.sat) && briRange.Contains(c.bri)
  }

  /**
   * piece.js `generateRandomColors(count, satValue, briValue, randOffset)`; colour `i` uses
   * draws `3i`, `3i+1` and `3i+2` of the stream.
   */
  function GenerateRandomColors(count: int, satValue: int, briValue: int, randOffset: int, draws: seq<real>)
    : (colors: seq<Hsb>)
    requires |draws| >= 3 * ArrayLength(count)
    ensures |colors| == ArrayLength(count)
  {
    var satRange := JitterRange(satValue, randOffset);
    var briRange := JitterRange(briValue, randOffset);
    seq(ArrayLength(count), i requires 0 <= i < ArrayLength(count) =>
      RandomColor(satRange, briRange, draws[3 * i], draws[3 * i + 1], draws[3 * i + 2]))
  }

  /**
   * With non-negative slider values and genuine draws, every generated colour has its hue in
   * [0, 360], its saturation in [satMin, satMax] and its brightness in [briMin, briMax].
   */
  lemma ColorsInRanges(count: int, satValue: int, briValue: int, randOffset: int, draws: seq<real>)
    requires 0 <= satValue && 0 <= briValue && 0 <= randOffset
    requires |draws| >= 3 * ArrayLength(count) && AllUnitDraws(draws)
    ensures var colors := GenerateRandomColors(count, satValue, briValue, randOffset, draws);
      forall i :: 0 <= i < |colors| ==>
        InRanges(colors[i], JitterRange(satValue, randOffset), JitterRange(briValue, randOffset))
  {
  }

  /** A draw stream that makes the generator produce `target`, three draws per colour. */
  function DrawsFor(target: seq<Hsb>, satRange: Range, briRange: Range): (draws: seq<real>)
    requires forall i :: 0 <= i < |target| ==> InRanges(target[i], satRange, briRange)
    ensures |draws| == 3 * |target|
  {
    seq(3 * |target|, j requires 0 <= j < 3 * |target| =>
      assert j / 3 < |target|;
      var c := target[j / 3];
      assert InRanges(c, satRange, briRange);
      if j % 3 == 0 then UnitFor(HueRange.lo, HueRange.hi, c.hue)
      else if j % 3 == 1 then UnitFor(satRange.lo, satRange.hi, c.sat)
      else UnitFor(briRange.lo, briRange.hi, c.bri))
  }

  /**
   * Completeness of the sampling: every sequence of `count` colours inside the ranges is the
   * output of `generateRandomColors` for some stream of genuine draws.
   */
  lemma EveryPaletteReachable(count: int, satValue: int, briValue: int, randOffset: int, target: seq<Hsb>)
    requires |target| == ArrayLength(count)
    requires forall i :: 0 <= i < |target| ==>
      InRanges(target[i], JitterRange(satValue, randOffset), JitterRange(briValue, randOffset))
    ensures var draws := DrawsFor(target, JitterRange(satValue, randOffset), JitterRange(briValue, randOffset));
      AllUnitDraws(draws) && GenerateRandomColors(count, satValue, briValue, randOffset, draws) == target
  {
    var satRange := JitterRange(satValue, randOffset);
    var briRange := JitterRange(briValue, randOffset);
    var draws := DrawsFor(target, satRange, briRange);
    forall j | 0 <= j < |draws| ensures IsUnitDraw(draws[j]) {
      var c := target[j / 3];
      DrawReaches(HueRange.lo, HueRange.hi, c.hue);
      DrawReaches(satRange.lo, satRange.hi, c.sat);
      DrawReaches(briRange.lo, briRange.hi, c.bri);
    }
    var colors := GenerateRandomColors(count, satValue, briValue, randOffset, draws);
    forall i | 0 <= i < |target| ensures colors[i] == target[i] {
      var c := target[i];
      assert (3 * i) / 3 == i && (3 * i + 1) / 3 == i && (3 * i + 2) / 3 == i;
      assert (3 * i) % 3 == 0 && (3 * i + 1) % 3 == 1 && (3 * i + 2) % 3 == 2;
      DrawReaches(HueRange.lo, HueRange.hi, c.hue);
      DrawReaches(satRange.lo, satRange.hi, c.sat);
      DrawReaches(briRange.lo, briRange.hi, c.bri);
    }
  }
}
