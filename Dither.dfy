/**
 * The per-pixel decision of the Playdate frame converter: an 8x8 ordered-dither
 * threshold table tiled over the frame, the dithered intensity of a luma value
 * against one table cell, and the fixed cut-off that decides the output bit.
 */
module Dither {

  import opened Arithmetic

  /** An 8-bit unsigned value (C `Uint8` / `uint8_t`). */
  type Byte = b: int | 0 <= b < 256

  /** The 8x8 threshold table, indexed `[y % 8][x % 8]`. */
  const DitherMap: seq<seq<int>> := [
    [ 1, 49, 13, 61,  4, 52, 16, 64],
    [33, 17, 45, 29, 36, 20, 48, 32],
    [ 9, 57,  5, 53, 12, 60,  8, 56],
    [41, 25, 37, 21, 44, 28, 40, 24],
    [ 3, 51, 15, 63,  2, 50, 14, 62],
    [25, 19, 47, 31, 34, 18, 46, 30],
    [11, 59,  7, 55, 10, 58,  6, 54],
    [43, 27, 39, 23, 42, 26, 38, 22]
  ]

  /** The dithered intensity must reach this value for the bit to be set. */
  const Cutoff: int := 172

  /** The divisor of the dither term. */
  const Divisor: int := 63

  /** Every cell of the table lies in [1,64]. */
  lemma MapInRange(i: nat, j: nat)
    requires i < 8 && j < 8
    ensures |DitherMap| == 8 && |DitherMap[i]| == 8
    ensures 1 <= DitherMap[i][j] <= 64
  {
    var row := DitherMap[i];
    assert |row| == 8;
    if j == 0 { } else if j == 1 { } else if j == 2 { } else if j == 3 { }
    else if j == 4 { } else if j == 5 { } else if j == 6 { } else { }
  }

  /** The threshold the table tiles onto pixel (x, y). */
  function Threshold(x: nat, y: nat): (t: int)
    ensures 1 <= t <= 64
  {
    MapInRange(y % 8, x % 8);
    DitherMap[y % 8][x % 8]
  }

  /** The dithered intensity `L + L*T/63` in C integer arithmetic (all operands are non-negative). */
  function Intensity(l: Byte, t: int): (v: int)
    requires 1 <= t <= 64
    ensures v >= l
  {
    l + l * t / Divisor
  }

  /** The decision for luma `l` against threshold `t`: is the bit set? */
  predicate BitSet(l: Byte, t: int)
    requires 1 <= t <= 64
  {
    Intensity(l, t) >= Cutoff
  }

  /** The decision for a pixel of luma `l` at (x, y). */
  predicate Decide(l: Byte, x: nat, y: nat)
  {
    BitSet(l, Threshold(x, y))
  }

  /** The smallest luma that sets the bit against threshold `t`: ceil(172*63 / (63 + t)). */
  function LumaThreshold(t: int): int
    requires 1 <= t <= 64
  {
    (Cutoff * Divisor + Divisor + t - 1) / (Divisor + t)
  }

  /**
   * The intensity lies in [L, L + L*64/63]; at most 514, so it fits easily in a C `int`.
   */
  lemma IntensityBounds(l: Byte, t: int)
    requires 1 <= t <= 64
    ensures l <= Intensity(l, t) <= l + l * 64 / Divisor <= 514
  {
    assert 0 <= l * t <= l * 64;
    DivMonotone(l * t, l * 64, Divisor);
    DivMonotone(l * 64, 255 * 64, Divisor);
  }

  /** The intensity is the single quotient `L*(63+T)/63`. */
  lemma IntensityAsQuotient(l: Byte, t: int)
    requires 1 <= t <= 64
    ensures Intensity(l, t) == l * (Divisor + t) / Divisor
  {
    assert l * (Divisor + t) == Divisor * l + l * t;
    DivAddMultiple(l, l * t, Divisor);
  }

  /**
   * The decision is a plain luma threshold: the bit is set exactly when
   * L >= LumaThreshold(T).
   */
  lemma DecisionThreshold(l: Byte, t: int)
    requires 1 <= t <= 64
    ensures BitSet(l, t) <==> l >= LumaThreshold(t)
  {
    var d := Divisor + t;
    IntensityAsQuotient(l, t);
    MulLeIffLeDiv(Cutoff, l * d, Divisor);
    assert l * d == d * l;
    CeilDivIff(l, Cutoff * Divisor, d);
  }

  /** The decision is monotone: more luma or a larger threshold never clears a set bit. */
  lemma DecisionMonotone(l1: Byte, l2: Byte, t1: int, t2: int)
    requires l1 <= l2 && 1 <= t1 <= t2 <= 64
    ensures BitSet(l1, t1) ==> BitSet(l2, t2)
  {
    assert l1 * t1 <= l2 * t1 <= l2 * t2;
    DivMonotone(l1 * t1, l2 * t2, Divisor);
  }

  /**
   * Whatever the table cell: a luma of at most 85 always clears the bit and a
   * luma of at least 170 always sets it. The inclusive cut-off shows at the
   * boundary: L = 170 against T = 1 gives exactly 172 and sets the bit,
   * L = 169 gives 171 and clears it.
   */
  lemma DarkClearsBrightSets(l: Byte, t: int)
    requires 1 <= t <= 64
    ensures l <= 85 ==> !BitSet(l, t)
    ensures l >= 170 ==> BitSet(l, t)
    ensures Intensity(170, 1) == 172 && BitSet(170, 1)
    ensures Intensity(169, 1) == 171 && !BitSet(169, 1)
  {
    DecisionThreshold(l, t);
    ThresholdRange(t);
  }

  /**
   * LumaThreshold(T) lies in [86,170] over the table's range [1,64]; both ends
   * are reached, by the cells holding 64 and 1.
   */
  lemma ThresholdRange(t: int)
    requires 1 <= t <= 64
    ensures 86 <= LumaThreshold(t) <= 170
    ensures LumaThreshold(64) == 86 && LumaThreshold(1) == 170
  {
    var n := Cutoff * Divisor + Divisor + t - 1;
    var d := Divisor + t;
    assert d * 86 <= n;
    MulLeIffLeDiv(86, n, d);
    assert d * 171 > n;
    MulLeIffLeDiv(171, n, d);
  }

  /** The decision depends only on luma and (x mod 8, y mod 8): the table tiles with period 8. */
  lemma DecisionPeriodic(l: Byte, x: nat, y: nat, i: nat, j: nat)
    ensures Decide(l, x, y) == Decide(l, x + 8 * i, y + 8 * j)
  {
    assert (x + 8 * i) % 8 == x % 8;
    assert (y + 8 * j) % 8 == y % 8;
  }

  /**
   * A mid-gray luma of 128 sets exactly the cells whose threshold is at least 22,
   * so a uniform gray area becomes a halftone with both set and cleared pixels in
   * every 8x8 tile (pixel (1,0) is set, pixel (0,0) is cleared).
   */
  lemma GrayHalftone(t: int)
    requires 1 <= t <= 64
    ensures BitSet(128, t) <==> t >= 22
    ensures Decide(128, 1, 0) && !Decide(128, 0, 0)
  {
    DecisionThreshold(128, t);
    var d := Divisor + t;
    var n := Cutoff * Divisor - 1;
    MulLeIffLeDiv(128, n + d, d);
    assert (n + d) / d == LumaThreshold(t);
  }
}
