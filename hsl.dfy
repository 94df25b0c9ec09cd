/**
 * HSL (hsl.cpp): a colour as hue in degrees and saturation and luminance
 * in percent, built by a range-controlling constructor, and the table of
 * named colours that HSL::fromRGB answers before its floating-point path.
 *
 * A field the constructor leaves unassigned is None: its value is treated
 * as indeterminate.
 */
module HslColors {
  import opened Colors

  datatype Option<T> = None | Some(value: T)

  /** The three fields of an HSL. */
  datatype Hsl = Hsl(hue: Option<int>, saturation: Option<int>, luminance: Option<int>)

  /** C++'s / on int: the quotient truncated toward zero. */
  function TruncQuot(a: int, b: int): int
    requires b > 0
  {
    if a >= 0 then a / b else -((-a) / b)
  }

  /**
   * C++'s % on int: the remainder truncated toward zero, with the dividend's
   * sign, so that (a / b) * b + a % b == a.
   */
  function TruncRem(a: int, b: int): (r: int)
    requires b > 0
    ensures a == b * TruncQuot(a, b) + r
    ensures -b < r < b
    ensures a >= 0 ==> r >= 0
    ensures a <= 0 ==> r <= 0
  {
    if a >= 0 then a % b else -((-a) % b)
  }

  /**
   * The range control of HSL(H, S, L) for hue and saturation, against
   * `bound` (360 or 100): a value in [0, bound] is kept, a larger one is
   * reduced modulo bound, one in (-bound, 0) is negated, one below -bound
   * is negated after the reduction; -bound matches no branch.
   */
  function Ranged(v: int, bound: int): (r: Option<int>)
    requires bound > 0
    ensures r.Some? <==> v != -bound
    ensures r.Some? ==> 0 <= r.value <= bound
    ensures 0 <= v <= bound ==> r == Some(v)
  {
    if v <= bound && v >= 0 then Some(v)
    else if v > bound then Some(TruncRem(v, bound))
    else if v < 0 && v > -bound then Some(-v)
    else if v < 0 && v < -bound then Some(-TruncRem(v, bound))
    else None
  }

  /**
   * The range control for luminance: the same tests, written as three
   * independent `if`s after the in-range case, each overwriting the field.
   */
  function RangedInSequence(v: int, bound: int): (r: Option<int>)
    requires bound > 0
  {
    if v <= bound && v >= 0 then Some(v)
    else
      var unassigned: Option<int> := None;
      var afterAbove := if v > bound then Some(TruncRem(v, bound)) else unassigned;
      var afterNegated := if v < 0 && v > -bound then Some(-v) else afterAbove;
      if v < 0 && v < -bound then Some(-TruncRem(v, bound)) else afterNegated
  }

  /** The three tests exclude each other, so the luminance scheme is the hue and saturation one. */
  lemma SequenceIsChain(v: int, bound: int)
    requires bound > 0
    ensures RangedInSequence(v, bound) == Ranged(v, bound)
  {
  }

  /** A controlled value is controlled again to itself. */
  lemma RangedIdempotent(v: int, bound: int)
    requires bound > 0 && v != -bound
    ensures Ranged(Ranged(v, bound).value, bound) == Ranged(v, bound)
  {
  }

  /** The whole turns range control adds: -(v / bound) above the range, -((-v) / bound) below it. */
  function Turns(v: int, bound: int): int
    requires bound > 0
  {
    if v > bound then -(v / bound) else if v < -bound then -((-v) / bound) else 0
  }

  /** An assigned value is v or -v plus whole multiples of the bound (full turns for hue). */
  lemma RangedCongruent(v: int, bound: int)
    requires bound > 0 && v != -bound
    ensures var r, k := Ranged(v, bound).value, Turns(v, bound);
      r == v + bound * k || r == -v + bound * k
  {
    if v > bound {
      assert v == bound * (v / bound) + v % bound;
    } else if v < -bound {
      assert -v == bound * ((-v) / bound) + (-v) % bound;
    }
  }

  /** HSL(H, S, L). */
  function Make(h: int, s: int, l: int): (c: Hsl)
    ensures c.hue == Ranged(h, 360) && c.saturation == Ranged(s, 100)
    ensures c.luminance == RangedInSequence(l, 100)
  {
    Hsl(Ranged(h, 360), Ranged(s, 100), RangedInSequence(l, 100))
  }

  /** HSL(): every field 0. */
  function Default(): (c: Hsl)
    ensures c.hue == Some(0) && c.saturation == Some(0) && c.luminance == Some(0)
  {
    Hsl(Some(0), Some(0), Some(0))
  }

  /**
   * HSL(H, S, L) assigns every field exactly when H is not -360 and S and
   * L are not -100; each assigned field is in range, hue within [0, 360]
   * and the others within [0, 100].
   */
  lemma MakeAssigned(h: int, s: int, l: int)
    ensures var c := Make(h, s, l);
      (c.hue.Some? && c.saturation.Some? && c.luminance.Some? <==> h != -360 && s != -100 && l != -100) &&
      (c.hue.Some? ==> 0 <= c.hue.value <= 360) &&
      (c.saturation.Some? ==> 0 <= c.saturation.value <= 100) &&
      (c.luminance.Some? ==> 0 <= c.luminance.value <= 100)
  {
    SequenceIsChain(l, 100);
  }

  /** Values already in range are stored as given; the default constructor is HSL(0, 0, 0). */
  lemma MakeKeepsInRange(h: int, s: int, l: int)
    requires 0 <= h <= 360 && 0 <= s <= 100 && 0 <= l <= 100
    ensures Make(h, s, l) == Hsl(Some(h), Some(s), Some(l))
    ensures Default() == Make(0, 0, 0)
  {
  }

  /** Hue beyond a full turn in either direction lands in [0, 360). */
  lemma HueWrapsBelowFullTurn(h: int)
    requires h > 360 || h < -360
    ensures Make(h, 0, 0).hue.Some? && Make(h, 0, 0).hue.value < 360
  {
  }

  // ---------------------------------------------------------------------
  // The named-colour table of HSL::fromRGB
  // ---------------------------------------------------------------------

  /**
   * The early returns of fromRGB as written: white, black, red, yellow,
   * green, cyan, blue, then cyan again for (300, 100, 50). None: the colour
   * is not in the table and fromRGB goes on to its floating-point path.
   */
  function TableAsWritten(c: Rgba): (r: Option<Hsl>)
    ensures r.Some? ==> c.a == 255
    ensures r.Some? <==> c in {White, Black, Red, Yellow, Green, Cyan, Blue}
  {
    if c == White then Some(Make(0, 0, 100))
    else if c == Black then Some(Make(0, 0, 0))
    else if c == Red then Some(Make(0, 100, 50))
    else if c == Yellow then Some(Make(60, 100, 50))
    else if c == Green then Some(Make(120, 100, 50))
    else if c == Cyan then Some(Make(180, 100, 50))
    else if c == Blue then Some(Make(240, 100, 50))
    else if c == Cyan then Some(Make(300, 100, 50))
    else None
  }

  /**
   * The last entry repeats the cyan test, so (300, 100, 50) is never
   * returned, and magenta is left to the floating-point path.
   */
  lemma TableAsWrittenMissesMagenta(c: Rgba)
    ensures TableAsWritten(c) != Some(Make(300, 100, 50))
    ensures TableAsWritten(Magenta) == None
  {
  }

  /** The table with its last entry testing magenta. */
  function Table(c: Rgba): (r: Option<Hsl>)
    ensures r.Some? ==> c.a == 255
    ensures r.Some? <==> c in {White, Black, Red, Yellow, Green, Cyan, Blue, Magenta}
  {
    if c == White then Some(Make(0, 0, 100))
    else if c == Black then Some(Make(0, 0, 0))
    else if c == Red then Some(Make(0, 100, 50))
    else if c == Yellow then Some(Make(60, 100, 50))
    else if c == Green then Some(Make(120, 100, 50))
    else if c == Cyan then Some(Make(180, 100, 50))
    else if c == Blue then Some(Make(240, 100, 50))
    else if c == Magenta then Some(Make(300, 100, 50))
    else None
  }

  /** The corrected table agrees with the one as written wherever that one answers. */
  lemma TableExtendsAsWritten(c: Rgba)
    ensures TableAsWritten(c).Some? ==> Table(c) == TableAsWritten(c)
    ensures Table(c) != TableAsWritten(c) <==> c == Magenta
  {
  }

  /** The largest and smallest of three channels, scaled to [0, 1]. */
  function Max3(a: real, b: real, c: real): real {
    if a >= b && a >= c then a else if b >= c then b else c
  }

  function Min3(a: real, b: real, c: real): real {
    if a <= b && a <= c then a else if b <= c then b else c
  }

  /**
   * The textbook RGB to HSL conversion on exact reals, as (hue in degrees,
   * saturation in percent, luminance in percent).
   */
  function Reference(c: Rgba): (h: (real, real, real))
  {
    ReferenceScaled(c.r as real / 255.0, c.g as real / 255.0, c.b as real / 255.0)
  }

  /** The conversion for channels already scaled to [0, 1]. */
  function ReferenceScaled(r: real, g: real, b: real): (h: (real, real, real))
    requires 0.0 <= r <= 1.0 && 0.0 <= g <= 1.0 && 0.0 <= b <= 1.0
  {
    var mx, mn := Max3(r, g, b), Min3(r, g, b);
    var l := (mx + mn) / 2.0;
    if mx == mn then (0.0, 0.0, l * 100.0)
    else
      var d := mx - mn;
      var s := if l <= 0.5 then d / (mx + mn) else d / (2.0 - mx - mn);
      var sector :=
        if mx == r then (g - b) / d + (if g < b then 6.0 else 0.0)
        else if mx == g then (b - r) / d + 2.0
        else (r - g) / d + 4.0;
      (sector * 60.0, s * 100.0, l * 100.0)
  }

  /** An HSL whose three fields are assigned, as reals. */
  function AsReals(c: Hsl): (real, real, real)
    requires c.hue.Some? && c.saturation.Some? && c.luminance.Some?
  {
    (c.hue.value as real, c.saturation.value as real, c.luminance.value as real)
  }

  /** Every entry of the corrected table is what the textbook conversion gives. */
  lemma TableMatchesReference(c: Rgba)
    requires Table(c).Some?
    ensures var t := Table(c).value;
      t.hue.Some? && t.saturation.Some? && t.luminance.Some? && AsReals(t) == Reference(c)
  {
    if c == White {
      assert Reference(c) == ReferenceScaled(1.0, 1.0, 1.0);
      assert ReferenceScaled(1.0, 1.0, 1.0) == (0.0, 0.0, 100.0);
    } else if c == Black {
      assert Reference(c) == ReferenceScaled(0.0, 0.0, 0.0);
      assert ReferenceScaled(0.0, 0.0, 0.0) == (0.0, 0.0, 0.0);
    } else if c == Red {
      assert Reference(c) == ReferenceScaled(1.0, 0.0, 0.0);
      assert ReferenceScaled(1.0, 0.0, 0.0) == (0.0, 100.0, 50.0);
    } else if c == Yellow {
      assert Reference(c) == ReferenceScaled(1.0, 1.0, 0.0);
      assert ReferenceScaled(1.0, 1.0, 0.0) == (60.0, 100.0, 50.0);
    } else if c == Green {
      assert Reference(c) == ReferenceScaled(0.0, 1.0, 0.0);
      assert ReferenceScaled(0.0, 1.0, 0.0) == (120.0, 100.0, 50.0);
    } else if c == Cyan {
      assert Reference(c) == ReferenceScaled(0.0, 1.0, 1.0);
      assert ReferenceScaled(0.0, 1.0, 1.0) == (180.0, 100.0, 50.0);
    } else if c == Blue {
      assert Reference(c) == ReferenceScaled(0.0, 0.0, 1.0);
      assert ReferenceScaled(0.0, 0.0, 1.0) == (240.0, 100.0, 50.0);
    } else {
      assert Reference(c) == ReferenceScaled(1.0, 0.0, 1.0);
      assert ReferenceScaled(1.0, 0.0, 1.0) == (300.0, 100.0, 50.0);
    }
  }
}
