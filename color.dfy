/**
 * Colour arithmetic of the graphical shell (boot/modules/guishell/color.c).
 *
 * A colour is four 8-bit channels. `color_blend` lays an upper colour over a lower one by the
 * upper colour's alpha; a brush resolves to a colour at a point: nothing (opaque black), a solid
 * colour, a horizontal gradient between two colours, or a checkerboard pattern of them.
 * Coordinates are `int`s whose differences are assumed not to overflow.
 */
module Color {
  import opened Common

  datatype Color = Color(a: Byte, r: Byte, g: Byte, b: Byte)

  datatype BrushType = NoBrush | Solid | Gradient | Pattern

  datatype Brush = Brush(kind: BrushType, primary: Color, secondary: Color)

  datatype Point = Point(x: int, y: int)

  function Min(a: int, b: int): int { if a < b then a else b }

  function Max(a: int, b: int): int { if a < b then b else a }

  /** C's `/` on integers: the quotient truncated toward zero. */
  function TruncDiv(a: int, b: int): (q: int)
    requires b != 0
    ensures (a >= 0) == (b > 0) || a == 0 ==> q >= 0
  {
    if (a >= 0) == (b > 0) then Abs(a) / Abs(b) else -(Abs(a) / Abs(b))
  }

  function Abs(a: int): nat { if a < 0 then -a else a }

  // ----- Blending one channel -----

  /**
   * One channel of a blend as the source computes it: each weighted term is divided by 255 on
   * its own before the two are added.
   */
  function Mix(lower: Byte, upper: Byte, alpha: int): (c: Byte)
    requires 0 <= alpha <= 255
  {
    MixRange(lower, upper, alpha);
    lower * (255 - alpha) / 255 + upper * alpha / 255
  }

  /** Rounding each term down may lose one unit, but never leaves the range of the two inputs. */
  lemma MixRange(lower: Byte, upper: Byte, alpha: int)
    requires 0 <= alpha <= 255
    ensures Min(lower, upper) - 1 <= lower * (255 - alpha) / 255 + upper * alpha / 255 <= Max(lower, upper)
    ensures 0 <= lower * (255 - alpha) / 255 && 0 <= upper * alpha / 255
  {
    var p, q := lower * (255 - alpha), upper * alpha;
    var lo, hi := Min(lower, upper), Max(lower, upper);
    TermNonNegative(lower, 255 - alpha);
    TermNonNegative(upper, alpha);
    WeightBounds(lower, 255 - alpha, lo, hi);
    WeightBounds(upper, alpha, lo, hi);
    FloorSum(p, q, 255);
    assert lo * 255 <= p + q <= hi * 255;
    DivBounds(p + q, lo, hi);
  }

  lemma TermNonNegative(v: Byte, w: nat)
    ensures 0 <= v * w / 255
  {
    WeightBounds(v, w, 0, 255);
  }

  lemma WeightBounds(v: int, w: nat, lo: int, hi: int)
    requires lo <= v <= hi
    ensures lo * w <= v * w <= hi * w
  {
  }

  /** The sum of two rounded-down quotients is the rounded-down sum, or one less. */
  lemma FloorSum(p: nat, q: nat, d: int)
    requires d > 0
    ensures (p + q) / d - 1 <= p / d + q / d <= (p + q) / d
  {
    var a, b := p / d, q / d;
    assert p == a * d + p % d && q == b * d + q % d;
    assert p + q == (a + b) * d + (p % d + q % d);
    DivWithRemainder(p + q, a + b, p % d + q % d, d);
  }

  lemma DivWithRemainder(n: int, k: int, rest: int, d: int)
    requires d > 0 && 0 <= rest < 2 * d && n == k * d + rest
    ensures k <= n / d <= k + 1
  {
    if rest < d {
      DivUnique(n, k, rest, d);
    } else {
      assert n == (k + 1) * d + (rest - d);
      DivUnique(n, k + 1, rest - d, d);
    }
  }

  /** Division is determined by a quotient and an in-range remainder. */
  lemma DivUnique(n: int, q: int, rest: int, d: int)
    requires d > 0 && 0 <= rest < d && n == q * d + rest
    ensures n / d == q
  {
    var q', r' := n / d, n % d;
    assert n == q' * d + r' && 0 <= r' < d;
    if q' < q {
      MulMono(q' + 1, q, d);
    } else if q < q' {
      MulMono(q + 1, q', d);
    }
  }

  lemma MulMono(a: int, b: int, d: nat)
    requires a <= b
    ensures a * d <= b * d
  {
  }

  lemma DivBounds(n: int, lo: int, hi: int)
    requires lo * 255 <= n <= hi * 255
    ensures lo <= n / 255 <= hi
  {
  }

  /** One channel blended with a single rounding, as a weighted average. */
  function MixIntended(lower: Byte, upper: Byte, alpha: int): (c: Byte)
    requires 0 <= alpha <= 255
    ensures Min(lower, upper) <= c <= Max(lower, upper)
  {
    var lo, hi := Min(lower, upper), Max(lower, upper);
    WeightBounds(lower, 255 - alpha, lo, hi);
    WeightBounds(upper, alpha, lo, hi);
    DivBounds(lower * (255 - alpha) + upper * alpha, lo, hi);
    (lower * (255 - alpha) + upper * alpha) / 255
  }

  /** Blending a channel value with itself at half opacity loses one unit as written. */
  lemma MixDarkens()
    ensures Mix(100, 100, 128) == 99
    ensures MixIntended(100, 100, 128) == 100
  {
  }

  // ----- color_blend -----

  predicate SameRgb(c: Color, d: Color)
  {
    c.r == d.r && c.g == d.g && c.b == d.b
  }

  /** `color_blend`: `upper` laid over `lower`; the result's alpha is always 0. */
  function Blend(upper: Color, lower: Color): (c: Color)
    ensures c.a == 0
    ensures upper.a == 0 ==> SameRgb(c, lower)
    ensures upper.a == 255 ==> SameRgb(c, upper)
  {
    var alpha := upper.a;
    if alpha == 0 then lower.(a := 0)
    else if alpha == 255 then upper.(a := 0)
    else Color(0, Mix(lower.r, upper.r, alpha), Mix(lower.g, upper.g, alpha), Mix(lower.b, upper.b, alpha))
  }

  /** A channel no further than a unit below the range of the two inputs. */
  predicate NearlyBetween(v: int, x: int, y: int)
  {
    Min(x, y) - 1 <= v <= Max(x, y)
  }

  /** Every blended channel lies between the two inputs' channels, less at most one unit. */
  lemma BlendBetween(upper: Color, lower: Color)
    ensures var c := Blend(upper, lower);
      NearlyBetween(c.r, lower.r, upper.r) && NearlyBetween(c.g, lower.g, upper.g)
      && NearlyBetween(c.b, lower.b, upper.b)
  {
    var alpha := upper.a;
    if 0 < alpha < 255 {
      MixRange(lower.r, upper.r, alpha);
      MixRange(lower.g, upper.g, alpha);
      MixRange(lower.b, upper.b, alpha);
    }
  }

  /** `color_blend` with each channel rounded once. */
  function BlendIntended(upper: Color, lower: Color): (c: Color)
    ensures c.a == 0
    ensures Min(lower.r, upper.r) <= c.r <= Max(lower.r, upper.r)
    ensures Min(lower.g, upper.g) <= c.g <= Max(lower.g, upper.g)
    ensures Min(lower.b, upper.b) <= c.b <= Max(lower.b, upper.b)
    ensures upper.a == 0 ==> SameRgb(c, lower)
    ensures upper.a == 255 ==> SameRgb(c, upper)
  {
    var alpha := upper.a;
    Color(0, MixIntended(lower.r, upper.r, alpha), MixIntended(lower.g, upper.g, alpha),
      MixIntended(lower.b, upper.b, alpha))
  }

  // ----- Gradients -----

  /** The point of the closed interval between 0 and `denom` nearest to `numer`. */
  function Clamp(numer: int, denom: int): (n: int)
    ensures Min(0, denom) <= n <= Max(0, denom)
    ensures Min(0, denom) <= numer <= Max(0, denom) ==> n == numer
    ensures numer < Min(0, denom) ==> n == Min(0, denom)
    ensures numer > Max(0, denom) ==> n == Max(0, denom)
  {
    if (numer > 0 && denom < 0) || (numer < 0 && denom > 0) then 0
    else if (numer < 0 && numer < denom) || (numer > 0 && numer > denom) then denom
    else numer
  }

  /** `numer * 255 / denom` for a clamped numerator: a weight in [0, 255]. */
  function Weight(numer: int, denom: int): (alpha: int)
    requires denom != 0 && Min(0, denom) <= numer <= Max(0, denom)
    ensures 0 <= alpha <= 255
    ensures numer == 0 ==> alpha == 0
    ensures numer == denom ==> alpha == 255
  {
    WeightRange(Abs(numer), Abs(denom));
    assert Abs(numer * 255) == Abs(numer) * 255;
    TruncDiv(numer * 255, denom)
  }

  lemma WeightRange(n: nat, d: nat)
    requires 0 < d && n <= d
    ensures n * 255 / d <= 255
    ensures n == d ==> n * 255 / d == 255
  {
    if n == d {
      DivUnique(n * 255, 255, 0, d);
    } else {
      var q := n * 255 / d;
      assert n * 255 == q * d + (n * 255) % d;
      MulMono(n, d, 255);
      if q > 255 {
        MulMono(256, q, d);
      }
    }
  }

  /** `resolve_gradient`: every channel, alpha included, weighted `alpha` toward the primary. */
  function Interpolate(pri: Color, sec: Color, alpha: int): (c: Color)
    requires 0 <= alpha <= 255
    ensures alpha == 0 ==> c == sec
    ensures alpha == 255 ==> c == pri
  {
    MixEnds(sec.a, pri.a);
    MixEnds(sec.r, pri.r);
    MixEnds(sec.g, pri.g);
    MixEnds(sec.b, pri.b);
    Color(Mix(sec.a, pri.a, alpha), Mix(sec.r, pri.r, alpha), Mix(sec.g, pri.g, alpha), Mix(sec.b, pri.b, alpha))
  }

  /** At weight 0 a channel is the lower value; at weight 255 the upper. */
  lemma MixEnds(lower: Byte, upper: Byte)
    ensures Mix(lower, upper, 0) == lower && Mix(lower, upper, 255) == upper
  {
    assert lower * (255 - 0) == lower * 255 && upper * 0 == 0;
    assert lower * (255 - 255) == 0 && upper * 255 == upper * 255;
    MulDivCancel(lower);
    MulDivCancel(upper);
  }

  lemma MulDivCancel(v: Byte)
    ensures v * 255 / 255 == v
  {
    DivUnique(v * 255, v, 0, 255);
  }

  // ----- color_resolve_brush -----

  /** The gradient divides by `end.x - start.x`: a gradient brush needs distinct end points. */
  predicate BrushDefined(b: Brush, start: Point, end: Point)
  {
    b.kind.Gradient? ==> end.x != start.x
  }

  predicate Odd(n: int)
  {
    n % 2 == 1
  }

  /** `color_resolve_brush`. */
  function ResolveBrush(b: Brush, start: Point, end: Point, current: Point): (c: Color)
    requires BrushDefined(b, start, end)
    ensures b.kind.NoBrush? ==> c == Color(0xFF, 0, 0, 0)
    ensures b.kind.Solid? ==> c == b.primary
    ensures b.kind.Gradient? && current.x == start.x ==> c == b.secondary
    ensures b.kind.Gradient? && current.x == end.x ==> c == b.primary
    ensures b.kind.Pattern? ==> (c == b.primary || c == b.secondary)
  {
    match b.kind
    case NoBrush => Color(0xFF, 0, 0, 0)
    case Solid => b.primary
    case Gradient =>
      var denom := end.x - start.x;
      var numer := Clamp(current.x - start.x, denom);
      Interpolate(b.primary, b.secondary, Weight(numer, denom))
    case Pattern => if Odd(current.x + current.y) then b.primary else b.secondary
  }

  /** The pattern is a checkerboard: horizontal and vertical neighbours take opposite colours. */
  lemma PatternAlternates(b: Brush, start: Point, end: Point, x: int, y: int)
    requires b.kind.Pattern?
    ensures ResolveBrush(b, start, end, Point(x, y)) == (if Odd(x + y) then b.primary else b.secondary)
    ensures ResolveBrush(b, start, end, Point(x + 1, y)) == (if Odd(x + y) then b.secondary else b.primary)
    ensures ResolveBrush(b, start, end, Point(x, y + 1)) == (if Odd(x + y) then b.secondary else b.primary)
  {
  }

  /** Past either end point the gradient keeps the colour of that end. */
  lemma GradientClamped(b: Brush, start: Point, end: Point, current: Point)
    requires b.kind.Gradient? && BrushDefined(b, start, end)
    ensures start.x < end.x && current.x >= end.x ==> ResolveBrush(b, start, end, current) == b.primary
    ensures start.x < end.x && current.x <= start.x ==> ResolveBrush(b, start, end, current) == b.secondary
    ensures end.x < start.x && current.x <= end.x ==> ResolveBrush(b, start, end, current) == b.primary
    ensures end.x < start.x && current.x >= start.x ==> ResolveBrush(b, start, end, current) == b.secondary
  {
  }

  /** Every gradient channel lies between the two brush colours' channels, less at most one unit. */
  lemma GradientBetween(b: Brush, start: Point, end: Point, current: Point)
    requires b.kind.Gradient? && BrushDefined(b, start, end)
    ensures var c := ResolveBrush(b, start, end, current);
      NearlyBetween(c.a, b.secondary.a, b.primary.a) && NearlyBetween(c.r, b.secondary.r, b.primary.r)
      && NearlyBetween(c.g, b.secondary.g, b.primary.g) && NearlyBetween(c.b, b.secondary.b, b.primary.b)
  {
    var denom := end.x - start.x;
    InterpolateBetween(b.primary, b.secondary, Weight(Clamp(current.x - start.x, denom), denom));
  }

  lemma InterpolateBetween(pri: Color, sec: Color, alpha: int)
    requires 0 <= alpha <= 255
    ensures var c := Interpolate(pri, sec, alpha);
      NearlyBetween(c.a, sec.a, pri.a) && NearlyBetween(c.r, sec.r, pri.r)
      && NearlyBetween(c.g, sec.g, pri.g) && NearlyBetween(c.b, sec.b, pri.b)
  {
    MixRange(sec.a, pri.a, alpha);
    MixRange(sec.r, pri.r, alpha);
    MixRange(sec.g, pri.g, alpha);
    MixRange(sec.b, pri.b, alpha);
  }

  /** `draw_line` resolves the brush at every point of a vertical line with its own end points. */
  lemma VerticalGradientUndefined(b: Brush, p0: Point, p1: Point)
    requires b.kind.Gradient? && p0.x == p1.x
    ensures !BrushDefined(b, p0, p1)
  {
  }

  /** `color_resolve_brush` with a zero-width gradient taking the colour of its start. */
  function ResolveBrushChecked(b: Brush, start: Point, end: Point, current: Point): (c: Color)
    ensures BrushDefined(b, start, end) ==> c == ResolveBrush(b, start, end, current)
    ensures b.kind.Gradient? && end.x == start.x ==> c == b.secondary
  {
    if b.kind.Gradient? && end.x == start.x then b.secondary
    else ResolveBrush(b, start, end, current)
  }
}
