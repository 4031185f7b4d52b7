/** The Mandelbrot escape-time renderer and its two colour maps.

    The `ColorMap` capability is a closed sum of its two implementations,
    `GrayscaleMap` and `ColoredColorMap`. Floating-point arithmetic is replaced
    by exact `real` arithmetic, and the turbo gradient of the `colorgrad` crate
    (with `to_rgba8`) by an arbitrary total function that the colored map
    carries. */
module MandelbrotSet {
  import opened Image
  import opened Arith

  // ---------------------------------------------------------------------------
  // Colour maps
  // ---------------------------------------------------------------------------

  /** The value of `i as f64 / (max_iterations - 1) as f64`: a finite quotient,
      or NaN for `0.0 / 0.0`. */
  datatype Ratio = Finite(value: real) | NaN

  /** A colour gradient sampled at a ratio, as `gradient.at(t).to_rgba8()`. */
  type Gradient = Ratio -> Rgba

  /** The two implementations of the `ColorMap` trait. */
  datatype ColorMap =
    | Grayscale(maxIterations: U32)
    | Colored(maxIterations: U32, gradient: Gradient)

  /** `GrayscaleMap::new`. */
  function NewGrayscale(maxIterations: U32): (m: ColorMap)
    ensures m.Grayscale?
    ensures MaxIterations(m) == maxIterations
  {
    Grayscale(maxIterations)
  }

  /** `ColoredColorMap::new`; `turbo` stands for `colorgrad::turbo()`. */
  function NewColored(maxIterations: U32, turbo: Gradient): (m: ColorMap)
    ensures m.Colored? && m.gradient == turbo
    ensures MaxIterations(m) == maxIterations
  {
    Colored(maxIterations, turbo)
  }

  /** `get_max_iterations`, the same for both maps: the cap the map was
      built with. */
  function MaxIterations(m: ColorMap): (n: U32)
    ensures m.Grayscale? ==> m == Grayscale(n)
    ensures m.Colored? ==> m == Colored(n, m.gradient)
  {
    m.maxIterations
  }

  /** `(i as f32 / max as f32 * 255.0).round() as u8` with exact arithmetic:
      the quotient rounded half away from zero, saturated at 255 by the cast.
      With `max == 0` the f32 quotient is NaN for `i == 0` (cast to 0) and
      infinite otherwise (cast to 255). */
  function GrayIntensity(i: U32, max: U32): (v: Byte)
    ensures max == 0 ==> (v == 0 <==> i == 0)
    ensures 0 < max <= i ==> v == 255
  {
    if max == 0 then
      (if i == 0 then 0 else 255)
    else
      var q := (510 * i + max) / (2 * max);
      assert max <= i ==> q >= 255 by {
        if max <= i {
          GraySaturates(i, max);
        }
      }
      if q > 255 then 255 else q
  }

  /** From the cap on, the rounded quotient `(510 * i + max) / (2 * max)`
      is at least 255, so the intensity saturates. */
  lemma {:induction false} GraySaturates(i: nat, max: nat)
    requires 0 < max <= i
    ensures (510 * i + max) / (2 * max) >= 255
  {
    DivMonotone(511 * max, 510 * i + max, 2 * max);
    DivUnique(511 * max, 2 * max, 255);
  }

  /** The normalised gradient parameter `t` of the colored map; only computed
      for `i < max`, where `max - 1` does not underflow. */
  function GradientParam(i: U32, max: U32): (t: Ratio)
    requires i < max
    ensures t.NaN? <==> max == 1
    ensures t.Finite? ==> t.value * (max - 1) as real == i as real
  {
    if max == 1 then NaN
    else
      var d := (max - 1) as real;
      assert (i as real / d) * d == i as real;
      Finite(i as real / d)
  }

  /** `ColorMap::color` for both implementations: both are black at the cap,
      the grayscale one is always grey, the colored one is black beyond the
      cap too. */
  function Color(m: ColorMap, i: U32): (c: Rgb)
    ensures i == MaxIterations(m) ==> c == Black
    ensures m.Grayscale? ==> c.IsGrey()
    ensures m.Colored? && i > MaxIterations(m) ==> c == Black
  {
    match m
    case Grayscale(max) =>
      if i == max then Black
      else
        var v := GrayIntensity(i, max);
        Rgb(v, v, v)
    case Colored(max, gradient) =>
      if i >= max then Black
      else
        var c := gradient(GradientParam(i, max));
        Rgb(c.r, c.g, c.b)
  }

  // ---------------------------------------------------------------------------
  // Colour-map properties
  // ---------------------------------------------------------------------------

  /** Every grayscale colour is grey, and it is black exactly for the
      "inside" count `max` and for counts so small that `i / max * 255`
      rounds to zero. */
  lemma {:induction false} GrayscaleColor(max: U32, i: U32)
    ensures Color(Grayscale(max), i).IsGrey()
    ensures Color(Grayscale(max), i) == Black <==> i == max || 510 * i < max
  {
    if i != max && max > 0 {
      var n, d := 510 * i + max, 2 * max;
      if 510 * i < max {
        DivUnique(n, d, 0);
      } else {
        DivUnique(d, d, 1);
        DivMonotone(d, n, d);
      }
    }
  }

  /** With a cap of at most 510 (the program uses 100) the counts the
      renderer can produce, 1 to `max`, are black under the grayscale map
      exactly when the point did not escape. */
  lemma {:induction false} GrayscaleBlackOnlyInside(max: U32, i: U32)
    requires max <= 510 && 1 <= i <= max
    ensures Color(Grayscale(max), i) == Black <==> i == max
  {
    GrayscaleColor(max, i);
  }

  /** For escaping counts the grayscale intensity is `i / max * 255` rounded
      to the nearest integer, and the saturating cast never applies. */
  lemma {:induction false} GrayIntensityRounds(i: U32, max: U32)
    requires i < max
    ensures var v := GrayIntensity(i, max) as real;
            v - 0.5 <= (255 * i) as real / max as real < v + 0.5
  {
    var n, d := 510 * i + max, 2 * max;
    var q := n / d;
    DivBounds(n, d);
    DivMonotone(n, 512 * max - 1, d);
    DivUnique(512 * max - 1, d, 255);
    assert GrayIntensity(i, max) == q;
    var M, Q, I := max as real, q as real, i as real;
    assert (d * q) as real == 2.0 * M * Q;
    assert (Q - 0.5) * M <= 255.0 * I < (Q + 0.5) * M;
    RealDivBetween((255 * i) as real, M, Q - 0.5, Q + 0.5);
  }

  /** The grayscale intensity is non-decreasing over the escaping counts. */
  lemma {:induction false} GrayIntensityMonotone(max: U32, i: U32, j: U32)
    requires i <= j < max
    ensures GrayIntensity(i, max) <= GrayIntensity(j, max)
  {
    DivMonotone(510 * i + max, 510 * j + max, 2 * max);
  }

  /** The first and last escaping counts get distinct intensities: 0 for a
      point that escapes at once, at least 1 for the last possible count. */
  lemma {:induction false} GrayIntensitySpread(max: U32)
    requires max > 1
    ensures GrayIntensity(0, max) == 0 < GrayIntensity(max - 1, max)
  {
    var n, d := 510 * (max - 1) + max, 2 * max;
    DivUnique(max, d, 0);
    DivUnique(d, d, 1);
    DivMonotone(d, n, d);
  }

  /** The colored map is black for every count at or above the cap and
      otherwise shows the gradient's colour at the count's parameter, with
      the alpha channel dropped. */
  lemma ColoredColor(max: U32, gradient: Gradient, i: U32)
    ensures i >= max ==> Color(Colored(max, gradient), i) == Black
    ensures i < max ==>
      var c := gradient(GradientParam(i, max));
      Color(Colored(max, gradient), i) == Rgb(c.r, c.g, c.b)
  {
  }

  /** For a cap of at least 2 the gradient parameter lies in [0, 1] and
      reaches 1 exactly at the last escaping count `max - 1`. */
  lemma {:induction false} GradientParamInUnitInterval(i: U32, max: U32)
    requires 2 <= max && i < max
    ensures GradientParam(i, max).Finite?
    ensures 0.0 <= GradientParam(i, max).value <= 1.0
    ensures GradientParam(i, max).value == 1.0 <==> i == max - 1
  {
    var t, d := GradientParam(i, max).value, (max - 1) as real;
    if i < max - 1 {
      RealDivBetween(i as real, d, 0.0, 1.0);
    } else {
      assert t == d / d == 1.0;
    }
  }

  /** The gradient parameter strictly increases with the count. */
  lemma {:induction false} GradientParamIncreasing(i: U32, j: U32, max: U32)
    requires 2 <= max && i < j < max
    ensures GradientParam(i, max).value < GradientParam(j, max).value
  {
    RealDivStrictMonotone(i as real, j as real, (max - 1) as real);
  }

  // ---------------------------------------------------------------------------
  // Escape-time iteration
  // ---------------------------------------------------------------------------

  /** A point of the complex plane. */
  datatype Complex = Complex(re: real, im: real)

  const Origin := Complex(0.0, 0.0)

  /** `x * x + y * y`. */
  function NormSq(z: Complex): real {
    z.re * z.re + z.im * z.im
  }

  /** The loop's bail-out test `x * x + y * y <= 4.0`. */
  predicate Bounded(z: Complex) {
    NormSq(z) <= 4.0
  }

  /** One step `z := z * z + c`, as the loop body writes it out. */
  function Step(z: Complex, c: Complex): Complex {
    Complex(z.re * z.re - z.im * z.im + c.re, 2.0 * z.re * z.im + c.im)
  }

  /** Complex addition and multiplication, written independently of the
      loop body. */
  function Add(a: Complex, b: Complex): Complex {
    Complex(a.re + b.re, a.im + b.im)
  }

  function Mul(a: Complex, b: Complex): Complex {
    Complex(a.re * b.re - a.im * b.im, a.re * b.im + a.im * b.re)
  }

  /** The loop body's update of `x` and `y` is `z * z + c` in complex
      arithmetic. */
  lemma StepIsSquarePlusC(z: Complex, c: Complex)
    ensures Step(z, c) == Add(Mul(z, z), c)
  {
    assert 2.0 * z.re * z.im == z.re * z.im + z.im * z.re;
  }

  /** The point after `n` steps from the origin. */
  function Orbit(c: Complex, n: nat): Complex {
    if n == 0 then Origin else Step(Orbit(c, n - 1), c)
  }

  /** The count at which the loop, standing at point `z` with count `k`,
      stops. */
  function CountFrom(c: Complex, z: Complex, k: nat, max: nat): (n: nat)
    requires k <= max
    ensures k <= n <= max
    decreases max - k
  {
    if Bounded(z) && k < max then CountFrom(c, Step(z, c), k + 1, max) else k
  }

  /** Started on the orbit, the loop stops at the first later count whose
      point is outside the disc, or at the cap. */
  lemma {:induction false} CountFromOrbit(c: Complex, max: nat, k: nat)
    requires k <= max
    ensures var n := CountFrom(c, Orbit(c, k), k, max);
            (n < max ==> !Bounded(Orbit(c, n))) &&
            forall m :: k <= m < n ==> Bounded(Orbit(c, m))
    decreases max - k
  {
    if Bounded(Orbit(c, k)) && k < max {
      assert Step(Orbit(c, k), c) == Orbit(c, k + 1);
      CountFromOrbit(c, max, k + 1);
    }
  }

  /** The escape count of `c` under the cap `max`: the count at which the
      loop, started at the origin with count 0, stops. */
  function EscapeCount(c: Complex, max: nat): (n: nat)
    ensures n <= max
  {
    CountFrom(c, Origin, 0, max)
  }

  /** The escape count is the first count at which the orbit has left the
      disc of radius 2, or the cap if it never does within it. */
  lemma EscapeCountSpec(c: Complex, max: nat)
    ensures var n := EscapeCount(c, max);
            (n < max ==> !Bounded(Orbit(c, n))) &&
            forall m :: 0 <= m < n ==> Bounded(Orbit(c, m))
  {
    CountFromOrbit(c, max, 0);
  }

  /** The three properties of `EscapeCount` determine it. */
  lemma {:induction false} EscapeCountUnique(c: Complex, max: nat, n: nat)
    requires n <= max
    requires n < max ==> !Bounded(Orbit(c, n))
    requires forall m :: 0 <= m < n ==> Bounded(Orbit(c, m))
    ensures n == EscapeCount(c, max)
  {
    var e := EscapeCount(c, max);
    EscapeCountSpec(c, max);
    // the quantifiers of both sides, instantiated at `n` and at `e`
    var atN, atE := Bounded(Orbit(c, n)), Bounded(Orbit(c, e));
  }

  /** The first bail-out test is on the origin and always passes, so with a
      cap of at least 1 every count is at least 1. */
  lemma FirstTestPasses(c: Complex, max: nat)
    requires max >= 1
    ensures EscapeCount(c, max) >= 1
  {
    EscapeCountSpec(c, max);
    assert Orbit(c, 0) == Origin;
  }

  lemma {:induction false} OriginIsFixed(n: nat)
    ensures Orbit(Origin, n) == Origin
  {
    if n > 0 {
      OriginIsFixed(n - 1);
    }
  }

  /** The origin belongs to the set: it never escapes. */
  lemma OriginNeverEscapes(max: nat)
    ensures EscapeCount(Origin, max) == max
  {
    forall m: nat | m < max
      ensures Bounded(Orbit(Origin, m))
    {
      OriginIsFixed(m);
    }
    EscapeCountUnique(Origin, max, max);
  }

  /** The point (2, 2) escapes after the first step (count 1): the test on
      the origin passes, and the first step lands on (2, 2) itself. */
  lemma CornerEscapesAfterOneStep(max: nat)
    requires max >= 1
    ensures EscapeCount(Complex(2.0, 2.0), max) == 1
  {
    var c := Complex(2.0, 2.0);
    assert Orbit(c, 1) == c;
    assert Orbit(c, 0) == Origin;
    EscapeCountUnique(c, max, 1);
  }

  /** The `while` loop of `generate_mandelbrot_set` for one plane point;
      the guard's `x * x + y * y <= 4.0` is `Bounded`. */
  method EscapeTime(c: Complex, maxIterations: U32) returns (iteration: U32)
    ensures iteration == EscapeCount(c, maxIterations)
  {
    var x, y := 0.0, 0.0;
    iteration := 0;
    while Bounded(Complex(x, y)) && iteration < maxIterations
      invariant iteration <= maxIterations
      invariant CountFrom(c, Complex(x, y), iteration, maxIterations) == EscapeCount(c, maxIterations)
      decreases maxIterations - iteration
    {
      ghost var z := Complex(x, y);
      var xtemp := x * x - y * y + c.re;
      y := 2.0 * x * y + c.im;
      x := xtemp;
      iteration := iteration + 1;
      assert Complex(x, y) == Step(z, c);
    }
  }

  // ---------------------------------------------------------------------------
  // Rendering
  // ---------------------------------------------------------------------------

  /** The viewport `(xmin, xmax, ymin, ymax)`. */
  datatype Bounds = Bounds(xmin: real, xmax: real, ymin: real, ymax: real)

  /** The plane point of pixel `(px, py)`: `px * scale_x + xmin`,
      `py * scale_y + ymin`. */
  function PlanePoint(width: U32, height: U32, bounds: Bounds, px: nat, py: nat): Complex
    requires px < width && py < height
  {
    var scaleX := (bounds.xmax - bounds.xmin) / width as real;
    var scaleY := (bounds.ymax - bounds.ymin) / height as real;
    Complex(px as real * scaleX + bounds.xmin, py as real * scaleY + bounds.ymin)
  }

  /** Pixel coordinates are interpolated linearly between the bounds: pixel
      `px` of `width` lies the fraction `px / width` of the way from `xmin`
      to `xmax`, and likewise for rows. */
  lemma PlanePointInterpolates(width: U32, height: U32, bounds: Bounds, px: nat, py: nat)
    requires px < width && py < height
    ensures var z := PlanePoint(width, height, bounds, px, py);
            (z.re - bounds.xmin) * width as real == px as real * (bounds.xmax - bounds.xmin) &&
            (z.im - bounds.ymin) * height as real == py as real * (bounds.ymax - bounds.ymin)
  {
    var sx := (bounds.xmax - bounds.xmin) / width as real;
    var sy := (bounds.ymax - bounds.ymin) / height as real;
    assert sx * width as real == bounds.xmax - bounds.xmin;
    assert sy * height as real == bounds.ymax - bounds.ymin;
  }

  /** Pixel columns and rows map linearly into the viewport: the first one
      onto its lower bound, every one into the half-open range from the lower
      to the upper bound when the bounds are ordered. */
  lemma {:induction false} PlanePointInViewport(width: U32, height: U32, bounds: Bounds, px: nat, py: nat)
    requires px < width && py < height
    requires bounds.xmin < bounds.xmax && bounds.ymin < bounds.ymax
    ensures var z := PlanePoint(width, height, bounds, px, py);
            bounds.xmin <= z.re < bounds.xmax && bounds.ymin <= z.im < bounds.ymax
    ensures PlanePoint(width, height, bounds, 0, 0) == Complex(bounds.xmin, bounds.ymin)
  {
    var sx := (bounds.xmax - bounds.xmin) / width as real;
    var sy := (bounds.ymax - bounds.ymin) / height as real;
    assert sx * width as real == bounds.xmax - bounds.xmin;
    assert sy * height as real == bounds.ymax - bounds.ymin;
    assert px as real * sx < width as real * sx;
    assert py as real * sy < height as real * sy;
  }

  /** The colour of pixel `(px, py)`: the colour map applied to the escape
      count of its plane point under the map's own cap. */
  function PixelColor(m: ColorMap, width: U32, height: U32, bounds: Bounds, px: nat, py: nat): Rgb
    requires px < width && py < height
  {
    Color(m, EscapeCount(PlanePoint(width, height, bounds, px, py), MaxIterations(m)))
  }

  /** The coordinates of column `px`, rows `0` to `n - 1`, top to bottom. */
  function Column(px: nat, n: nat): seq<(int, int)> {
    if n == 0 then [] else Column(px, n - 1) + [(px, n - 1)]
  }

  /** The order in which the renderer's two loops visit the pixels: column by
      column, each column top to bottom. */
  function RasterOrder(width: nat, height: nat): seq<(int, int)> {
    if width == 0 then [] else RasterOrder(width - 1, height) + Column(width - 1, height)
  }

  lemma {:induction false} ColumnContents(px: nat, n: nat)
    ensures |Column(px, n)| == n
    ensures forall k :: 0 <= k < n ==> Column(px, n)[k] == (px, k)
  {
    if n > 0 {
      ColumnContents(px, n - 1);
    }
  }

  /** The raster order has one entry per pixel, each inside the image. */
  lemma {:induction false} RasterOrderInBounds(width: nat, height: nat)
    ensures |RasterOrder(width, height)| == width * height
    ensures forall k :: 0 <= k < |RasterOrder(width, height)| ==>
              0 <= RasterOrder(width, height)[k].0 < width && 0 <= RasterOrder(width, height)[k].1 < height
  {
    if width > 0 {
      var w := width - 1;
      RasterOrderInBounds(w, height);
      ColumnContents(w, height);
      assert width * height == w * height + height;
    }
  }

  /** No pixel occurs twice in the raster order. */
  lemma {:induction false} RasterOrderDistinct(width: nat, height: nat)
    ensures forall k, l :: 0 <= k < l < |RasterOrder(width, height)| ==>
              RasterOrder(width, height)[k] != RasterOrder(width, height)[l]
  {
    if width > 0 {
      var w := width - 1;
      var prefix, column := RasterOrder(w, height), Column(w, height);
      RasterOrderDistinct(w, height);
      RasterOrderInBounds(w, height);
      ColumnContents(w, height);
      var r := prefix + column;
      forall k, l | 0 <= k < l < |r|
        ensures r[k] != r[l]
      {
        if l < |prefix| {
          assert r[k] == prefix[k] && r[l] == prefix[l];
        } else if k < |prefix| {
          assert r[k] == prefix[k] && r[k].0 < w;
          assert r[l] == column[l - |prefix|] && r[l].0 == w;
        } else {
          assert r[k] == column[k - |prefix|] && r[l] == column[l - |prefix|];
        }
      }
    }
  }

  /** Every pixel of the image occurs in the raster order. */
  lemma {:induction false} RasterOrderCovers(width: nat, height: nat, px: nat, py: nat)
    requires px < width && py < height
    ensures (px, py) in RasterOrder(width, height)
  {
    var w := width - 1;
    if px < w {
      RasterOrderCovers(w, height, px, py);
    } else {
      ColumnContents(w, height);
      assert Column(w, height)[py] == (px, py);
    }
  }

  /** The raster order visits every pixel of a `width` by `height` image
      exactly once and nothing outside it. */
  lemma RasterOrderVisitsEachPixelOnce(width: nat, height: nat)
    ensures |RasterOrder(width, height)| == width * height
    ensures forall k :: 0 <= k < |RasterOrder(width, height)| ==>
              0 <= RasterOrder(width, height)[k].0 < width && 0 <= RasterOrder(width, height)[k].1 < height
    ensures forall k, l :: 0 <= k < l < |RasterOrder(width, height)| ==>
              RasterOrder(width, height)[k] != RasterOrder(width, height)[l]
    ensures forall px, py :: 0 <= px < width && 0 <= py < height ==> (px, py) in RasterOrder(width, height)
  {
    RasterOrderInBounds(width, height);
    RasterOrderDistinct(width, height);
    forall px: nat, py: nat | px < width && py < height
      ensures (px, py) in RasterOrder(width, height)
    {
      RasterOrderCovers(width, height, px, py);
    }
  }

  /** The body of the inner loop of `generate_mandelbrot_set`: pixel
      `(px, py)` receives the colour of its plane point, and no other pixel
      changes. */
  method RenderPixel(img: array2<Rgb>, colorMap: ColorMap, bounds: Bounds,
                     scaleX: real, scaleY: real, px: nat, py: nat)
    requires px < img.Length0 < 0x1_0000_0000 && py < img.Length1 < 0x1_0000_0000
    requires scaleX == (bounds.xmax - bounds.xmin) / img.Length0 as real
    requires scaleY == (bounds.ymax - bounds.ymin) / img.Length1 as real
    modifies img
    ensures img[px, py] == PixelColor(colorMap, img.Length0, img.Length1, bounds, px, py)
    ensures forall a, b :: 0 <= a < img.Length0 && 0 <= b < img.Length1 && (a, b) != (px, py) ==>
              img[a, b] == old(img[a, b])
  {
    var x0 := px as real * scaleX + bounds.xmin;
    var y0 := py as real * scaleY + bounds.ymin;
    assert Complex(x0, y0) == PlanePoint(img.Length0, img.Length1, bounds, px, py);
    var iteration := EscapeTime(Complex(x0, y0), MaxIterations(colorMap));
    img[px, py] := Color(colorMap, iteration);
  }

  /** The inner loop of `generate_mandelbrot_set`: column `px` of `img`
      receives the colour of each of its pixels, top to bottom, and no other
      column changes. The ghost `writes` logs the coordinates passed to
      `put_pixel`. */
  method RenderColumn(img: array2<Rgb>, colorMap: ColorMap, bounds: Bounds,
                      scaleX: real, scaleY: real, px: nat)
    returns (ghost writes: seq<(int, int)>)
    requires px < img.Length0 < 0x1_0000_0000 && 0 < img.Length1 < 0x1_0000_0000
    requires scaleX == (bounds.xmax - bounds.xmin) / img.Length0 as real
    requires scaleY == (bounds.ymax - bounds.ymin) / img.Length1 as real
    modifies img
    ensures forall a, b :: 0 <= a < img.Length0 && 0 <= b < img.Length1 ==>
              img[a, b] == if a == px then PixelColor(colorMap, img.Length0, img.Length1, bounds, a, b)
                           else old(img[a, b])
    ensures writes == Column(px, img.Length1)
  {
    writes := [];
    for py := 0 to img.Length1
      invariant forall a, b :: 0 <= a < img.Length0 && 0 <= b < img.Length1 ==>
                  img[a, b] == if a == px && b < py
                               then PixelColor(colorMap, img.Length0, img.Length1, bounds, a, b)
                               else old(img[a, b])
      invariant |writes| == py && forall k :: 0 <= k < py ==> writes[k] == (px, k)
    {
      RenderPixel(img, colorMap, bounds, scaleX, scaleY, px, py);
      writes := writes + [(px, py)];
    }
    ColumnContents(px, img.Length1);
  }

  /** `generate_mandelbrot_set`: a fresh `width` by `height` image whose
      every pixel holds `PixelColor`. The ghost `writes` logs the coordinates
      passed to `put_pixel`: they come in raster order, so each pixel is
      written exactly once (`RasterOrderVisitsEachPixelOnce`). */
  method GenerateMandelbrotSet(width: U32, height: U32, colorMap: ColorMap, bounds: Bounds)
    returns (img: array2<Rgb>, ghost writes: seq<(int, int)>)
    ensures fresh(img)
    ensures img.Length0 == width && img.Length1 == height
    ensures forall px, py :: 0 <= px < width && 0 <= py < height ==>
              img[px, py] == PixelColor(colorMap, width, height, bounds, px, py)
    ensures writes == RasterOrder(width, height)
  {
    img := new Rgb[width, height]((_, _) => Black);
    writes := [];
    if width == 0 || height == 0 {
      // no pixel to visit, and the scale factors are never used
      RasterOrderVisitsEachPixelOnce(width, height);
      return;
    }
    var scaleX := (bounds.xmax - bounds.xmin) / width as real;
    var scaleY := (bounds.ymax - bounds.ymin) / height as real;
    for px := 0 to width
      invariant forall a, b :: 0 <= a < width && 0 <= b < height ==>
                  img[a, b] == if a < px then PixelColor(colorMap, width, height, bounds, a, b) else Black
      invariant writes == RasterOrder(px, height)
    {
      ghost var column := RenderColumn(img, colorMap, bounds, scaleX, scaleY, px);
      writes := writes + column;
    }
  }
}
