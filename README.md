# Mandelbrot set and chessboard renderer, modelled in Dafny

This project models the computing core of a small Rust program that draws
two kinds of images:

- a 500 by 500 chessboard with `cell_count` cells per side (`draw_square`);
- an escape-time picture of the Mandelbrot set, coloured by one of two
  colour maps: a grayscale map or a colored map built on the turbo gradient
  (`generate_mandelbrot_set`).

It also models the pure decisions the program's `main` makes before
rendering:

- parsing the viewport text `xmin;xmax;ymin;ymax` (`parse_bounds`);
- choosing the colour map, the viewport and the output file name from the
  user's trimmed answer;
- the fixed 800 by 600 render with a cap of 100 iterations.

The modules follow the source files:

| module | file | models |
|---|---|---|
| `Image` | `image.dfy` | `Rgb<u8>`, the 8-bit and 32-bit integer ranges, black and white |
| `Arith` | `arith.dfy` | helper lemmas on integer and real division |
| `MandelbrotSet` | `mandelbrotset.dfy` | `mandelbrotset.rs`: the `ColorMap` trait as a two-variant datatype, the escape loop, and the renderer over a `width` by `height` `array2` |
| `Chessboard` | `chessboard.dfy` | `chessboard.rs`: `draw_square` as four nested loops over a 500 by 500 `array2` |
| `Text` | `text.dfy` | the parts of Rust's `str` that `main.rs` uses: `split(';')`, `trim()`, and `{}` formatting of a `u32` |
| `App` | `main.dfy` | `main.rs`: `parse_bounds`, the colour-map dispatch, and the choices in the Mandelbrot branch of `main` |

Modelling choices:

- **Floats:** `f32` and `f64` values are exact `real`s.
- **Escape count:** the loop is proved against a recursive specification
  (`EscapeCount`). That specification is characterised by the orbit of
  `z := z * z + c` from the origin.
- **Rendering:** the renderer keeps the source's nested `for px` / `for py`
  loops and writes into a fresh array. A ghost log of the coordinates passed
  to `put_pixel` shows the visit order: column by column, so each pixel is
  written exactly once.
- **Foreign parts:** the turbo gradient and `str::parse::<f32>` come from
  other crates. Both are function parameters: `Gradient` and `FloatParser`.

## Model

| member | source | states |
|---|---|---|
| MandelbrotSet.NewGrayscale | mandelbrotset.rs:17-20 | builds the grayscale map, and `get_max_iterations` then returns exactly the cap passed in |
| MandelbrotSet.NewColored | mandelbrotset.rs:47-52 | builds the colored map holding the turbo gradient, and `get_max_iterations` then returns exactly the cap passed in |
| MandelbrotSet.MaxIterations | mandelbrotset.rs:68-70 | `get_max_iterations` (also lines 34-36 for the grayscale map) returns the cap the map holds: the map is `Grayscale(n)` or `Colored(n, gradient)` for the returned `n` |
| MandelbrotSet.Color | mandelbrotset.rs:25-65 | `color` of both maps (lines 25-31 and 58-65): black at `i == max`; the grayscale map always gives three equal channels; the colored map is black for every `i > max` as well |
| MandelbrotSet.GrayIntensity | mandelbrotset.rs:29 | the `as u8` intensity: with a cap of 0 it is 0 exactly for `i == 0` (NaN casts to 0, infinity saturates to 255); with a positive cap it saturates at 255 for every `i >= max` |
| MandelbrotSet.GraySaturates | mandelbrotset.rs:29 | from the cap on, `i / max * 255` rounds to at least 255, so the `as u8` cast saturates at 255 |
| MandelbrotSet.GradientParam | mandelbrotset.rs:62 | `t` is NaN exactly when `max == 1` (`0.0 / 0.0`); otherwise `t * (max - 1) == i` |
| MandelbrotSet.GrayscaleColor | mandelbrotset.rs:25-31 | every grayscale colour has three equal channels; it is black if and only if `i == max` or `i / max * 255` rounds to 0 (`510 * i < max`) |
| MandelbrotSet.GrayscaleBlackOnlyInside | mandelbrotset.rs:26-30 | with a cap of at most 510 and a count from 1 to `max`, the grayscale colour is black exactly when `i == max` |
| MandelbrotSet.GrayIntensityRounds | mandelbrotset.rs:29 | for `i < max` the intensity is `255 * i / max` rounded to the nearest integer, within 0.5, and the saturating `as u8` never applies |
| MandelbrotSet.GrayIntensityMonotone | mandelbrotset.rs:29 | the intensity is non-decreasing in `i` over the escaping counts |
| MandelbrotSet.GrayIntensitySpread | mandelbrotset.rs:29 | count 0 gives intensity 0, and the last escaping count `max - 1` gives a positive intensity |
| MandelbrotSet.ColoredColor | mandelbrotset.rs:58-65 | the colored map is black for every `i >= max`; below the cap it is the gradient's colour at `t`, with alpha dropped |
| MandelbrotSet.GradientParamInUnitInterval | mandelbrotset.rs:62 | for `max >= 2` and `i < max`, `t = i / (max - 1)` is finite, lies in [0, 1], and equals 1 exactly when `i == max - 1` |
| MandelbrotSet.GradientParamIncreasing | mandelbrotset.rs:62 | `t` strictly increases with `i` |
| MandelbrotSet.Bounded | mandelbrotset.rs:88 | the first half of the loop guard, `x * x + y * y <= 4.0`: the point lies in the closed disc of radius 2 |
| MandelbrotSet.Step | mandelbrotset.rs:89-91 | one pass of the loop body: `x := x*x - y*y + x0`, `y := 2*x*y + y0`, from the old `x` and `y`; its meaning is stated by `StepIsSquarePlusC` |
| MandelbrotSet.StepIsSquarePlusC | mandelbrotset.rs:89-91 | the loop body computes `z * z + c` in complex arithmetic, with multiplication and addition defined on their own |
| MandelbrotSet.CountFrom | mandelbrotset.rs:88-93 | the `while` loop started from point `z` at count `k`: it steps while the point is bounded and the count is below the cap, and it ends with a count between `k` and the cap |
| MandelbrotSet.CountFromOrbit | mandelbrotset.rs:88-93 | started on the orbit at count `k`, the loop stops at the first later count whose point is outside the radius-2 disc, or at the cap |
| MandelbrotSet.EscapeCount | mandelbrotset.rs:85-93 | the count the loop ends with is at most the cap |
| MandelbrotSet.EscapeCountSpec | mandelbrotset.rs:88-93 | a count below the cap means the orbit point at that count has `x*x + y*y > 4`; every earlier orbit point has `x*x + y*y <= 4` |
| MandelbrotSet.EscapeCountUnique | mandelbrotset.rs:88-93 | the bounds, the exit condition and the all-earlier-points-bounded condition together determine the count uniquely |
| MandelbrotSet.FirstTestPasses | mandelbrotset.rs:85-88 | with a cap of at least 1 every count is at least 1, because the first test is made at the origin |
| MandelbrotSet.OriginNeverEscapes | mandelbrotset.rs:85-93 | the point 0 never escapes: its count is the cap |
| MandelbrotSet.CornerEscapesAfterOneStep | mandelbrotset.rs:85-93 | the point (2, 2) gets count 1 for every cap of at least 1 |
| MandelbrotSet.EscapeTime | mandelbrotset.rs:85-93 | the `while` loop on `x`, `y`, `iteration` ends with exactly `EscapeCount` of the plane point |
| MandelbrotSet.PlanePoint | mandelbrotset.rs:77-84 | `x0 = px * scale_x + xmin` and `y0 = py * scale_y + ymin`, with the scales `(xmax - xmin) / width` and `(ymax - ymin) / height`; stated by the two lemmas below |
| MandelbrotSet.PlanePointInterpolates | mandelbrotset.rs:77-84 | pixel `px` of `width` lies the fraction `px / width` of the way from `xmin` to `xmax`, and likewise for rows: `(x0 - xmin) * width == px * (xmax - xmin)` |
| MandelbrotSet.PlanePointInViewport | mandelbrotset.rs:77-84 | pixel (0, 0) maps onto (`xmin`, `ymin`), and every pixel maps into the half-open viewport when the bounds are ordered |
| MandelbrotSet.PixelColor | mandelbrotset.rs:83-95 | the colour `put_pixel` receives for pixel `(px, py)`: `color_map.color` of the escape count of that pixel's plane point, with the map's own cap; the renderer's contracts are stated in terms of it |
| MandelbrotSet.ColumnContents | mandelbrotset.rs:82-96 | the inner loop's visits are `(px, 0)` to `(px, height - 1)`, in order |
| MandelbrotSet.RasterOrderInBounds | mandelbrotset.rs:81-97 | the loops make `width * height` visits, each inside the image |
| MandelbrotSet.RasterOrderDistinct | mandelbrotset.rs:81-97 | no pixel is visited twice |
| MandelbrotSet.RasterOrderCovers | mandelbrotset.rs:81-97 | every pixel of the image is visited |
| MandelbrotSet.RasterOrderVisitsEachPixelOnce | mandelbrotset.rs:81-97 | the visit order covers every pixel exactly once and nothing outside the image |
| MandelbrotSet.RenderPixel | mandelbrotset.rs:83-95 | one inner-loop body: pixel `(px, py)` gets the colour of its plane point's count; nothing else changes |
| MandelbrotSet.RenderColumn | mandelbrotset.rs:82-96 | the `for py` loop fills column `px` and leaves the other columns unchanged; its writes are that column, top to bottom |
| MandelbrotSet.GenerateMandelbrotSet | mandelbrotset.rs:74-100 | a fresh `width` by `height` image; every pixel holds `color_map.color` of its plane point's escape count; the `put_pixel` calls follow the raster order |
| Chessboard.BoardFits | chessboard.rs:12-14 | the painted area, `cell_count * square_size` pixels per side, fits in the 500-pixel image |
| Chessboard.SquareSize | chessboard.rs:13 | `square_size = size / cell_count`, the integer quotient of 500 by the cell count; `BoardFits` states that `cell_count` squares of this side fit in 500 pixels |
| Chessboard.CellOffsetInside | chessboard.rs:26-29 | every `px`/`py` the loops compute is below `cell_count * square_size`, hence below 500 |
| Chessboard.CellColor | chessboard.rs:19-23 | the colour of cell `(i, j)` is white or black, and white exactly when `(i + j) % 2 == 0` |
| Chessboard.Board | chessboard.rs:17-30 | the finished image at a pixel, which is always white or black |
| Chessboard.OutsideIsBlack | chessboard.rs:13-30 | every pixel at or beyond `cell_count * square_size` in either direction (the strip the integer division leaves along the right and bottom edges) is never painted and keeps the initial black |
| Chessboard.ThreeCellsLeaveStrip | chessboard.rs:13-30 | with `cell_count` 3 the squares are 166 pixels, so column 498 and row 499 of the image are black throughout |
| Chessboard.SquareColor | chessboard.rs:17-30 | pixel `(i*s + x, j*s + y)` is in the image and shows white when `(i + j) % 2 == 0`, black otherwise |
| Chessboard.SquaresDisjoint | chessboard.rs:17-31 | two loop iterations that write the same pixel are the same iteration |
| Chessboard.BoardInside | chessboard.rs:17-30 | inside the painted area every pixel has the colour of the cell it lies in |
| Chessboard.AdjacentColumnsOpposite | chessboard.rs:19-23 | a pixel and the pixel one square to its right inside the painted area differ in colour |
| Chessboard.AdjacentRowsOpposite | chessboard.rs:19-23 | a pixel and the pixel one square below it inside the painted area differ in colour |
| Chessboard.DrawSquare | chessboard.rs:11-37 | a fresh 500 by 500 image for every `cell_count > 0`; cell pixels take the parity colour; pixels outside the painted area keep the initial black |
| Text.Split | main.rs:108 | splitting yields one more piece than there are separators, and no piece contains the separator |
| Text.SplitJoin | main.rs:108 | joining the pieces with the separator gives the input back |
| Text.TrimStart | main.rs:69 | the result is a suffix of the input that does not start with whitespace |
| Text.TrimEnd | main.rs:69 | the result is a prefix of the input that does not end with whitespace |
| Text.IsWhitespace | main.rs:69 | `char::is_whitespace`, the characters `trim()` removes: the Unicode White_Space set (U+0009 to U+000D, space, U+0085, U+00A0, U+1680, U+2000 to U+200A, U+2028, U+2029, U+202F, U+205F, U+3000) |
| Text.Trim | main.rs:69 | `trim()` as `trim_end` after `trim_start`; its meaning is stated by the four lemmas below |
| Text.TrimStartDropsWhitespace | main.rs:69 | everything `trim_start` drops is whitespace |
| Text.TrimEndDropsWhitespace | main.rs:69 | everything `trim_end` drops is whitespace |
| Text.TrimIsSlice | main.rs:69 | the trimmed string is a contiguous slice of the input |
| Text.TrimDropsOnlyWhitespace | main.rs:69 | everything before and after that slice is whitespace |
| Text.TrimEndsNotWhitespace | main.rs:69 | a non-empty trimmed string neither starts nor ends with whitespace |
| Text.TrimIdempotent | main.rs:69 | trimming twice equals trimming once |
| Text.NatToDecimal | main.rs:56 | `{}` of a `u32` is a non-empty string of digits; 0 is exactly `"0"`, and a string of two or more digits never starts with `0` |
| Text.DecimalRoundTrip | main.rs:56 | reading the formatted digits back gives the number |
| App.ParseField | main.rs:110-113 | one field's `parse::<f32>().map_err(...)`: success exactly when the parser accepts the text, with its value; otherwise the error `"Error parsing <name>"` |
| App.ParseBounds | main.rs:107-118 | without exactly four `;`-separated fields, the format error; otherwise success if and only if all four fields parse; on success the four values in field order; on failure the error names the first failing field in the order xmin, xmax, ymin, ymax |
| App.FourFieldsIffThreeSeparators | main.rs:108-109 | the input has four fields exactly when it holds three semicolons |
| App.AcceptsColorChoice | main.rs:69 | the prompt accepts an answer exactly when its trimmed text is `"c"` or `"gs"`; `MandelbrotPlan` is `Some` exactly then |
| App.SelectColorMap | main.rs:121-127 | the colored map if and only if the trimmed choice is `"c"`, holding the turbo gradient; otherwise the grayscale map; both with the given cap |
| App.SelectBounds | main.rs:72-78 | for the trimmed choice `"gs"`, the parsed bounds, or the default (-2, 2, -1.5, 1.5) on any parse error; for every other choice, the default |
| App.ColoredIgnoresBoundsInput | main.rs:76-78 | on the colored path the viewport text and its parser make no difference: the default is used |
| App.OutputFilename | main.rs:81-85 | `"colored_mandelbrot.png"` if and only if the trimmed choice is `"c"`, otherwise `"grayscale_mandelbrot.png"` |
| App.MandelbrotPlan | main.rs:69-85 | only the trimmed answers `"c"` and `"gs"` leave the prompt; then the cap is 100, the map is `SelectColorMap` of the choice with that cap (colored exactly for `"c"`), the bounds are the default on the colored path and the parsed-or-default bounds on the grayscale path, and the file name is `OutputFilename` of the choice |
| App.GenerateMandelbrotSet | main.rs:121-129 | an 800 by 600 render whose every pixel is coloured by the map the trimmed choice selects; the pixels are written in raster order, column by column |
| App.ChessboardFilename | main.rs:56 | `chessboard_{n}x{n}.png`: the fixed prefix `chessboard_` and suffix `.png`, and between them exactly the decimal digits of `n`, an `x`, and the digits of `n` again |
| App.ChessboardFilenameInjective | main.rs:56 | different cell counts give different chessboard file names |

Notes on the code's behaviour:

- **The point (2, 2) gets count 1, not 0.** The loop tests `x*x + y*y <= 4`
  before each step, and the first test is made at the origin, so every count
  is at least 1 when the cap is at least 1.
- **The gradient parameter reaches 1.** `t = i / (max - 1)` is exactly 1 at
  the last escaping count `i = max - 1`, so it lies in [0, 1], not [0, 1).
- **The grayscale map is black for more than `i == max`.** Black also
  appears for every `i` with `510 * i < max`, that is, whenever
  `i / max * 255` rounds to 0. No reachable count does this when the cap is
  at most 510, and the program uses 100.

## Left out

- Standard input, the prompts, the interactive `loop`s of `main` and the
  `"1"`/`"2"` menu are I/O-driven control flow. Only the decisions taken
  from one answer are modelled (`App.MandelbrotPlan`).
- Saving images (`image.save`) and showing them in a window
  (`display_image`, `show_image`, `util::to_showable_image`) are I/O and
  foreign calls. The `util` module is not part of this model.
- `colorgrad::turbo()` and `to_rgba8` are a foreign library. The gradient is
  an arbitrary function from the parameter `t` (a finite ratio, or NaN for
  `0.0 / 0.0` when `max == 1`) to an RGBA colour.
- `str::parse::<f32>` is a foreign library. It is an arbitrary partial
  function from a field's text to a value.
- MandelbrotSet.EscapeTime: the escape loop uses exact real arithmetic, not
  `f32`. Rounding, overflow to infinity and NaN in `x`, `y`, `scale_x` and
  `scale_y` are not modelled. Neither are NaN or infinite viewport bounds.
- MandelbrotSet.GenerateMandelbrotSet: `px as f32 * scale_x + xmin` is
  computed exactly. When `width` or `height` is 0 the source divides by zero
  in `f32` but never uses the result; the model skips that division.
- MandelbrotSet.GrayIntensityRounds: the intensity is the exact quotient
  rounded half away from zero. `f32` rounding of `i as f32` and of the
  product can move a value near a half-way point across it, so the result
  can differ there.
- Chessboard.DrawSquare: `cell_count == 0` is excluded by its precondition,
  because the source divides by zero there and panics.
- Chessboard.DrawSquare: `i + j` overflows u32 when cell_count > 2^31 (debug
  builds panic, release wraps with the same parity); the model's sum is
  unbounded.
- The `RgbImage` allocation of `width * height * 3` bytes is assumed to
  succeed; overflow of that size is not modelled.
