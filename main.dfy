/** The program's decision layer: parsing the viewport text, choosing the
    colour map, the viewport and the output file name from the user's
    choices, and the fixed-size Mandelbrot render. Reading from standard
    input, saving and displaying images are left to the caller. */
module App {
  import opened Image
  import MS = MandelbrotSet
  import Text

  datatype Option<T> = None | Some(value: T)

  /** `Result<T, &'static str>`, usable with `:-` like Rust's `?`. */
  datatype Result<T> = Ok(value: T) | Err(error: string)
  {
    predicate IsFailure() {
      Err?
    }

    function PropagateFailure<U>(): Result<U>
      requires Err?
    {
      Err(error)
    }

    function Extract(): T
      requires Ok?
    {
      value
    }

    /** `Result::unwrap_or`. */
    function UnwrapOr(default: T): T {
      if Ok? then value else default
    }
  }

  /** `str::parse::<f32>`, left abstract: the value a field denotes, or
      `None` when it is not a float literal. */
  type FloatParser = string -> Option<real>

  const FormatError := "Input must be in the format xmin;xmax;ymin;ymax"

  /** The names of the four viewport fields, in input order. */
  const FieldNames: seq<string> := ["xmin", "xmax", "ymin", "ymax"]

  /** `field.parse::<f32>().map_err(|_| "Error parsing <name>")`. */
  function ParseField(field: string, name: string, parse: FloatParser): (r: Result<real>)
    ensures r.Ok? <==> parse(field).Some?
    ensures r.Ok? ==> r.value == parse(field).value
    ensures r.Err? ==> r.error == "Error parsing " + name
  {
    match parse(field)
    case Some(v) => Ok(v)
    case None => Err("Error parsing " + name)
  }

  /** `parse_bounds`: split on `';'`; exactly four fields are required, and
      they are parsed in order, the first failure being reported. */
  function ParseBounds(input: string, parse: FloatParser): (r: Result<MS.Bounds>)
    ensures var parts := Text.Split(input, ';');
            |parts| != 4 ==> r == Err(FormatError)
    ensures var parts := Text.Split(input, ';');
            r.Ok? <==> |parts| == 4 && forall k :: 0 <= k < 4 ==> parse(parts[k]).Some?
    ensures var parts := Text.Split(input, ';');
            r.Ok? ==> r.value == MS.Bounds(parse(parts[0]).value, parse(parts[1]).value,
                                           parse(parts[2]).value, parse(parts[3]).value)
    ensures var parts := Text.Split(input, ';');
            forall k :: 0 <= k < |parts| == 4 && parse(parts[k]).None? &&
                        (forall l :: 0 <= l < k ==> parse(parts[l]).Some?) ==>
                          r == Err("Error parsing " + FieldNames[k])
  {
    var parts := Text.Split(input, ';');
    if |parts| == 4 then
      var xmin :- ParseField(parts[0], "xmin", parse);
      var xmax :- ParseField(parts[1], "xmax", parse);
      var ymin :- ParseField(parts[2], "ymin", parse);
      var ymax :- ParseField(parts[3], "ymax", parse);
      Ok(MS.Bounds(xmin, xmax, ymin, ymax))
    else
      Err(FormatError)
  }

  /** The input has the four fields `parse_bounds` asks for exactly when it
      holds three semicolons. */
  lemma FourFieldsIffThreeSeparators(input: string)
    ensures |Text.Split(input, ';')| == 4 <==> Text.Count(input, ';') == 3
  {
  }

  // ---------------------------------------------------------------------------
  // Choices made in `main`
  // ---------------------------------------------------------------------------

  const MaxIterations: U32 := 100
  const Width: U32 := 800
  const Height: U32 := 600
  const DefaultBounds := MS.Bounds(-2.0, 2.0, -1.5, 1.5)

  /** The colour-choice prompt is left only with `"c"` or `"gs"`. */
  predicate AcceptsColorChoice(colorChoice: string) {
    Text.Trim(colorChoice) == "c" || Text.Trim(colorChoice) == "gs"
  }

  /** The colour-map dispatch of `generate_mandelbrot_set` in `main.rs`. */
  function SelectColorMap(colorChoice: string, maxIterations: U32, turbo: MS.Gradient): (m: MS.ColorMap)
    ensures m.Colored? <==> Text.Trim(colorChoice) == "c"
    ensures m.Colored? ==> m.gradient == turbo
    ensures MS.MaxIterations(m) == maxIterations
  {
    if Text.Trim(colorChoice) == "c" then MS.NewColored(maxIterations, turbo)
    else MS.NewGrayscale(maxIterations)
  }

  /** The viewport: the grayscale choice parses the text it reads and falls
      back to the default on any error; every other choice uses the default
      without reading any text. */
  function SelectBounds(colorChoice: string, boundsInput: string, parse: FloatParser): (b: MS.Bounds)
    ensures Text.Trim(colorChoice) != "gs" ==> b == DefaultBounds
    ensures Text.Trim(colorChoice) == "gs" ==>
              b == if ParseBounds(boundsInput, parse).Ok? then ParseBounds(boundsInput, parse).value
                   else DefaultBounds
  {
    if Text.Trim(colorChoice) == "gs" then ParseBounds(boundsInput, parse).UnwrapOr(DefaultBounds)
    else DefaultBounds
  }

  /** The colored path does not depend on the viewport text or its parser. */
  lemma ColoredIgnoresBoundsInput(colorChoice: string, input1: string, parse1: FloatParser,
                                  input2: string, parse2: FloatParser)
    requires Text.Trim(colorChoice) == "c"
    ensures SelectBounds(colorChoice, input1, parse1) == SelectBounds(colorChoice, input2, parse2) == DefaultBounds
  {
  }

  /** The output file of the Mandelbrot branch. */
  function OutputFilename(colorChoice: string): (f: string)
    ensures f == "colored_mandelbrot.png" <==> Text.Trim(colorChoice) == "c"
    ensures f == "colored_mandelbrot.png" || f == "grayscale_mandelbrot.png"
  {
    if Text.Trim(colorChoice) == "c" then "colored_mandelbrot.png" else "grayscale_mandelbrot.png"
  }

  /** Everything the Mandelbrot branch of `main` decides before rendering. */
  datatype Plan = Plan(colorMap: MS.ColorMap, bounds: MS.Bounds, filename: string)

  /** The Mandelbrot branch of `main` for one answer to the colour prompt:
      `None` when the answer is rejected and the prompt repeats, otherwise
      the colour map with the cap of 100, the viewport and the file name. */
  function MandelbrotPlan(colorChoice: string, boundsInput: string, parse: FloatParser,
                          turbo: MS.Gradient): (p: Option<Plan>)
    ensures p.Some? <==> AcceptsColorChoice(colorChoice)
    ensures p.Some? ==>
              MS.MaxIterations(p.value.colorMap) == MaxIterations &&
              (p.value.colorMap.Colored? <==> Text.Trim(colorChoice) == "c") &&
              (p.value.colorMap.Colored? ==> p.value.bounds == DefaultBounds) &&
              (p.value.colorMap.Grayscale? ==> p.value.bounds == ParseBounds(boundsInput, parse).UnwrapOr(DefaultBounds)) &&
              (p.value.filename == "colored_mandelbrot.png" <==> p.value.colorMap.Colored?) &&
              p.value.filename == OutputFilename(colorChoice) &&
              p.value.colorMap == SelectColorMap(colorChoice, MaxIterations, turbo)
  {
    if AcceptsColorChoice(colorChoice) then
      Some(Plan(SelectColorMap(colorChoice, MaxIterations, turbo),
                SelectBounds(colorChoice, boundsInput, parse),
                OutputFilename(colorChoice)))
    else
      None
  }

  /** `generate_mandelbrot_set` of `main.rs`: an 800 by 600 render with the
      chosen colour map. */
  method GenerateMandelbrotSet(colorChoice: string, maxIterations: U32, bounds: MS.Bounds, turbo: MS.Gradient)
    returns (img: array2<Rgb>, ghost writes: seq<(int, int)>)
    ensures fresh(img)
    ensures img.Length0 == Width && img.Length1 == Height
    ensures forall px, py :: 0 <= px < Width && 0 <= py < Height ==>
              img[px, py] == MS.PixelColor(SelectColorMap(colorChoice, maxIterations, turbo),
                                           Width, Height, bounds, px, py)
    ensures writes == MS.RasterOrder(Width, Height)
  {
    var colorMap := SelectColorMap(colorChoice, maxIterations, turbo);
    img, writes := MS.GenerateMandelbrotSet(Width, Height, colorMap, bounds);
  }

  /** `format!("chessboard_{}x{}.png", cell_count, cell_count)`. */
  function ChessboardFilename(cellCount: U32): (f: string)
    ensures |f| == 16 + 2 * |Text.NatToDecimal(cellCount)|
    ensures f[..11] == "chessboard_" && f[|f| - 4..] == ".png"
    ensures f[11..|f| - 4] == Text.NatToDecimal(cellCount) + "x" + Text.NatToDecimal(cellCount)
  {
    "chessboard_" + Text.NatToDecimal(cellCount) + "x" + Text.NatToDecimal(cellCount) + ".png"
  }

  /** The text before the first `c` in `s`, or all of `s` when there is none. */
  function TakeUntil(s: string, c: char): string {
    if s == [] || s[0] == c then [] else [s[0]] + TakeUntil(s[1..], c)
  }

  /** What precedes the first `c` is recovered from any text that continues
      after it. */
  lemma {:induction false} TakeUntilPrefix(a: string, c: char, r: string)
    requires c !in a
    ensures TakeUntil(a + [c] + r, c) == a
  {
    if a != [] {
      assert (a + [c] + r)[1..] == a[1..] + [c] + r;
      TakeUntilPrefix(a[1..], c, r);
    }
  }

  /** Two digit strings each followed by an `'x'` are equal when the whole
      strings are. */
  lemma DigitsBeforeX(a: string, b: string, r1: string, r2: string)
    requires Text.AllDigits(a) && Text.AllDigits(b)
    requires a + "x" + r1 == b + "x" + r2
    ensures a == b
  {
    TakeUntilPrefix(a, 'x', r1);
    TakeUntilPrefix(b, 'x', r2);
  }

  /** Distinct cell counts get distinct chessboard file names. */
  lemma {:induction false} ChessboardFilenameInjective(n: U32, m: U32)
    requires ChessboardFilename(n) == ChessboardFilename(m)
    ensures n == m
  {
    var a, b := Text.NatToDecimal(n), Text.NatToDecimal(m);
    var p := "chessboard_";
    var f, g := ChessboardFilename(n), ChessboardFilename(m);
    assert f[|p|..] == a + "x" + (a + ".png");
    assert g[|p|..] == b + "x" + (b + ".png");
    DigitsBeforeX(a, b, a + ".png", b + ".png");
    Text.DecimalRoundTrip(n);
    Text.DecimalRoundTrip(m);
  }
}
