/**
 * The image-to-character quantizer. The canvas has already resized the
 * image to `width` x `height` cells and handed back its RGBA bytes; each
 * cell becomes one glyph of the selected ramp, and every row, the last one
 * included, ends with a line break.
 *
 * Gray levels and the row count are exact reals here, where the program
 * computes them in double precision.
 */
module AsciiEngine {
  import opened Types

  /** One channel of the canvas's RGBA byte buffer. */
  type Byte = b: int | 0 <= b <= 255

  /** A character cell is taken to be 0.55 times as wide as it is tall. */
  const FontAspectRatio: real := 0.55

  /**
   * The failures of the conversion: the canvas has no 2D context, or the
   * grid has no rows, and reading back an empty canvas region fails.
   */
  datatype EngineError = CanvasContextUnavailable | ImageDataUnavailable

  datatype Result<T> = Success(value: T) | Failure(error: EngineError)

  // ---------------------------------------------------------------------
  // Grid shape
  // ---------------------------------------------------------------------

  /**
   * Row count of the output: floor(width * (imgHeight / imgWidth) * 0.55).
   * Nothing raises it to 1, so a wide enough image gets no rows at all.
   */
  function TargetHeight(width: int, imgWidth: int, imgHeight: int): (height: nat)
    requires width > 0 && imgWidth > 0 && imgHeight > 0
    ensures height as real <= width as real * (imgHeight as real / imgWidth as real) * FontAspectRatio
    ensures width as real * (imgHeight as real / imgWidth as real) * FontAspectRatio < height as real + 1.0
  {
    var ratio := imgHeight as real / imgWidth as real;
    assert ratio > 0.0;
    assert width as real * ratio > 0.0;
    (width as real * ratio * FontAspectRatio).Floor
  }

  /** The output is empty exactly when 11 * width * imgHeight < 20 * imgWidth. */
  lemma {:induction false} TargetHeightZero(width: int, imgWidth: int, imgHeight: int)
    requires width > 0 && imgWidth > 0 && imgHeight > 0
    ensures TargetHeight(width, imgWidth, imgHeight) == 0 <==> 11 * width * imgHeight < 20 * imgWidth
  {
    var w, iw, ih := width as real, imgWidth as real, imgHeight as real;
    var exact := w * (ih / iw) * FontAspectRatio;
    assert exact * (20.0 * iw) == 11.0 * w * ih;
    assert (11 * width * imgHeight) as real == 11.0 * w * ih;
    assert (20 * imgWidth) as real == 20.0 * iw;
    if exact >= 1.0 {
      assert exact * (20.0 * iw) >= 1.0 * (20.0 * iw);
    } else {
      assert exact * (20.0 * iw) < 1.0 * (20.0 * iw);
    }
  }

  /** Offset of the red channel of cell (i, j) in the row-major RGBA buffer. */
  function PixelOffset(width: nat, i: nat, j: nat): (offset: nat)
    ensures offset % 4 == 0
    ensures j < width ==> offset / 4 / width == i && offset / 4 % width == j
  {
    var cell := i * width + j;
    DivModUnique(cell * 4, 4, cell, 0);
    if j < width then
      DivModUnique(cell, width, i, j);
      cell * 4
    else
      cell * 4
  }

  /** Division with remainder is unique: k = q * d + r with 0 <= r < d fixes k / d and k % d. */
  lemma {:induction false} DivModUnique(k: int, d: int, q: int, r: int)
    requires d > 0 && 0 <= r < d && k == q * d + r
    ensures k / d == q && k % d == r
  {
    var q', r' := k / d, k % d;
    assert 0 <= r' < d;
    assert q' * d + r' == q * d + r;
    var delta := q' - q;
    assert delta * d == q' * d - q * d;
    assert delta * d == r - r';
    assert -d < delta * d < d;
    MultipleBound(delta, d);
  }

  /** A non-zero multiple of a positive d is at least d away from 0. */
  lemma {:induction false} MultipleBound(x: int, d: int)
    requires d > 0
    ensures x >= 1 ==> x * d >= d
    ensures x <= -1 ==> x * d <= -d
  {
    if x >= 1 {
      assert x * d == (x - 1) * d + d;
      assert (x - 1) * d >= 0;
    } else if x <= -1 {
      assert x * d == (x + 1) * d - d;
      assert (x + 1) * d <= 0;
    }
  }

  /** All four channel reads of an in-grid cell fall inside a `width * height * 4` buffer. */
  lemma {:induction false} PixelInBounds(width: nat, height: nat, i: nat, j: nat)
    requires i < height && j < width
    ensures PixelOffset(width, i, j) + 3 < width * height * 4
  {
    assert i * width + j < (i + 1) * width;
    assert (i + 1) * width <= height * width;
  }

  // ---------------------------------------------------------------------
  // One cell
  // ---------------------------------------------------------------------

  /** Luma with weights 0.299, 0.587 and 0.114, which sum to 1. */
  function Luma(r: Byte, g: Byte, b: Byte): (gray: real)
    ensures 0.0 <= gray <= 255.0
    ensures r == g == b ==> gray == r as real
  {
    r as real * 0.299 + g as real * 0.587 + b as real * 0.114
  }

  /** Contrast scales the distance from mid-gray 128; brightness is added afterwards. */
  function Adjust(gray: real, contrast: real, brightness: real): (adjusted: real)
    ensures gray == 128.0 ==> adjusted == 128.0 + brightness
    ensures contrast == 1.0 ==> adjusted == gray + brightness
    ensures contrast == 0.0 ==> adjusted == 128.0 + brightness
  {
    (gray - 128.0) * contrast + 128.0 + brightness
  }

  function Max(x: real, y: real): (m: real)
    ensures m >= x && m >= y && (m == x || m == y)
  {
    if x >= y then x else y
  }

  function Min(x: real, y: real): (m: real)
    ensures m <= x && m <= y && (m == x || m == y)
  {
    if x <= y then x else y
  }

  /** The gray level moved into [0, 255]: kept when inside, pinned to the nearer end otherwise. */
  function Clamp(gray: real): (c: real)
    ensures 0.0 <= c <= 255.0
    ensures 0.0 <= gray <= 255.0 ==> c == gray
    ensures gray < 0.0 ==> c == 0.0
    ensures gray > 255.0 ==> c == 255.0
  {
    Max(0.0, Min(255.0, gray))
  }

  /** The gray level the ramp lookup sees: adjusted, clamped, then optionally inverted. */
  function FinalGray(luma: real, opts: AsciiOptions): (gray: real)
    ensures 0.0 <= gray <= 255.0
  {
    var clamped := Clamp(Adjust(luma, opts.contrast, opts.brightness));
    if opts.inverted then 255.0 - clamped else clamped
  }

  /** (gray / 255) * (n - 1): the gray level rescaled to the ramp's index range. */
  function Scaled(gray: real, n: int): (x: real)
    requires 0.0 <= gray <= 255.0 && n >= 2
    ensures 0.0 <= x <= (n - 1) as real
  {
    var unit := gray / 255.0;
    assert unit * (n - 1) as real <= 1.0 * (n - 1) as real;
    unit * (n - 1) as real
  }

  /** floor((gray / 255) * (n - 1)): the step of the gray range, 0 .. n - 1, that `gray` falls in. */
  function CharIndex(gray: real, n: int): (k: int)
    requires 0.0 <= gray <= 255.0 && n >= 2
    ensures 0 <= k <= n - 1
    ensures k as real <= Scaled(gray, n) < k as real + 1.0
  {
    var x := Scaled(gray, n);
    var k := x.Floor;
    assert k as real <= x < k as real + 1.0;
    assert k as real <= (n - 1) as real;
    k
  }

  /**
   * The ramp position read for a final gray level: n - 1 - CharIndex. The
   * darkest level reads the last glyph, the brightest reads the first.
   */
  function RampPosition(gray: real, n: int): (p: int)
    requires 0.0 <= gray <= 255.0 && n >= 2
    ensures 0 <= p < n
    ensures gray == 0.0 ==> p == n - 1
    ensures gray == 255.0 ==> p == 0
  {
    n - 1 - CharIndex(gray, n)
  }

  /** The ramp position an opaque pixel selects under `opts`. */
  function OpaquePosition(r: Byte, g: Byte, b: Byte, opts: AsciiOptions, n: int): (p: nat)
    requires n >= 2
    ensures p < n
  {
    RampPosition(FinalGray(Luma(r, g, b), opts), n)
  }

  /**
   * The glyph of one cell. A fully transparent pixel is a blank whatever its
   * colour, the options or the ramp; any other pixel reads the ramp.
   */
  function CellChar(r: Byte, g: Byte, b: Byte, a: Byte, opts: AsciiOptions, ramp: string): (c: char)
    requires Ramp(ramp)
    ensures a == 0 ==> c == ' '
    ensures a != 0 ==> c == ramp[OpaquePosition(r, g, b, opts, |ramp|)]
    ensures c == ' ' || c in ramp
    ensures c != '\n'
  {
    if a == 0 then ' ' else ramp[OpaquePosition(r, g, b, opts, |ramp|)]
  }

  // ---------------------------------------------------------------------
  // Properties of one cell
  // ---------------------------------------------------------------------

  /** Inverting maps every final gray level g to 255 - g. */
  lemma InvertReflects(luma: real, opts: AsciiOptions)
    ensures FinalGray(luma, opts.(inverted := true)) == 255.0 - FinalGray(luma, opts.(inverted := false))
  {
  }

  /**
   * A pixel whose adjusted gray clamps to the bottom reads the last glyph
   * without inversion and the first with it; one that clamps to the top
   * does the opposite.
   */
  lemma {:induction false} ExtremesSwapUnderInversion(r: Byte, g: Byte, b: Byte, opts: AsciiOptions, n: int)
    requires n >= 2
    ensures var adjusted := Adjust(Luma(r, g, b), opts.contrast, opts.brightness);
      && (adjusted <= 0.0 ==> OpaquePosition(r, g, b, opts, n) == if opts.inverted then 0 else n - 1)
      && (adjusted >= 255.0 ==> OpaquePosition(r, g, b, opts, n) == if opts.inverted then n - 1 else 0)
  {
    var adjusted := Adjust(Luma(r, g, b), opts.contrast, opts.brightness);
    if adjusted <= 0.0 {
      assert Clamp(adjusted) == 0.0;
    }
    if adjusted >= 255.0 {
      assert Clamp(adjusted) == 255.0;
    }
  }

  lemma AdjustMonotone(g1: real, g2: real, contrast: real, brightness: real)
    requires g1 <= g2 && contrast >= 0.0
    ensures Adjust(g1, contrast, brightness) <= Adjust(g2, contrast, brightness)
  {
    assert (g1 - 128.0) * contrast <= (g2 - 128.0) * contrast;
  }

  lemma ClampMonotone(x: real, y: real)
    requires x <= y
    ensures Clamp(x) <= Clamp(y)
  {
  }

  /** A brighter final gray never selects a later ramp position. */
  lemma {:induction false} RampPositionAntitone(g1: real, g2: real, n: int)
    requires 0.0 <= g1 <= g2 <= 255.0 && n >= 2
    ensures RampPosition(g2, n) <= RampPosition(g1, n)
  {
    var m := (n - 1) as real;
    assert g1 / 255.0 <= g2 / 255.0;
    assert g1 / 255.0 * m <= g2 / 255.0 * m;
    assert Scaled(g1, n) <= Scaled(g2, n);
    var k1, k2 := CharIndex(g1, n), CharIndex(g2, n);
    assert k1 as real < k2 as real + 1.0;
  }

  /**
   * Monotonicity for a fixed non-negative contrast and brightness: among
   * opaque pixels, larger luma never selects a later ramp position; with
   * inversion on, it never selects an earlier one.
   */
  lemma {:induction false} BrighterNeverLater(r1: Byte, g1: Byte, b1: Byte, r2: Byte, g2: Byte, b2: Byte, opts: AsciiOptions, n: int)
    requires opts.contrast >= 0.0 && n >= 2
    requires Luma(r1, g1, b1) <= Luma(r2, g2, b2)
    ensures !opts.inverted ==> OpaquePosition(r2, g2, b2, opts, n) <= OpaquePosition(r1, g1, b1, opts, n)
    ensures opts.inverted ==> OpaquePosition(r1, g1, b1, opts, n) <= OpaquePosition(r2, g2, b2, opts, n)
  {
    var a1 := Adjust(Luma(r1, g1, b1), opts.contrast, opts.brightness);
    var a2 := Adjust(Luma(r2, g2, b2), opts.contrast, opts.brightness);
    AdjustMonotone(Luma(r1, g1, b1), Luma(r2, g2, b2), opts.contrast, opts.brightness);
    ClampMonotone(a1, a2);
    if opts.inverted {
      RampPositionAntitone(255.0 - Clamp(a2), 255.0 - Clamp(a1), n);
    } else {
      RampPositionAntitone(Clamp(a1), Clamp(a2), n);
    }
  }

  /**
   * Inversion is not an exact mirror of the ramp positions: because of the
   * floor, the positions for g and 255 - g add up to n - 1 when
   * g / 255 * (n - 1) is a whole number and to n otherwise.
   */
  lemma {:induction false} InvertedPositionNearMirror(gray: real, n: int)
    requires 0.0 <= gray <= 255.0 && n >= 2
    ensures var sum := RampPosition(gray, n) + RampPosition(255.0 - gray, n);
      && (sum == n - 1 || sum == n)
      && (sum == n - 1 <==> Scaled(gray, n).Floor as real == Scaled(gray, n))
  {
    var m := (n - 1) as real;
    var x, y := Scaled(gray, n), Scaled(255.0 - gray, n);
    assert (255.0 - gray) / 255.0 * m == m - gray / 255.0 * m;
    assert y == m - x;
    var k0, k1 := CharIndex(gray, n), CharIndex(255.0 - gray, n);
    assert k0 == x.Floor;
    assert k0 as real <= x < k0 as real + 1.0;
    assert k1 as real <= m - x < k1 as real + 1.0;
    assert (k0 + k1) as real <= m;
    assert m < (k0 + k1) as real + 2.0;
  }

  // ---------------------------------------------------------------------
  // The whole grid
  // ---------------------------------------------------------------------

  /** The glyph of cell (i, j), read from the row-major buffer. */
  function CellAt(pixels: seq<Byte>, width: nat, height: nat, i: nat, j: nat, opts: AsciiOptions, ramp: string): (c: char)
    requires |pixels| == width * height * 4 && i < height && j < width && Ramp(ramp)
    ensures c != '\n'
  {
    PixelInBounds(width, height, i, j);
    var offset := PixelOffset(width, i, j);
    CellChar(pixels[offset], pixels[offset + 1], pixels[offset + 2], pixels[offset + 3], opts, ramp)
  }

  /** The glyphs of columns 0 .. n - 1 of row i. */
  function Cells(pixels: seq<Byte>, width: nat, height: nat, i: nat, n: nat, opts: AsciiOptions, ramp: string): (row: string)
    requires |pixels| == width * height * 4 && i < height && n <= width && Ramp(ramp)
    ensures |row| == n
    decreases n
  {
    if n == 0 then []
    else Cells(pixels, width, height, i, n - 1, opts, ramp) + [CellAt(pixels, width, height, i, n - 1, opts, ramp)]
  }

  /** Column j of a row is the glyph of cell (i, j). */
  lemma {:induction false} CellsAt(pixels: seq<Byte>, width: nat, height: nat, i: nat, n: nat, opts: AsciiOptions, ramp: string, j: nat)
    requires |pixels| == width * height * 4 && i < height && j < n <= width && Ramp(ramp)
    ensures Cells(pixels, width, height, i, n, opts, ramp)[j] == CellAt(pixels, width, height, i, j, opts, ramp)
  {
    if j < n - 1 {
      CellsAt(pixels, width, height, i, n - 1, opts, ramp, j);
    }
  }

  /** The character grid: row i holds the glyphs of cells (i, 0) .. (i, width - 1). */
  function Grid(pixels: seq<Byte>, width: nat, height: nat, opts: AsciiOptions, ramp: string): (grid: seq<string>)
    requires |pixels| == width * height * 4 && Ramp(ramp)
    ensures |grid| == height && Rectangular(grid, width)
  {
    seq(height, i requires 0 <= i < height => Cells(pixels, width, height, i, width, opts, ramp))
  }

  // ---------------------------------------------------------------------
  // The text of a grid
  // ---------------------------------------------------------------------

  /** The rows in order, each of them followed by one line break, the last row included. */
  function Serialize(rows: seq<string>): (text: string)
    ensures text == [] <==> rows == []
    ensures rows != [] ==> text[|text| - 1] == '\n'
  {
    if rows == [] then [] else Serialize(rows[..|rows| - 1]) + rows[|rows| - 1] + "\n"
  }

  /** True when every row has exactly `width` characters. */
  predicate Rectangular(rows: seq<string>, width: nat)
  {
    forall i :: 0 <= i < |rows| ==> |rows[i]| == width
  }

  /** Rows of `width` characters take `width + 1` characters each in the text. */
  lemma {:induction false} SerializeLength(rows: seq<string>, width: nat)
    requires Rectangular(rows, width)
    ensures |Serialize(rows)| == |rows| * (width + 1)
  {
    if rows != [] {
      var k := |rows| - 1;
      SerializeLength(rows[..k], width);
      assert |rows[k]| == width;
      assert k * (width + 1) + width + 1 == |rows| * (width + 1);
    }
  }

  /** The text of the first k rows is a prefix of the text of all of them. */
  lemma {:induction false} SerializePrefix(rows: seq<string>, k: nat)
    requires k <= |rows|
    ensures Serialize(rows[..k]) <= Serialize(rows)
  {
    if k < |rows| {
      var last := |rows| - 1;
      SerializePrefix(rows[..last], k);
      assert rows[..last][..k] == rows[..k];
      var short, mid, full := Serialize(rows[..k]), Serialize(rows[..last]), Serialize(rows);
      assert full == mid + (rows[last] + "\n");
      assert short == mid[..|short|];
      assert mid == full[..|mid|];
      assert short == full[..|short|];
    } else {
      assert rows[..k] == rows;
    }
  }

  /**
   * In the text of rectangular rows, column j of line i is character j of
   * row i for j < width and the line break for j == width.
   */
  lemma {:induction false} SerializeAt(rows: seq<string>, width: nat, i: nat, j: nat)
    requires Rectangular(rows, width) && i < |rows| && j <= width
    ensures i * (width + 1) + j < |Serialize(rows)|
    ensures Serialize(rows)[i * (width + 1) + j] == if j < width then rows[i][j] else '\n'
  {
    var before, through := rows[..i], rows[..i + 1];
    assert through[..i] == before;
    assert Serialize(through) == Serialize(before) + rows[i] + "\n";
    SerializePrefix(rows, i + 1);
    SerializeLength(before, width);
    SerializeLength(through, width);
    SerializeLength(rows, width);
    assert (i + 1) * (width + 1) <= |rows| * (width + 1);
    assert Serialize(rows)[i * (width + 1) + j] == Serialize(through)[i * (width + 1) + j];
  }

  /** A text built from rows over `alphabet` holds nothing but their characters and line breaks. */
  lemma {:induction false} SerializeChars(rows: seq<string>, alphabet: set<char>)
    requires forall i, k :: 0 <= i < |rows| && 0 <= k < |rows[i]| ==> rows[i][k] in alphabet
    ensures forall k :: 0 <= k < |Serialize(rows)| ==> Serialize(rows)[k] in alphabet + {'\n'}
  {
    if rows != [] {
      var last := |rows| - 1;
      SerializeChars(rows[..last], alphabet);
      var head := Serialize(rows[..last]);
      var text := Serialize(rows);
      assert text == head + rows[last] + "\n";
      forall k | 0 <= k < |text|
        ensures text[k] in alphabet + {'\n'}
      {
        if k < |head| {
          assert text[k] == head[k];
        } else if k < |head| + |rows[last]| {
          assert text[k] == rows[last][k - |head|];
        }
      }
    }
  }

  // ---------------------------------------------------------------------
  // The text of the image
  // ---------------------------------------------------------------------

  /** The text has one line per grid row: height * (width + 1) characters in all. */
  lemma RenderLength(pixels: seq<Byte>, width: nat, height: nat, opts: AsciiOptions, ramp: string)
    requires |pixels| == width * height * 4 && Ramp(ramp)
    ensures |Serialize(Grid(pixels, width, height, opts, ramp))| == height * (width + 1)
  {
    SerializeLength(Grid(pixels, width, height, opts, ramp), width);
  }

  /**
   * Column j of line i of the text is the glyph of cell (i, j) for
   * j < width and the line break for j == width; glyphs are never line
   * breaks, so the text is exactly `height` lines of `width` glyphs.
   */
  lemma RenderAt(pixels: seq<Byte>, width: nat, height: nat, opts: AsciiOptions, ramp: string, i: nat, j: nat)
    requires |pixels| == width * height * 4 && Ramp(ramp) && i < height && j <= width
    ensures i * (width + 1) + j < |Serialize(Grid(pixels, width, height, opts, ramp))|
    ensures Serialize(Grid(pixels, width, height, opts, ramp))[i * (width + 1) + j]
         == if j < width then CellAt(pixels, width, height, i, j, opts, ramp) else '\n'
  {
    var grid := Grid(pixels, width, height, opts, ramp);
    SerializeAt(grid, width, i, j);
    if j < width {
      CellsAt(pixels, width, height, i, width, opts, ramp, j);
    }
  }

  /** The text uses no character other than a blank, a line break and the ramp's glyphs. */
  lemma RenderChars(pixels: seq<Byte>, width: nat, height: nat, opts: AsciiOptions, ramp: string)
    requires |pixels| == width * height * 4 && Ramp(ramp)
    ensures var text := Serialize(Grid(pixels, width, height, opts, ramp));
      forall k :: 0 <= k < |text| ==> text[k] == ' ' || text[k] == '\n' || text[k] in ramp
  {
    var grid := Grid(pixels, width, height, opts, ramp);
    var alphabet := set c | c in ramp || c == ' ';
    forall i, k | 0 <= i < |grid| && 0 <= k < |grid[i]|
      ensures grid[i][k] in alphabet
    {
      CellsAt(pixels, width, height, i, width, opts, ramp, k);
    }
    SerializeChars(grid, alphabet);
  }

  // ---------------------------------------------------------------------
  // The conversion
  // ---------------------------------------------------------------------

  /**
   * The body of the pixel loop for one cell, step by step: the alpha check,
   * luma, contrast and brightness, clamp, inversion, and the ramp lookup
   * read from the end of `charSet`.
   */
  method Glyph(r: Byte, g: Byte, b: Byte, a: Byte, options: AsciiOptions, charSet: string, charSetLen: int) returns (c: char)
    requires Ramp(charSet) && charSetLen == |charSet|
    ensures c == CellChar(r, g, b, a, options, charSet)
  {
    if a == 0 {
      return ' ';
    }
    var gray := r as real * 0.299 + g as real * 0.587 + b as real * 0.114;
    ghost var luma := gray;
    gray := (gray - 128.0) * options.contrast + 128.0 + options.brightness;
    assert gray == Adjust(luma, options.contrast, options.brightness);
    gray := Max(0.0, Min(255.0, gray));
    assert gray == Clamp(Adjust(luma, options.contrast, options.brightness));
    if options.inverted {
      gray := 255.0 - gray;
    }
    assert gray == FinalGray(Luma(r, g, b), options);
    var charIndex := (gray / 255.0 * (charSetLen - 1) as real).Floor;
    assert charIndex == CharIndex(gray, charSetLen);
    c := charSet[charSetLen - 1 - charIndex];
  }

  /**
   * One pass of the outer pixel loop: appends the glyphs of row i, column
   * by column, and then the row's line break.
   */
  method AppendRow(asciiStr: string, pixels: seq<Byte>, width: nat, height: nat, i: nat, options: AsciiOptions,
                   charSet: string, charSetLen: int)
    returns (extended: string)
    requires |pixels| == width * height * 4 && i < height && Ramp(charSet) && charSetLen == |charSet|
    ensures extended == asciiStr + Cells(pixels, width, height, i, width, options, charSet) + "\n"
  {
    extended := asciiStr;
    for j := 0 to width
      invariant extended == asciiStr + Cells(pixels, width, height, i, j, options, charSet)
    {
      var offset := (i * width + j) * 4;
      PixelInBounds(width, height, i, j);
      var c := Glyph(pixels[offset], pixels[offset + 1], pixels[offset + 2], pixels[offset + 3], options, charSet, charSetLen);
      assert c == CellAt(pixels, width, height, i, j, options, charSet);
      extended := extended + [c];
    }
    extended := extended + "\n";
  }

  /**
   * The conversion of a resized image. `hasContext` says whether the canvas
   * provided a 2D context; `pixels` is the RGBA buffer the canvas produced
   * for the computed grid. A grid of no rows fails, since reading back a
   * region of height 0 from the canvas fails. Otherwise the text is the
   * grid row by row, each row followed by a line break, drawn with the ramp
   * `options.charSet` names.
   */
  method ProcessImage(hasContext: bool, imgWidth: int, imgHeight: int, pixels: seq<Byte>, options: AsciiOptions)
    returns (result: Result<string>)
    requires options.width > 0 && imgWidth > 0 && imgHeight > 0
    requires |pixels| == options.width * TargetHeight(options.width, imgWidth, imgHeight) * 4
    ensures !hasContext ==> result == Failure(CanvasContextUnavailable)
    ensures hasContext ==> (result.Failure? <==> 11 * options.width * imgHeight < 20 * imgWidth)
    ensures hasContext && result.Failure? ==> result.error == ImageDataUnavailable
    ensures result.Success? ==> var height := TargetHeight(options.width, imgWidth, imgHeight);
      && result.value == Serialize(Grid(pixels, options.width, height, options, CharSet(options.charSet)))
      && |result.value| == height * (options.width + 1)
      && result.value != []
  {
    if !hasContext {
      return Failure(CanvasContextUnavailable);
    }
    var width: nat := options.width;
    var height := TargetHeight(width, imgWidth, imgHeight);
    TargetHeightZero(width, imgWidth, imgHeight);
    if height == 0 {
      return Failure(ImageDataUnavailable);
    }

    var asciiStr := "";
    var charSet := CharSet(options.charSet);
    var charSetLen := |charSet|;

    ghost var grid := Grid(pixels, width, height, options, charSet);
    for i := 0 to height
      invariant asciiStr == Serialize(grid[..i])
    {
      asciiStr := AppendRow(asciiStr, pixels, width, height, i, options, charSet, charSetLen);
      assert grid[..i + 1][..i] == grid[..i];
    }
    assert grid[..height] == grid;
    RenderLength(pixels, width, height, options, charSet);
    return Success(asciiStr);
  }

  /**
   * An opaque pixel whose adjusted gray clamps to the bottom reads the blank
   * at the end of the ramp, or the ramp's first glyph when inverted; one
   * whose adjusted gray clamps to the top does the opposite.
   */
  lemma {:induction false} ClampedGlyphs(r: Byte, g: Byte, b: Byte, a: Byte, opts: AsciiOptions, ramp: string)
    requires a != 0 && Ramp(ramp)
    ensures var adjusted := Adjust(Luma(r, g, b), opts.contrast, opts.brightness);
      && (adjusted <= 0.0 ==> CellChar(r, g, b, a, opts, ramp) == if opts.inverted then ramp[0] else ' ')
      && (adjusted >= 255.0 ==> CellChar(r, g, b, a, opts, ramp) == if opts.inverted then ' ' else ramp[0])
  {
    ExtremesSwapUnderInversion(r, g, b, opts, |ramp|);
  }

  /** True when cell k of the buffer is the opaque pixel (v, v, v, 255). */
  predicate OpaqueGray(pixels: seq<Byte>, k: nat, v: Byte)
  {
    4 * k + 3 < |pixels| && pixels[4 * k] == v && pixels[4 * k + 1] == v && pixels[4 * k + 2] == v && pixels[4 * k + 3] == 255
  }

  /**
   * A two-cell grid, opaque black then opaque white, under neutral
   * contrast and brightness: black reads the blank at the end of the ramp
   * and white its first glyph, so with the "#. " ramp the text is " #" and
   * a line break; with inversion it is "# ".
   */
  lemma {:induction false} BlackWhiteRow(pixels: seq<Byte>, opts: AsciiOptions, ramp: string)
    requires |pixels| == 8 && OpaqueGray(pixels, 0, 0) && OpaqueGray(pixels, 1, 255)
    requires opts.contrast == 1.0 && opts.brightness == 0.0 && Ramp(ramp)
    ensures Serialize(Grid(pixels, 2, 1, opts, ramp)) == if opts.inverted then [ramp[0], ' ', '\n'] else [' ', ramp[0], '\n']
  {
    TwoCellText(pixels, opts, ramp);
    assert pixels[0] == 0 && pixels[1] == 0 && pixels[2] == 0 && pixels[3] == 255;
    assert pixels[4] == 255 && pixels[5] == 255 && pixels[6] == 255 && pixels[7] == 255;
    var black := CellChar(pixels[0], pixels[1], pixels[2], pixels[3], opts, ramp);
    var white := CellChar(pixels[4], pixels[5], pixels[6], pixels[7], opts, ramp);
    assert black == CellChar(0, 0, 0, 255, opts, ramp);
    assert white == CellChar(255, 255, 255, 255, opts, ramp);
    NeutralExtremes(opts);
    ClampedGlyphs(0, 0, 0, 255, opts, ramp);
    ClampedGlyphs(255, 255, 255, 255, opts, ramp);
    assert black == if opts.inverted then ramp[0] else ' ';
    assert white == if opts.inverted then ' ' else ramp[0];
  }

  /** The text of a two-cell grid: the glyphs of its two pixels and a line break. */
  lemma TwoCellText(pixels: seq<Byte>, opts: AsciiOptions, ramp: string)
    requires |pixels| == 8 && Ramp(ramp)
    ensures Serialize(Grid(pixels, 2, 1, opts, ramp))
         == [CellChar(pixels[0], pixels[1], pixels[2], pixels[3], opts, ramp),
             CellChar(pixels[4], pixels[5], pixels[6], pixels[7], opts, ramp), '\n']
  {
    var row := Cells(pixels, 2, 1, 0, 2, opts, ramp);
    assert row == [CellAt(pixels, 2, 1, 0, 0, opts, ramp), CellAt(pixels, 2, 1, 0, 1, opts, ramp)];
    assert Grid(pixels, 2, 1, opts, ramp) == [row];
    assert Serialize([row]) == row + "\n";
  }

  /** Under neutral contrast and brightness black adjusts to 0 and white to 255. */
  lemma NeutralExtremes(opts: AsciiOptions)
    requires opts.contrast == 1.0 && opts.brightness == 0.0
    ensures Adjust(Luma(0, 0, 0), opts.contrast, opts.brightness) == 0.0
    ensures Adjust(Luma(255, 255, 255), opts.contrast, opts.brightness) == 255.0
  {
    assert Luma(0, 0, 0) == 0.0 && Luma(255, 255, 255) == 255.0;
  }

  /** A 2 x 2 image rendered two columns wide has one row. */
  lemma SquareHeight()
    ensures TargetHeight(2, 2, 2) == 1
  {
  }
}
