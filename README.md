# Spring Boot banner generator: the image quantizer, the ramp table and the slogan line

This project models the computational core of a banner generator in Dafny. The generator turns a picture into ASCII art for a Spring Boot `banner.txt`, and proves properties of that model. It covers three pieces of the program:

- **`types.dfy`, module `Types`** models the enum of ramp names, the option record and the `CHAR_SETS` table of character ramps.
- **`ascii_engine.dfy`, module `AsciiEngine`** models `processImage`. It takes the RGBA buffer of the already resized image. For each cell it produces one glyph, and every row ends with a line break.
  - The row count is `floor(width * (imgHeight / imgWidth) * 0.55)`.
  - A pixel with alpha 0 is a blank.
  - Any other pixel goes through the following steps: luma with weights 0.299, 0.587 and 0.114; `(gray - 128) * contrast + 128 + brightness`; a clamp to [0, 255]; optional inversion `255 - gray`; then the glyph `charSet[len - 1 - floor(gray / 255 * (len - 1))]`.
  - The method `ProcessImage` keeps the two nested loops and the string accumulator of the program. `AppendRow` is one pass of the outer loop and `Glyph` is one pass of the inner loop. Each is proved equal to a pure specification:
    - `CellChar` gives the glyph of one pixel;
    - `Grid` gives the rows of glyphs;
    - `Serialize` gives each row followed by a line break.
  - Lemmas about that specification give the shape of the text, the range of the ramp index, the direction of the mapping, monotonicity in brightness, and what inversion does.
- **`banner.dfy`, module `Banner`** models the text that the copy and download handlers build. An empty slogan leaves the art untouched. Otherwise the text is the art, a line break, and the slogan indented by `max(0, floor(width / 2) - floor(len / 2))` blanks. Both handlers use the same expression (`App.tsx` lines 144 and 151), so one function `BannerText` models both, and they agree by construction.

Facts about the code that the model keeps as they are, each with the member that proves it:

- **Direction.** Final gray 0 selects the ramp's **last** glyph and final gray 255 selects `charSet[0]`. In every shipped ramp the last glyph is a blank, so black renders as a blank (`RampPosition`, `ExtremesSwapUnderInversion`, `ClampedGlyphs`).
- **No minimum height.** Nothing raises the row count to 1. The row count is 0 exactly when `11 * width * imgHeight < 20 * imgWidth` (`TargetHeightZero`). Reading back a canvas region of height 0 fails, so such an image ends in the error `ImageDataUnavailable` rather than in an empty text (`ProcessImage`).
- **Errors.** The code validates none of the options. It fails only when the canvas has no 2D context (`CanvasContextUnavailable`) or when the grid has no rows (`ImageDataUnavailable`).
- **Line breaks.** Every row, the last one included, is followed by exactly one line break (`Serialize`, `RenderAt`).
- **Inversion is not an exact mirror.** Because of the floor, the ramp positions for `g` and `255 - g` add up to `n - 1` when `g / 255 * (n - 1)` is whole, and to `n` otherwise (`InvertedPositionNearMirror`).
- **Black and white.** With the ramp `"#. "` and neutral options, a row of opaque black then opaque white renders as `" #\n"`, and as `"# \n"` with inversion (`BlackWhiteRow`).

## Model

| member | source | states |
|---|---|---|
| `Types.CharSetName` | spring-boot-banner-gen/types.ts:1-6 | each enum member carries a non-empty string value, its own name |
| `Types.CharSetNamesDistinct` | spring-boot-banner-gen/types.ts:1-6 | two members carry the same string exactly when they are the same member |
| `Types.CharSet` | spring-boot-banner-gen/types.ts:21-26 | the table has a ramp for each of the four members, and every ramp has at least two glyphs, ends in a blank and holds no line break |
| `Types.RampContents` | spring-boot-banner-gen/types.ts:22-25 | SIMPLE is exactly `#. `, STANDARD is exactly `@%#*+=-:. `, BLOCK is exactly the four shade blocks and a blank; COMPLEX has 70 glyphs, starts with `$`, and its escapes unescape to one backslash (position 41) and one quote (position 67) |
| `AsciiEngine.TargetHeight` | spring-boot-banner-gen/services/asciiEngine.ts:95-97 | the row count is the floor of `width * (imgHeight / imgWidth) * 0.55`, with no minimum |
| `AsciiEngine.TargetHeightZero` | spring-boot-banner-gen/services/asciiEngine.ts:95-97 | there are no rows exactly when `11 * width * imgHeight < 20 * imgWidth` |
| `AsciiEngine.SquareHeight` | spring-boot-banner-gen/services/asciiEngine.ts:97 | a 2 x 2 image rendered 2 columns wide has one row |
| `AsciiEngine.PixelOffset` | spring-boot-banner-gen/services/asciiEngine.ts:115 | the offset of cell (i, j) is a multiple of 4, and for j < width it decodes back to row i and column j, so distinct cells read distinct pixels |
| `AsciiEngine.PixelInBounds` | spring-boot-banner-gen/services/asciiEngine.ts:115-119 | the four channel reads at `(i * width + j) * 4 + 0..3` of an in-grid cell fall inside a `width * height * 4` buffer |
| `AsciiEngine.CellAt` | spring-boot-banner-gen/services/asciiEngine.ts:115-119 | cell (i, j) reads its glyph from its own row-major offset, and it is never a line break |
| `AsciiEngine.Luma` | spring-boot-banner-gen/services/asciiEngine.ts:128 | luma lies in [0, 255], and a pixel with equal channels has that channel as its luma |
| `AsciiEngine.Adjust` | spring-boot-banner-gen/services/asciiEngine.ts:133-134 | mid-gray 128 moves only by the brightness; contrast 1 only adds the brightness; contrast 0 sends every level to 128 plus the brightness |
| `AsciiEngine.Max` | spring-boot-banner-gen/services/asciiEngine.ts:137 | the larger of the two arguments |
| `AsciiEngine.Min` | spring-boot-banner-gen/services/asciiEngine.ts:137 | the smaller of the two arguments |
| `AsciiEngine.Clamp` | spring-boot-banner-gen/services/asciiEngine.ts:137 | the result lies in [0, 255]; a level inside is kept, one below becomes 0 and one above becomes 255 |
| `AsciiEngine.FinalGray` | spring-boot-banner-gen/services/asciiEngine.ts:128-142 | the level the lookup sees stays in [0, 255] after the clamp and after the inversion |
| `AsciiEngine.Scaled` | spring-boot-banner-gen/services/asciiEngine.ts:145 | the rescaled level lies in [0, len - 1] |
| `AsciiEngine.CharIndex` | spring-boot-banner-gen/services/asciiEngine.ts:145 | the index lies in [0, len - 1] and is the floor of the rescaled level |
| `AsciiEngine.RampPosition` | spring-boot-banner-gen/services/asciiEngine.ts:145-146 | `len - 1 - index` is a valid ramp index; final gray 0 reads the last glyph and final gray 255 reads the first |
| `AsciiEngine.OpaquePosition` | spring-boot-banner-gen/services/asciiEngine.ts:128-146 | an opaque pixel selects a valid ramp position |
| `AsciiEngine.CellChar` | spring-boot-banner-gen/services/asciiEngine.ts:122-146 | alpha 0 gives a blank whatever the colour, options or ramp; any other alpha gives the ramp glyph at the pixel's position; the glyph is a blank or a ramp glyph, never a line break |
| `AsciiEngine.InvertReflects` | spring-boot-banner-gen/services/asciiEngine.ts:140-142 | inversion maps each final level g to 255 - g |
| `AsciiEngine.ExtremesSwapUnderInversion` | spring-boot-banner-gen/services/asciiEngine.ts:134-146 | a pixel clamped to the bottom reads the last position, or the first when inverted; one clamped to the top does the opposite |
| `AsciiEngine.AdjustMonotone` | spring-boot-banner-gen/services/asciiEngine.ts:134 | with non-negative contrast, the adjustment preserves order |
| `AsciiEngine.ClampMonotone` | spring-boot-banner-gen/services/asciiEngine.ts:137 | the clamp preserves order |
| `AsciiEngine.RampPositionAntitone` | spring-boot-banner-gen/services/asciiEngine.ts:145-146 | a brighter final level never selects a later ramp position |
| `AsciiEngine.BrighterNeverLater` | spring-boot-banner-gen/services/asciiEngine.ts:128-146 | for fixed contrast >= 0 and brightness, larger luma never selects a later position without inversion, and never an earlier one with it |
| `AsciiEngine.InvertedPositionNearMirror` | spring-boot-banner-gen/services/asciiEngine.ts:140-146 | the positions for g and 255 - g add up to len - 1 or len, and to len - 1 exactly when the rescaled level is whole |
| `AsciiEngine.ClampedGlyphs` | spring-boot-banner-gen/services/asciiEngine.ts:122-146 | an opaque pixel clamped to black reads the ramp's final blank, or its first glyph when inverted; one clamped to white does the opposite |
| `AsciiEngine.Cells` | spring-boot-banner-gen/services/asciiEngine.ts:114-147 | the first n cells of a row give n glyphs |
| `AsciiEngine.CellsAt` | spring-boot-banner-gen/services/asciiEngine.ts:114-147 | column j of a row is the glyph of cell (i, j) |
| `AsciiEngine.Grid` | spring-boot-banner-gen/services/asciiEngine.ts:113-147 | the grid the nested loops visit has `height` rows of exactly `width` glyphs each; row i is the glyphs of cells (i, 0) .. (i, width - 1) |
| `AsciiEngine.Serialize` | spring-boot-banner-gen/services/asciiEngine.ts:148 | each row is followed by one line break: the text is empty exactly when there are no rows, and otherwise it ends in a line break |
| `AsciiEngine.SerializeLength` | spring-boot-banner-gen/services/asciiEngine.ts:113-149 | rows of `width` glyphs take `width + 1` characters each in the text |
| `AsciiEngine.SerializePrefix` | spring-boot-banner-gen/services/asciiEngine.ts:109-149 | the text of the first k rows is a prefix of the whole text, so the accumulator only ever grows at its end |
| `AsciiEngine.SerializeAt` | spring-boot-banner-gen/services/asciiEngine.ts:113-149 | column j of line i is character j of row i for j < width, and the line break for j = width |
| `AsciiEngine.SerializeChars` | spring-boot-banner-gen/services/asciiEngine.ts:146-148 | the text holds only the rows' characters and line breaks |
| `AsciiEngine.RenderLength` | spring-boot-banner-gen/services/asciiEngine.ts:113-149 | the output has `height * (width + 1)` characters |
| `AsciiEngine.RenderAt` | spring-boot-banner-gen/services/asciiEngine.ts:113-149 | character `i * (width + 1) + j` of the output is the glyph of cell (i, j) for j < width and a line break for j = width: exactly `height` rows of `width` glyphs, each ended by one line break |
| `AsciiEngine.RenderChars` | spring-boot-banner-gen/services/asciiEngine.ts:123-148 | every output character is a blank, a line break or a glyph of the selected ramp |
| `AsciiEngine.Glyph` | spring-boot-banner-gen/services/asciiEngine.ts:115-146 | the step-by-step computation for one pixel gives the glyph `CellChar` specifies |
| `AsciiEngine.AppendRow` | spring-boot-banner-gen/services/asciiEngine.ts:114-148 | one pass of the outer loop appends row i's glyphs and one line break to the accumulator |
| `AsciiEngine.ProcessImage` | spring-boot-banner-gen/services/asciiEngine.ts:85-152 | without a canvas context the result is the canvas error; with one, it fails exactly when `11 * width * imgHeight < 20 * imgWidth` (no rows, so reading back the image data fails), and otherwise it is the serialized grid, non-empty and of length `height * (width + 1)` |
| `AsciiEngine.NeutralExtremes` | spring-boot-banner-gen/services/asciiEngine.ts:128-134 | with contrast 1 and brightness 0, black adjusts to 0 and white to 255 |
| `AsciiEngine.TwoCellText` | spring-boot-banner-gen/services/asciiEngine.ts:113-149 | a one-row, two-column grid renders as the glyphs of its two pixels and a line break |
| `AsciiEngine.BlackWhiteRow` | spring-boot-banner-gen/services/asciiEngine.ts:113-149 | opaque black then opaque white, with neutral options, renders as a blank, the ramp's first glyph and a line break (`" #\n"` with `#. `); inversion swaps the two glyphs |
| `Banner.Spaces` | spring-boot-banner-gen/App.tsx:144 | the repeated blank has the requested length and nothing but blanks |
| `Banner.Indent` | spring-boot-banner-gen/App.tsx:144 | the indent is `max(0, floor(width / 2) - floor(len / 2))`: never negative, at least the difference of the halves, and never more than half the width |
| `Banner.BannerText` | spring-boot-banner-gen/App.tsx:144 | the text length is that of the art alone, or of the art plus one line break, the indent and the slogan |
| `Banner.IndentCentres` | spring-boot-banner-gen/App.tsx:144 | when half the slogan fits in half the width, indent plus half the slogan equals half the width; otherwise the indent is 0 |
| `Banner.BannerTextParts` | spring-boot-banner-gen/App.tsx:144 | the art is a prefix of the text; an empty slogan gives the art alone; otherwise one line break, then only blanks for the indent, then the slogan, which ends the text |
| `Banner.SloganIsLastLine` | spring-boot-banner-gen/App.tsx:144 | a slogan without line breaks is the text's last line: no line break follows the art |

## Left out

- Reading the file, decoding the image, `convertImageToAscii` and its callbacks (asciiEngine.ts lines 60-83): browser input and output. The model starts from the decoded image's dimensions.
- Creating the canvas and `drawImage` resampling (asciiEngine.ts lines 86-107): a browser facility. The RGBA buffer the canvas returns is an input of `ProcessImage`, with the length `width * height * 4` that `getImageData` returns for a region with at least one row; for a region with no rows `getImageData` fails, and `ProcessImage` returns `ImageDataUnavailable`. Whether a 2D context exists is the input `hasContext`.
- `loadFont`, `generateFigletAscii` and the font cache (asciiEngine.ts lines 5-55): a network fetch and the third-party FIGlet renderer.
- The generative-AI client `geminiService.ts` is not part of this model. It is a network client.
- The React state, tabs, drag and drop, debounced re-runs, clipboard write and Blob download in `App.tsx`: these are UI, timers and browser effects. Only the text those handlers build is modelled.
- Floating point: gray levels and the row count are exact reals, where the program uses IEEE-754 doubles. A case where `Math.floor` of a rounded double product differs from the floor of the exact value is not captured.
- Invalid inputs: the code does not guard against them. A non-positive or fractional `width`, non-positive image dimensions, and NaN or infinite contrast or brightness are excluded by preconditions or by the types (`width` is an integer, contrast and brightness are reals). They are not modelled as errors.
- String length: JavaScript counts a slogan's length in UTF-16 code units, while the model counts characters. They differ only for characters outside the Basic Multilingual Plane. Every ramp glyph is inside it, so the ramp lengths agree.
- The loop body of `processImage` is split into the methods `Glyph` (one cell) and `AppendRow` (one row) so that each loop is proved on its own. They hold the same statements in the same order, except that `charSetLen` is computed once in `ProcessImage` and passed down, as the program computes it once before the loops.
