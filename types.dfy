/**
 * The option record and the character-ramp table of the banner generator.
 * A ramp is authored from the glyph with the most ink to the blank glyph;
 * the quantizer indexes it from the end (see module AsciiEngine).
 */
module Types {

  /** The four named ramps; each enum member's string value is its own name. */
  datatype CharSetType = STANDARD | SIMPLE | BLOCK | COMPLEX

  /** The string value carried by each enum member. */
  function CharSetName(t: CharSetType): (name: string)
    ensures name != []
  {
    match t
    case STANDARD => "STANDARD"
    case SIMPLE => "SIMPLE"
    case BLOCK => "BLOCK"
    case COMPLEX => "COMPLEX"
  }

  /** Distinct members carry distinct strings, so the table keys are unambiguous. */
  lemma CharSetNamesDistinct(t: CharSetType, u: CharSetType)
    ensures CharSetName(t) == CharSetName(u) <==> t == u
  {
  }

  /**
   * The rendering options: target width in characters, contrast factor,
   * inversion flag, ramp choice and brightness offset. Width, contrast and
   * brightness are JavaScript numbers; the model takes the width as an
   * integer and the other two as exact reals.
   */
  datatype AsciiOptions = AsciiOptions(
    width: int,
    contrast: real,
    inverted: bool,
    charSet: CharSetType,
    brightness: real)

  /**
   * The ramp table. Every ramp has at least two glyphs (so the index
   * formula divides the gray range into at least one step), ends in a
   * blank, and holds no line break (so a rendered row never splits).
   */
  function CharSet(t: CharSetType): (ramp: string)
    ensures Ramp(ramp)
  {
    match t
    case STANDARD => "@%#*+=-:. "
    case SIMPLE => "#. "
    // full block, dark shade, medium shade, light shade, blank
    case BLOCK => "\U{2588}\U{2593}\U{2592}\U{2591} "
    // the 70-glyph ramp, written in runs of ten
    case COMPLEX =>
      "$@B%8&WM#*" + "oahkbdpqwm" + "ZO0QLCJUYX" + "zcvunxrjft" +
      "/\\|()1{}[]" + "?-_+~<>i!l" + "I;:,\"^`'. "
  }

  /**
   * What the quantizer relies on in a ramp: at least two glyphs, a blank
   * as the last one, and no line break among them.
   */
  predicate Ramp(s: string)
  {
    |s| >= 2 && s[|s| - 1] == ' ' && '\n' !in s
  }

  /** The exact ramp of each preset, with its length. */
  lemma RampContents()
    ensures CharSet(SIMPLE) == ['#', '.', ' '] && |CharSet(SIMPLE)| == 3
    ensures CharSet(STANDARD) == ['@', '%', '#', '*', '+', '=', '-', ':', '.', ' '] && |CharSet(STANDARD)| == 10
    ensures CharSet(BLOCK) == ['\U{2588}', '\U{2593}', '\U{2592}', '\U{2591}', ' '] && |CharSet(BLOCK)| == 5
    ensures |CharSet(COMPLEX)| == 70 && CharSet(COMPLEX)[0] == '$'
    ensures CharSet(COMPLEX)[41] == '\\' && CharSet(COMPLEX)[67] == '\''
  {
  }
}
