/**
 * The text that is copied or downloaded: the ASCII art, and, when a slogan
 * is set, a line break and the slogan indented so that its middle sits
 * under the middle of a `width`-column banner. Copy and download build this
 * text from one and the same expression.
 */
module Banner {

  /** A run of n blanks. */
  function Spaces(n: nat): (s: string)
    ensures |s| == n
    ensures forall k :: 0 <= k < n ==> s[k] == ' '
  {
    if n == 0 then [] else Spaces(n - 1) + " "
  }

  /**
   * The indent of the slogan line: half the width less half the slogan's
   * length, both halves rounded down, and never below zero. `/` on `int`
   * with divisor 2 rounds down, as the program's floor of a halved number
   * does, negative widths included.
   */
  function Indent(width: int, slogan: string): (pad: nat)
    ensures pad >= width / 2 - |slogan| / 2
    ensures pad <= if width / 2 > 0 then width / 2 else 0
  {
    if width / 2 - |slogan| / 2 > 0 then width / 2 - |slogan| / 2 else 0
  }

  /**
   * The full text. An empty slogan leaves the art untouched; otherwise the
   * slogan goes on a line of its own below the art, after `Indent` blanks.
   */
  function BannerText(asciiOutput: string, slogan: string, width: int): (text: string)
    ensures |text| == if slogan == [] then |asciiOutput| else |asciiOutput| + 1 + Indent(width, slogan) + |slogan|
  {
    if slogan == [] then asciiOutput
    else asciiOutput + "\n" + Spaces(Indent(width, slogan)) + slogan
  }

  /**
   * When half the slogan fits into half the width, the slogan's middle
   * column (indent plus half its length) is the banner's middle column;
   * otherwise the slogan starts at column 0.
   */
  lemma IndentCentres(width: int, slogan: string)
    ensures |slogan| / 2 <= width / 2 ==> Indent(width, slogan) + |slogan| / 2 == width / 2
    ensures |slogan| / 2 >= width / 2 ==> Indent(width, slogan) == 0
  {
  }

  /**
   * Reading the text back: it starts with the art; with a non-empty slogan
   * the art is followed by one line break, `Indent` blanks and the slogan,
   * which ends the text. The art and the slogan are recovered unchanged.
   */
  lemma {:induction false} BannerTextParts(asciiOutput: string, slogan: string, width: int)
    ensures asciiOutput <= BannerText(asciiOutput, slogan, width)
    ensures slogan == [] ==> BannerText(asciiOutput, slogan, width) == asciiOutput
    ensures slogan != [] ==>
      var text, pad := BannerText(asciiOutput, slogan, width), Indent(width, slogan);
      && text[|asciiOutput|] == '\n'
      && (forall k :: |asciiOutput| < k <= |asciiOutput| + pad ==> text[k] == ' ')
      && text[|asciiOutput| + 1 + pad..] == slogan
  {
    if slogan != [] {
      var text, pad := BannerText(asciiOutput, slogan, width), Indent(width, slogan);
      var blanks := Spaces(pad);
      assert text == asciiOutput + ("\n" + blanks) + slogan;
      assert text[..|asciiOutput|] == asciiOutput;
      forall k | |asciiOutput| < k <= |asciiOutput| + pad
        ensures text[k] == ' '
      {
        assert text[k] == blanks[k - |asciiOutput| - 1];
      }
      assert text[|asciiOutput| + 1 + pad..] == slogan;
    }
  }

  /** The slogan line holds no line break unless the slogan does, so the slogan is the text's last line. */
  lemma {:induction false} SloganIsLastLine(asciiOutput: string, slogan: string, width: int)
    requires slogan != [] && '\n' !in slogan
    ensures var text := BannerText(asciiOutput, slogan, width);
      forall k :: |asciiOutput| < k < |text| ==> text[k] != '\n'
  {
    var text, pad := BannerText(asciiOutput, slogan, width), Indent(width, slogan);
    BannerTextParts(asciiOutput, slogan, width);
    forall k | |asciiOutput| < k < |text|
      ensures text[k] != '\n'
    {
      if k > |asciiOutput| + pad {
        var tail := text[|asciiOutput| + 1 + pad..];
        assert text[k] == tail[k - (|asciiOutput| + 1 + pad)];
      }
    }
  }
}
