/** The older formatter base class of library/Formatter/Formatter.php: the
    same delimiter toggle and colour-code state machine as the newer one,
    behind a guard on the formatter type. Its `getColor` is abstract and
    receives the captured digit strings themselves; it is given here as a
    function of them. */
module LegacyFormatter {
  import opened Wrappers
  import opened FormatterCodes

  const TypeError: string := "Type must be HTML or Console."

  /** `'HTML' === $this->type || 'CONSOLE' === $this->type`. */
  predicate KnownType(formatterType: Option<string>) {
    formatterType == Some("HTML") || formatterType == Some("CONSOLE")
  }

  /** The arguments of the legacy `getColor` call for a code: both digit
      strings, the font digits only, or none. */
  function LegacyArgs(font: string, background: string): (Option<string>, Option<string>) {
    if background != [] then (Some(font), Some(background))
    else if font != [] then (Some(font), None)
    else (None, None)
  }

  /** The markup of the pieces through the given `getColor`. */
  function LegacyRender(getColor: (Option<string>, Option<string>) -> string, ps: seq<Piece>): string
    decreases |ps|
  {
    if ps == [] then []
    else
      LegacyRender(getColor, ps[..|ps| - 1]) +
        match ps[|ps| - 1]
        case Literal(s) => s
        case Code(f, b) => var (font, background) := LegacyArgs(f, b); getColor(font, background)
  }

  lemma {:induction false} LegacyRenderLiterals(getColor: (Option<string>, Option<string>) -> string, text: string)
    ensures LegacyRender(getColor, Literals(text)) == text
    decreases |text|
  {
    if text != [] {
      var n := |text| - 1;
      assert Literals(text)[..n] == Literals(text[..n]);
      LegacyRenderLiterals(getColor, text[..n]);
      assert text[..n] + [text[n]] == text;
    }
  }

  /** Text without `\x03` is returned unchanged, with no reset after it. */
  lemma LegacyColorWithoutCodes(getColor: (Option<string>, Option<string>) -> string, text: string)
    requires ColorCode !in text
    ensures LegacyRender(getColor, Pieces(text)) == text
  {
    PiecesWithoutCodes(text);
    LegacyRenderLiterals(getColor, text);
  }

  class Formatter {
    /** `$type`, set by a subclass (`null` until then). */
    const formatterType: Option<string>
    /** The subclass's `getColor`. */
    const getColor: (Option<string>, Option<string>) -> string

    constructor (formatterType: Option<string>, getColor: (Option<string>, Option<string>) -> string)
      ensures this.formatterType == formatterType && this.getColor == getColor
    {
      this.formatterType := formatterType;
      this.getColor := getColor;
    }

    /** `format`: the same toggle as the newer class. */
    method Format(text: string, d: char, start: string, stop: string) returns (r: string)
      ensures r == FormatSpec(text, d, start, stop)
    {
      r := FormatterCodes.Format(text, d, start, stop);
    }

    /** `color`: refused for an unknown formatter type before the text is
        read; otherwise the codes through `getColor`. */
    method Color(text: string) returns (r: Result<string, string>)
      ensures !KnownType(formatterType) ==> r == Err(TypeError)
      ensures KnownType(formatterType) ==> r == Ok(LegacyRender(getColor, Pieces(text)))
    {
      if formatterType != Some("HTML") && formatterType != Some("CONSOLE") {
        return Err(TypeError);
      }
      var pieces := ScanCodes(text);
      var out: string := [];
      var i := 0;
      while i < |pieces|
        invariant 0 <= i <= |pieces|
        invariant out == LegacyRender(getColor, pieces[..i])
      {
        assert pieces[..i + 1][..i] == pieces[..i];
        match pieces[i] {
          case Literal(s) =>
            out := out + s;
          case Code(f, b) =>
            var (font, background) := LegacyArgs(f, b);
            out := out + getColor(font, background);
        }
        i := i + 1;
      }
      assert pieces[..i] == pieces;
      return Ok(out);
    }
  }
}
