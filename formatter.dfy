/** The formatter objects: AbstractFormatter with its two subclasses, the
    ANSI one of src/Formatter/Console.php and the HTML one of
    src/Formatter/Html.php, as one class whose `kind` selects the back end.
    Only the HTML back end uses the `open` and `bg` fields. */
module Formatter {
  import opened Wrappers
  import opened FormatterCodes
  import ConsoleColors
  import HtmlColors

  datatype Kind = Console | Html

  type HtmlState = HtmlColors.HtmlState

  /** `getColor` of the back end, from the given fields: the markup and the new fields. */
  function Colour(kind: Kind, h: HtmlState, font: Option<nat>, background: Option<nat>): (string, HtmlState) {
    if kind == Console then (ConsoleColors.GetColor(font, background), h)
    else HtmlColors.GetColor(h, font, background)
  }

  /** The markup of one piece: literal text is copied, a code goes through `getColor`. */
  function RenderPiece(kind: Kind, h: HtmlState, p: Piece): (string, HtmlState) {
    match p
    case Literal(s) => (s, h)
    case Code(f, b) =>
      var (font, background) := ColorArgs(f, b);
      Colour(kind, h, font, background)
  }

  /** The markup of the pieces, and the fields afterwards. */
  function Render(kind: Kind, h: HtmlState, ps: seq<Piece>): (string, HtmlState)
    decreases |ps|
  {
    if ps == [] then ([], h)
    else
      var (out, h') := Render(kind, h, ps[..|ps| - 1]);
      var (s, h'') := RenderPiece(kind, h', ps[|ps| - 1]);
      (out + s, h'')
  }

  /** The start and stop tags of `bold` and of `underline`. */
  function BoldTags(kind: Kind): (string, string) {
    if kind == Console then (ConsoleColors.BoldOn, ConsoleColors.BoldOff) else (HtmlColors.BoldOn, HtmlColors.BoldOff)
  }

  function UnderlineTags(kind: Kind): (string, string) {
    if kind == Console then (ConsoleColors.UnderlineOn, ConsoleColors.UnderlineOff)
    else (HtmlColors.UnderlineOn, HtmlColors.UnderlineOff)
  }

  /** Literal pieces are copied and leave the fields alone. */
  lemma {:induction false} RenderLiterals(kind: Kind, h: HtmlState, text: string)
    ensures Render(kind, h, Literals(text)) == (text, h)
    decreases |text|
  {
    if text != [] {
      var n := |text| - 1;
      assert Literals(text)[..n] == Literals(text[..n]);
      RenderLiterals(kind, h, text[..n]);
      assert text[..n] + [text[n]] == text;
    }
  }

  /** `color` returns text without `\x03` unchanged, with no reset after it,
      and leaves the fields alone. */
  lemma ColorWithoutCodes(kind: Kind, h: HtmlState, text: string)
    requires ColorCode !in text
    ensures Render(kind, h, Pieces(text)) == (text, h)
  {
    PiecesWithoutCodes(text);
    RenderLiterals(kind, h, text);
  }

  /** The console back end keeps no state. */
  lemma {:induction false} ConsoleRenderStateless(h: HtmlState, ps: seq<Piece>)
    ensures Render(Console, h, ps).1 == h
    decreases |ps|
  {
    if ps != [] {
      ConsoleRenderStateless(h, ps[..|ps| - 1]);
    }
  }

  /** The console markup does not depend on the fields. */
  lemma {:induction false} ConsoleRenderOutput(h: HtmlState, k: HtmlState, ps: seq<Piece>)
    ensures Render(Console, h, ps).0 == Render(Console, k, ps).0
    decreases |ps|
  {
    if ps != [] {
      ConsoleRenderOutput(h, k, ps[..|ps| - 1]);
    }
  }

  /** After rendering, a span is open exactly when the last code carried a
      colour (or, with no code at all, when one was open before). */
  lemma {:induction false} HtmlOpenAfter(h: HtmlState, ps: seq<Piece>)
    ensures Render(Html, h, ps).1.open ==
      if LastCode(ps).Some? then HasColour(LastCode(ps).value) else h.open
    decreases |ps|
  {
    if ps != [] {
      HtmlOpenAfter(h, ps[..|ps| - 1]);
    }
  }

  /** Starting with no span open, a whole `color` call closes every span it opens. */
  lemma HtmlColorEndsClosed(h: HtmlState, text: string)
    requires !h.open
    ensures !Render(Html, h, Pieces(text)).1.open
  {
    ResetAfterLastColour(text);
    HtmlOpenAfter(h, Pieces(text));
  }

  class Formatter {
    const kind: Kind
    /** Html: a span is open. */
    var open: bool
    /** Html: the background last given, until a close. */
    var bg: Option<nat>

    function State(): HtmlState
      reads this
    {
      HtmlColors.HtmlState(open, bg)
    }

    constructor (kind: Kind)
      ensures this.kind == kind && State() == HtmlColors.Closed
    {
      this.kind := kind;
      open := false;
      bg := None;
    }

    /** `getColor`: the console markup is computed from the arguments alone;
        the HTML one reads and updates `open` and `bg`. */
    method GetColor(font: Option<nat>, background: Option<nat>) returns (r: string)
      modifies this
      ensures (r, State()) == Colour(kind, old(State()), font, background)
    {
      if kind == Console {
        return ConsoleColors.GetColor(font, background);
      }
      if font.Some? {
        if background.Some? {
          bg := background;
        }
        var span := HtmlColors.OpenSpan(font.value, bg);
        if open {
          return HtmlColors.SpanClose + span;
        }
        open := true;
        return span;
      }
      if open {
        bg := None;
        open := false;
        return HtmlColors.SpanClose;
      }
      return "";
    }

    /** `color`: the colour codes of the text, each turned into markup by
        `getColor` in order, and the final reset when one is due. */
    method Color(text: string) returns (r: string)
      modifies this
      ensures (r, State()) == Render(kind, old(State()), Pieces(text))
    {
      var pieces := ScanCodes(text);
      r := [];
      var i := 0;
      while i < |pieces|
        invariant 0 <= i <= |pieces|
        invariant (r, State()) == Render(kind, old(State()), pieces[..i])
      {
        assert pieces[..i + 1][..i] == pieces[..i];
        var s := RenderOne(pieces[i]);
        r := r + s;
        i := i + 1;
      }
      assert pieces[..i] == pieces;
    }

    /** One step of the `color` loop. */
    method RenderOne(p: Piece) returns (r: string)
      modifies this
      ensures (r, State()) == RenderPiece(kind, old(State()), p)
    {
      match p {
        case Literal(s) =>
          r := s;
        case Code(f, b) =>
          var (font, background) := ColorArgs(f, b);
          r := GetColor(font, background);
      }
    }

    /** `bold`: `\x02` toggles between the back end's bold tags. */
    method Bold(text: string) returns (r: string)
      ensures r == FormatSpec(text, BoldCode, BoldTags(kind).0, BoldTags(kind).1)
    {
      var (start, stop) := BoldTags(kind);
      r := Format(text, BoldCode, start, stop);
    }

    /** `underline`: `\x1F` toggles between the back end's underline tags. */
    method Underline(text: string) returns (r: string)
      ensures r == FormatSpec(text, UnderlineCode, UnderlineTags(kind).0, UnderlineTags(kind).1)
    {
      var (start, stop) := UnderlineTags(kind);
      r := Format(text, UnderlineCode, start, stop);
    }
  }
}
