/** The HTML back end of src/Formatter/Html.php: `<b>` and `<u>` tags for
    bold and underline, and `<span style=...>` elements for mIRC colours.
    Its `getColor` carries two fields across calls, `open` (a span is open)
    and `bg` (the background last given, repeated on later spans). */
module HtmlColors {
  import opened Wrappers
  import opened Strings
  import opened FormatterCodes

  /** The mIRC colours 0..15. */
  const Palette: seq<string> := [
    "#FFFFFF", "#000000", "#00007F", "#009300", "#FF0000", "#7F0000", "#9C009C", "#FC7F00",
    "#FFFF00", "#00FC00", "#009393", "#00FFFF", "#0000FC", "#FF00FF", "#7F7F7F", "#D2D2D2"]

  const BoldOn: string := "<b style=\"font-weight: bold;\">"
  const BoldOff: string := "</b>"
  const UnderlineOn: string := "<u style=\"text-decoration: underline;\">"
  const UnderlineOff: string := "</u>"
  const SpanClose: string := "</span>"

  /** The fields `open` and `bg`; `bg` is `''` (None) or a colour number. */
  datatype HtmlState = HtmlState(open: bool, bg: Option<nat>)

  const Closed: HtmlState := HtmlState(false, None)

  /** `matchColor($id)`: the table entry at `id % 16`. */
  function MatchColor(id: nat): string {
    Palette[id % 16]
  }

  /** The 16 colours are distinct, so two ids give the same colour exactly
      when they agree modulo 16. */
  lemma MatchColorInjective(i: nat, j: nat)
    ensures MatchColor(i) == MatchColor(j) <==> i % 16 == j % 16
  {
    PaletteKeys();
    var a, b := i % 16, j % 16;
    if a != b {
      assert ColourIndex(Palette[a]) != ColourIndex(Palette[b]);
    }
  }

  /** Reads a palette entry back as its colour number, from the first digit
      of each of its red, green and blue parts. */
  function ColourIndex(s: string): int
    requires |s| == 7
  {
    match (s[1], s[3], s[5])
    case ('F', 'F', 'F') => 0
    case ('0', '0', '0') => 1
    case ('0', '0', '7') => 2
    case ('0', '9', '0') => 3
    case ('F', '0', '0') => 4
    case ('7', '0', '0') => 5
    case ('9', '0', '9') => 6
    case ('F', '7', '0') => 7
    case ('F', 'F', '0') => 8
    case ('0', 'F', '0') => 9
    case ('0', '9', '9') => 10
    case ('0', 'F', 'F') => 11
    case ('0', '0', 'F') => 12
    case ('F', '0', 'F') => 13
    case ('7', '7', '7') => 14
    case ('D', 'D', 'D') => 15
    case _ => -1
  }

  lemma PaletteKeys()
    ensures forall x :: 0 <= x < 16 ==> |Palette[x]| == 7 && ColourIndex(Palette[x]) == x
  {
  }

  /** The style of a span: the font colour, then the background if one is known. */
  function Style(font: nat, bg: Option<nat>): string {
    Implode(["color: " + MatchColor(font)] + (if bg.Some? then ["background-color: " + MatchColor(bg.value)] else []), "; ")
  }

  function OpenSpan(font: nat, bg: Option<nat>): string {
    "<span style=\"" + Style(font, bg) + ";\">"
  }

  /** `getColor($fontColor, $backgroundColor)` from the given fields: the markup and the new fields. */
  function GetColor(h: HtmlState, font: Option<nat>, background: Option<nat>): (r: (string, HtmlState))
    ensures font.Some? ==> r.1.open && r.1.bg == (if background.Some? then background else h.bg)
    ensures font.None? && h.open ==> r == (SpanClose, Closed)
    ensures font.None? && !h.open ==> r == ("", h)
  {
    if font.Some? then
      var bg := if background.Some? then background else h.bg;
      (if h.open then SpanClose + OpenSpan(font.value, bg) else OpenSpan(font.value, bg), HtmlState(true, bg))
    else if h.open then (SpanClose, Closed)
    else ("", h)
  }

  /** A font colour opens a span, first closing the one that is open. */
  lemma GetColorOpens(h: HtmlState, f: nat, background: Option<nat>)
    ensures var bg := if background.Some? then background else h.bg;
      GetColor(h, Some(f), background).0 == (if h.open then SpanClose else "") + OpenSpan(f, bg)
  {
  }

  /** The two style forms: the font colour alone, or followed by the background. */
  lemma StyleForms(f: nat, b: nat)
    ensures Style(f, None) == "color: " + MatchColor(f)
    ensures Style(f, Some(b)) == "color: " + MatchColor(f) + "; " + "background-color: " + MatchColor(b)
  {
    var two: seq<string> := ["color: " + MatchColor(f), "background-color: " + MatchColor(b)];
    assert ["color: " + MatchColor(f)] + ["background-color: " + MatchColor(b)] == two;
    assert two[1..] == ["background-color: " + MatchColor(b)];
    assert Implode(two[1..], "; ") == "background-color: " + MatchColor(b);
  }

  /** A background given once is repeated on the next span, until a close clears it. */
  lemma BackgroundRepeated(h: HtmlState, f1: nat, b: nat, f2: nat)
    ensures var h1 := GetColor(h, Some(f1), Some(b)).1;
      && GetColor(h1, Some(f2), None).0 == SpanClose + OpenSpan(f2, Some(b))
      && GetColor(h1, None, None) == (SpanClose, Closed)
      && GetColor(Closed, Some(f2), None).0 == OpenSpan(f2, None)
  {
  }

  /** `bold`: a `\x02` pair becomes a `<b>` element around the text between. */
  lemma BoldPair(u: string, v: string, w: string)
    requires BoldCode !in u && BoldCode !in v
    ensures FormatSpec(u + [BoldCode] + v + [BoldCode] + w, BoldCode, BoldOn, BoldOff)
      == u + BoldOn + v + BoldOff + FormatSpec(w, BoldCode, BoldOn, BoldOff)
  {
    FormatPair(u, v, w, BoldCode, BoldOn, BoldOff);
  }

  /** `underline("\x1Ffoo")`: an unmatched `\x1F` is closed at the end. */
  lemma UnderlineDangling(v: string)
    requires UnderlineCode !in v
    ensures FormatSpec([UnderlineCode] + v, UnderlineCode, UnderlineOn, UnderlineOff) == UnderlineOn + v + UnderlineOff
  {
    FormatDangling([], v, UnderlineCode, UnderlineOn, UnderlineOff);
    assert [] + [UnderlineCode] + v == [UnderlineCode] + v;
  }
}
