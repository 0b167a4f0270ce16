/** The ANSI back end of src/Formatter/Console.php: SGR escapes for bold and
    underline (ECMA-48 section 8.3.117) and the xterm 256-colour forms
    `38;5;n` and `48;5;n` for mIRC colours. Every member here is stateless. */
module ConsoleColors {
  import opened Wrappers
  import opened Strings
  import opened FormatterCodes

  /** The xterm colour for each mIRC colour 0..15. */
  const Palette: seq<nat> := [15, 0, 4, 2, 9, 1, 5, 3, 11, 10, 6, 14, 12, 13, 8, 7]

  /** The mIRC colour for each xterm colour 0..15. */
  const PaletteInverse: seq<nat> := [1, 5, 3, 7, 2, 6, 10, 15, 14, 4, 9, 8, 12, 13, 11, 0]

  const BoldOn: string := [ESC] + "[1m"
  const BoldOff: string := [ESC] + "[22m"
  const UnderlineOn: string := [ESC] + "[4m"
  const UnderlineOff: string := [ESC] + "[24m"
  /** Default foreground and background. */
  const ColorReset: string := [ESC] + "[39;49m"

  /** `matchColor($id)`: the table entry at `id % 16`, in decimal. */
  function MatchColor(id: nat): string {
    DecimalString(Palette[id % 16])
  }

  /** The table maps 0..15 one-to-one onto 0..15. */
  lemma PaletteIsPermutation()
    ensures |Palette| == 16 && |PaletteInverse| == 16
    ensures forall i :: 0 <= i < 16 ==> Palette[i] < 16 && PaletteInverse[Palette[i]] == i
    ensures forall k :: 0 <= k < 16 ==> PaletteInverse[k] < 16 && Palette[PaletteInverse[k]] == k
  {
  }

  /** Two ids give the same colour exactly when they agree modulo 16. */
  lemma MatchColorInjective(i: nat, j: nat)
    ensures MatchColor(i) == MatchColor(j) <==> i % 16 == j % 16
  {
    PaletteIsPermutation();
    IntValDecimal(Palette[i % 16]);
    IntValDecimal(Palette[j % 16]);
  }

  /** `getColor($fontColor, $backgroundColor)`: a background only counts
      together with a font colour; without a font colour the defaults are restored. */
  function GetColor(font: Option<nat>, background: Option<nat>): string {
    if font.Some? then
      var colors := ["38;5;" + MatchColor(font.value)]
        + (if background.Some? then ["48;5;" + MatchColor(background.value)] else []);
      [ESC] + "[" + Implode(colors, ";") + "m"
    else ColorReset
  }

  /** The three forms `getColor` produces. */
  lemma GetColorForms(f: nat, b: nat)
    ensures GetColor(Some(f), None) == [ESC] + "[38;5;" + MatchColor(f) + "m"
    ensures GetColor(Some(f), Some(b)) == [ESC] + "[38;5;" + MatchColor(f) + ";48;5;" + MatchColor(b) + "m"
    ensures GetColor(None, Some(b)) == ColorReset && GetColor(None, None) == ColorReset
  {
    var m, n := MatchColor(f), MatchColor(b);
    var font, background := "38;5;" + m, "48;5;" + n;
    assert [font] + [] == [font] && [font] + [background] == [font, background];
    ImplodePair(font, background, ";");
    SgrJoin(m, n);
  }

  /** The literal parts of the two-colour form run together. */
  lemma SgrJoin(m: string, n: string)
    ensures [ESC] + "[" + ("38;5;" + m) + "m" == [ESC] + "[38;5;" + m + "m"
    ensures [ESC] + "[" + ("38;5;" + m + ";" + ("48;5;" + n)) + "m" == [ESC] + "[38;5;" + m + ";48;5;" + n + "m"
  {
    assert "[" + "38;5;" == "[38;5;" && ";" + "48;5;" == ";48;5;";
  }

  /** `bold`: a `\x02` pair becomes the SGR bold on and off around the text between. */
  lemma BoldPair(u: string, v: string, w: string)
    requires BoldCode !in u && BoldCode !in v
    ensures FormatSpec(u + [BoldCode] + v + [BoldCode] + w, BoldCode, BoldOn, BoldOff)
      == u + BoldOn + v + BoldOff + FormatSpec(w, BoldCode, BoldOn, BoldOff)
  {
    FormatPair(u, v, w, BoldCode, BoldOn, BoldOff);
  }

  /** `bold("\x02foo")` is bold on, `foo`, bold off. */
  lemma BoldDangling(v: string)
    requires BoldCode !in v
    ensures FormatSpec([BoldCode] + v, BoldCode, BoldOn, BoldOff) == BoldOn + v + BoldOff
  {
    FormatDangling([], v, BoldCode, BoldOn, BoldOff);
    assert [] + [BoldCode] + v == [BoldCode] + v;
  }

  /** `underline`: a `\x1F` pair becomes the SGR underline on and off. */
  lemma UnderlinePair(u: string, v: string, w: string)
    requires UnderlineCode !in u && UnderlineCode !in v
    ensures FormatSpec(u + [UnderlineCode] + v + [UnderlineCode] + w, UnderlineCode, UnderlineOn, UnderlineOff)
      == u + UnderlineOn + v + UnderlineOff + FormatSpec(w, UnderlineCode, UnderlineOn, UnderlineOff)
  {
    FormatPair(u, v, w, UnderlineCode, UnderlineOn, UnderlineOff);
  }
}
