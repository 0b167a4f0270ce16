/** The back-end independent half of src/Formatter/AbstractFormatter.php
    (and of its older copy library/Formatter/Formatter.php): the delimiter
    toggle behind `bold` and `underline`, and the per-character state
    machine that reads mIRC colour codes `\x03<fg>[,<bg>]`.
    The state machine is stated as a scanner producing pieces: literal text,
    and colour codes carrying the captured digits, which a back end turns
    into its own markup through `getColor`. */
module FormatterCodes {
  import opened Wrappers
  import opened Strings

  const ColorCode: char := '\U{03}'
  const BoldCode: char := '\U{02}'
  const UnderlineCode: char := '\U{1F}'

  // ---------------------------------------------------------------------------
  // format: the delimiter toggle

  /** The parts after the first, each preceded by the start or the stop tag
      in turn, and a final stop tag when a start tag is left open. */
  function Weave(rest: seq<string>, open: bool, start: string, stop: string): string
    decreases |rest|
  {
    if rest == [] then (if open then stop else [])
    else (if open then stop else start) + rest[0] + Weave(rest[1..], !open, start, stop)
  }

  /** What `format($text, $delimiter, $start, $stop)` returns. */
  function FormatSpec(text: string, d: char, start: string, stop: string): string {
    var parts := Explode(text, d);
    parts[0] + Weave(parts[1..], false, start, stop)
  }

  /** Text without the delimiter is returned unchanged. */
  lemma FormatNoDelimiter(text: string, d: char, start: string, stop: string)
    requires d !in text
    ensures FormatSpec(text, d, start, stop) == text
  {
  }

  /** A pair of delimiters becomes a start and a stop tag around the text between them. */
  lemma FormatPair(u: string, v: string, w: string, d: char, start: string, stop: string)
    requires d !in u && d !in v
    ensures FormatSpec(u + [d] + v + [d] + w, d, start, stop) == u + start + v + stop + FormatSpec(w, d, start, stop)
  {
    var ws := Explode(w, d);
    ExplodePair(u, v, w, d);
    FormatTwoParts(u + [d] + v + [d] + w, d, start, stop, u, v, ws);
    WeavePair(u, v, ws, start, stop);
  }

  /** The formatted text when the delimiter splits it into `u`, `v` and further parts. */
  lemma FormatTwoParts(text: string, d: char, start: string, stop: string, u: string, v: string, ws: seq<string>)
    requires Explode(text, d) == [u, v] + ws
    ensures FormatSpec(text, d, start, stop) == u + Weave([v] + ws, false, start, stop)
  {
    assert ([u, v] + ws)[0] == u && ([u, v] + ws)[1..] == [v] + ws;
  }

  /** The weave of a part followed by further parts, from a closed state. */
  lemma WeavePair(u: string, v: string, ws: seq<string>, start: string, stop: string)
    requires ws != []
    ensures u + Weave([v] + ws, false, start, stop) == u + start + v + stop + (ws[0] + Weave(ws[1..], false, start, stop))
  {
    var tail := ws[0] + Weave(ws[1..], false, start, stop);
    assert Weave([v] + ws, false, start, stop) == start + v + Weave(ws, true, start, stop) by {
      assert ([v] + ws)[0] == v && ([v] + ws)[1..] == ws;
    }
    assert Weave(ws, true, start, stop) == stop + tail;
    Regroup(u, start, v, stop, tail);
  }

  lemma Regroup(a: string, b: string, c: string, e: string, f: string)
    ensures a + (b + c + (e + f)) == a + b + c + e + f
  {
  }

  /** A last, unmatched delimiter opens a start tag that is closed at the end. */
  lemma FormatDangling(u: string, v: string, d: char, start: string, stop: string)
    requires d !in u && d !in v
    ensures FormatSpec(u + [d] + v, d, start, stop) == u + start + v + stop
  {
    assert Explode(u + [d] + v, d) == [u, v] by {
      ExplodeAfterDelimiter(u, d, v);
      assert [u] + [v] == [u, v];
    }
    assert [u, v][1..] == [v] && [v][1..] == [];
    assert Weave([v], false, start, stop) == start + v + stop;
  }

  /** The `format` loop: every further part gets the start or the stop tag in
      turn; an open start tag is closed at the end. */
  method Format(text: string, d: char, start: string, stop: string) returns (r: string)
    ensures r == FormatSpec(text, d, start, stop)
  {
    var parts := Explode(text, d);
    r := parts[0];
    var open := false;
    var i := 1;
    while i < |parts|
      invariant 1 <= i <= |parts|
      invariant r + Weave(parts[i..], open, start, stop) == FormatSpec(text, d, start, stop)
    {
      WeaveAdvance(r, parts[i..], open, start, stop);
      assert parts[i..][1..] == parts[i + 1..];
      if !open {
        r := r + start;
        open := true;
      } else {
        r := r + stop;
        open := false;
      }
      r := r + parts[i];
      i := i + 1;
    }
    assert parts[i..] == [];
    if open {
      r := r + stop;
    } else {
      assert r + [] == r;
    }
  }

  /** One turn of the `format` loop: the next tag and part move from the
      weave to the output. */
  lemma WeaveAdvance(r: string, rest: seq<string>, open: bool, start: string, stop: string)
    requires rest != []
    ensures r + Weave(rest, open, start, stop) ==
      r + (if open then stop else start) + rest[0] + Weave(rest[1..], !open, start, stop)
  {
    var tag := if open then stop else start;
    var w := Weave(rest[1..], !open, start, stop);
    assert Weave(rest, open, start, stop) == tag + rest[0] + w;
    assert r + (tag + rest[0] + w) == r + tag + rest[0] + w;
  }

  // ---------------------------------------------------------------------------
  // color: the colour-code state machine

  /** `$colorType`: '' , 'font' or 'background'. */
  datatype Mode = InText | InFont | InBackground

  /** The loop's variables other than the output. */
  datatype ScanState = ScanState(mode: Mode, font: string, background: string, reset: bool)

  const Initial: ScanState := ScanState(InText, [], [], false)

  /** A piece of the output: copied text, or a `getColor` call with the
      captured font and background digits (empty when none). */
  datatype Piece = Literal(s: string) | Code(font: string, background: string)

  /** A code carries a colour when it has font or background digits:
      `getColor` is then called with a font colour and `reset` is set. */
  predicate HasColour(p: Piece) {
    p.Code? && (p.font != [] || p.background != [])
  }

  /** The arguments `getColor` receives for a code: both colours, the font
      colour only, or none. */
  function ColorArgs(font: string, background: string): (Option<nat>, Option<nat>) {
    if background != [] then (Some(IntVal(font)), Some(IntVal(background)))
    else if font != [] then (Some(IntVal(font)), None)
    else (None, None)
  }

  /** What the character that ends a code emits: the code, a comma when a
      comma had no background digits after it, and the character itself. */
  function Terminated(st: ScanState, c: char): seq<Piece> {
    [Code(st.font, st.background)]
      + (if st.mode == InBackground && st.background == [] then [Literal(",")] else [])
      + [Literal([c])]
  }

  /** One iteration of the loop. */
  function Step(st: ScanState, c: char): (ScanState, seq<Piece>) {
    if c == ColorCode then (st.(mode := InFont), [])
    else if st.mode == InFont && |st.font| <= 1 && IsDigit(c) then (st.(font := st.font + [c]), [])
    else if st.mode == InFont && 1 <= |st.font| <= 2 && c == ',' then (st.(mode := InBackground), [])
    else if st.mode == InBackground && |st.background| <= 1 && IsDigit(c) then (st.(background := st.background + [c]), [])
    else if st.mode != InText then
      (ScanState(InText, [], [], st.background != [] || st.font != []), Terminated(st, c))
    else (st, [Literal([c])])
  }

  /** One iteration applied to the state and the pieces so far. */
  function Feed(acc: (ScanState, seq<Piece>), c: char): (ScanState, seq<Piece>) {
    var (st', out) := Step(acc.0, c);
    (st', acc.1 + out)
  }

  /** The loop over the first characters: the state reached and the pieces emitted. */
  function Scan(text: string): (ScanState, seq<Piece>)
    decreases |text|
  {
    if text == [] then (Initial, []) else Feed(Scan(text[..|text| - 1]), text[|text| - 1])
  }

  /** The whole of `color`: the pieces, then a final `getColor()` when `reset` is set. */
  function Pieces(text: string): seq<Piece> {
    var (st, ps) := Scan(text);
    ps + (if st.reset then [Code([], [])] else [])
  }

  /** The text, character by character, as literal pieces. */
  function Literals(text: string): (r: seq<Piece>)
    ensures |r| == |text|
    ensures forall i :: 0 <= i < |text| ==> r[i] == Literal([text[i]])
  {
    seq(|text|, i requires 0 <= i < |text| => Literal([text[i]]))
  }

  /** The last code among the pieces, if any. */
  function LastCode(ps: seq<Piece>): (r: Option<Piece>)
    ensures r.Some? ==> r.value.Code? && r.value in ps
    ensures r.None? ==> forall i :: 0 <= i < |ps| ==> ps[i].Literal?
    decreases |ps|
  {
    if ps == [] then None
    else if ps[|ps| - 1].Code? then Some(ps[|ps| - 1])
    else LastCode(ps[..|ps| - 1])
  }

  lemma LastCodeAppend(ps: seq<Piece>, qs: seq<Piece>)
    ensures LastCode(ps + qs) == if LastCode(qs).Some? then LastCode(qs) else LastCode(ps)
    decreases |qs|
  {
    if qs != [] {
      assert (ps + qs)[..|ps + qs| - 1] == ps + qs[..|qs| - 1];
      LastCodeAppend(ps, qs[..|qs| - 1]);
    } else {
      assert ps + qs == ps;
    }
  }

  lemma LastCodeTerminated(st: ScanState, c: char)
    ensures LastCode(Terminated(st, c)) == Some(Code(st.font, st.background))
  {
    var t := Terminated(st, c);
    if st.mode == InBackground && st.background == [] {
      assert t == [Code(st.font, st.background), Literal(","), Literal([c])];
      assert t[..2] == [Code(st.font, st.background), Literal(",")];
      assert t[..2][..1] == [Code(st.font, st.background)];
      assert LastCode(t[..2][..1]) == Some(Code(st.font, st.background));
      assert LastCode(t[..2]) == LastCode(t[..2][..1]);
    } else {
      assert t == [Code(st.font, st.background), Literal([c])];
      assert t[..1] == [Code(st.font, st.background)];
    }
  }

  /** Without `\x03` the scanner stays in text mode and copies every character. */
  lemma {:induction false} ScanWithoutCodes(text: string)
    requires ColorCode !in text
    ensures Scan(text) == (Initial, Literals(text))
    decreases |text|
  {
    if text != [] {
      var n := |text| - 1;
      assert ColorCode !in text[..n] && text[n] != ColorCode;
      ScanWithoutCodes(text[..n]);
      LiteralsSnoc(text);
    }
  }

  lemma LiteralsSnoc(text: string)
    requires text != []
    ensures Literals(text) == Literals(text[..|text| - 1]) + [Literal([text[|text| - 1]])]
  {
  }

  /** Text without `\x03` gives its characters back and no reset. */
  lemma PiecesWithoutCodes(text: string)
    requires ColorCode !in text
    ensures Pieces(text) == Literals(text)
  {
    ScanWithoutCodes(text);
    assert Literals(text) + [] == Literals(text);
  }

  /** The shape of the captured digits: at most two of each, background
      digits only after font digits, and background mode only after font digits. */
  predicate Captured(font: string, background: string) {
    && |font| <= 2 && |background| <= 2
    && AllDigits(font) && AllDigits(background)
  }

  predicate WellFormed(st: ScanState) {
    && Captured(st.font, st.background)
    && (st.mode == InText ==> st.font == [] && st.background == [])
    && (st.mode == InBackground ==> st.font != [])
  }

  /** Every code's digits are captured as described. */
  predicate CodesCaptured(ps: seq<Piece>) {
    forall i :: 0 <= i < |ps| && ps[i].Code? ==> Captured(ps[i].font, ps[i].background)
  }

  /** The scanner's invariant: a well-formed state, well-captured codes, and
      `reset` recording whether the last code emitted carried a colour. */
  predicate ScanInv(st: ScanState, ps: seq<Piece>) {
    && WellFormed(st)
    && CodesCaptured(ps)
    && (st.reset <==> LastCode(ps).Some? && HasColour(LastCode(ps).value))
  }

  lemma CodesCapturedAppend(ps: seq<Piece>, qs: seq<Piece>)
    requires CodesCaptured(ps) && CodesCaptured(qs)
    ensures CodesCaptured(ps + qs)
  {
    forall i | 0 <= i < |ps + qs| && (ps + qs)[i].Code?
      ensures Captured((ps + qs)[i].font, (ps + qs)[i].background)
    {
      if i >= |ps| {
        assert (ps + qs)[i] == qs[i - |ps|];
      }
    }
  }

  /** A character that ends a code keeps the invariant ... */
  lemma TerminateKeepsInv(st: ScanState, ps: seq<Piece>, c: char)
    requires ScanInv(st, ps) && st.mode != InText && Step(st, c).1 != []
    ensures ScanInv(Feed((st, ps), c).0, Feed((st, ps), c).1)
  {
    var t := Terminated(st, c);
    assert Step(st, c) == (ScanState(InText, [], [], st.background != [] || st.font != []), t);
    assert LastCode(ps + t) == Some(Code(st.font, st.background)) by {
      LastCodeAppend(ps, t);
      LastCodeTerminated(st, c);
    }
    assert CodesCaptured(t) by {
      forall i | 0 <= i < |t| && t[i].Code? ensures Captured(t[i].font, t[i].background) {
        assert i == 0;
      }
    }
    CodesCapturedAppend(ps, t);
  }

  /** ... and so does any other character, which emits no code. */
  lemma QuietStepKeepsInv(st: ScanState, ps: seq<Piece>, c: char)
    requires ScanInv(st, ps) && !(st.mode != InText && Step(st, c).1 != [])
    ensures ScanInv(Feed((st, ps), c).0, Feed((st, ps), c).1)
  {
    var out := Step(st, c).1;
    assert out == [] || out == [Literal([c])];
    assert LastCode(ps + out) == LastCode(ps) by {
      LastCodeAppend(ps, out);
    }
    assert CodesCaptured(out);
    CodesCapturedAppend(ps, out);
  }

  /** One iteration keeps the invariant. */
  lemma StepKeepsInv(st: ScanState, ps: seq<Piece>, c: char)
    requires ScanInv(st, ps)
    ensures ScanInv(Feed((st, ps), c).0, Feed((st, ps), c).1)
  {
    if st.mode != InText && Step(st, c).1 != [] {
      TerminateKeepsInv(st, ps, c);
    } else {
      QuietStepKeepsInv(st, ps, c);
    }
  }

  /** The scanner keeps its state well formed, and `reset` records whether the
      last code it emitted carried a colour. */
  lemma {:induction false} ScanInvariant(text: string)
    ensures WellFormed(Scan(text).0)
    ensures CodesCaptured(Scan(text).1)
    ensures Scan(text).0.reset <==> LastCode(Scan(text).1).Some? && HasColour(LastCode(Scan(text).1).value)
    decreases |text|
  {
    if text != [] {
      var n := |text| - 1;
      ScanInvariant(text[..n]);
      StepKeepsInv(Scan(text[..n]).0, Scan(text[..n]).1, text[n]);
    }
  }

  /** Every colour number handed to `getColor` has at most two digits. */
  lemma ColoursBelowHundred(text: string, i: nat)
    requires i < |Pieces(text)| && Pieces(text)[i].Code?
    ensures var (f, b) := ColorArgs(Pieces(text)[i].font, Pieces(text)[i].background);
      (f.Some? ==> f.value < 100) && (b.Some? ==> b.value < 100)
  {
    ScanInvariant(text);
    var p := Pieces(text)[i];
    assert Captured(p.font, p.background) by {
      if i >= |Scan(text).1| {
        assert p == Code([], []);
      }
    }
    DigitPrefixOfDigits(p.font);
    DigitPrefixOfDigits(p.background);
    TwoDigitsBound(p.font);
    TwoDigitsBound(p.background);
  }

  /** The final reset is appended exactly when the last code carried a
      colour, so the pieces never end with a colour left open. */
  lemma ResetAfterLastColour(text: string)
    ensures var (st, ps) := Scan(text);
      Pieces(text) == ps + [Code([], [])] <==> LastCode(ps).Some? && HasColour(LastCode(ps).value)
    ensures LastCode(Pieces(text)).Some? ==> !HasColour(LastCode(Pieces(text)).value)
  {
    ScanInvariant(text);
    var (st, ps) := Scan(text);
    if st.reset {
      LastCodeAppend(ps, [Code([], [])]);
    } else {
      assert ps + [] == ps;
      assert Pieces(text) != ps + [Code([], [])] by {
        assert |Pieces(text)| == |ps|;
      }
    }
  }

  /** Continuing a scan from a state and the pieces so far. */
  function ScanFrom(acc: (ScanState, seq<Piece>), w: string): (ScanState, seq<Piece>)
    decreases |w|
  {
    if w == [] then acc else ScanFrom(Feed(acc, w[0]), w[1..])
  }

  lemma {:induction false} ScanAppend(u: string, w: string)
    ensures Scan(u + w) == ScanFrom(Scan(u), w)
    decreases |w|
  {
    if w == [] {
      assert u + w == u;
    } else {
      assert (u + [w[0]])[..|u|] == u;
      assert Scan(u + [w[0]]) == Feed(Scan(u), w[0]);
      assert u + w == (u + [w[0]]) + w[1..];
      ScanAppend(u + [w[0]], w[1..]);
    }
  }

  /** From text mode, `\x03`, a digit and a comma followed by a character
      that is no digit give the font colour alone, the comma back, and the character. */
  lemma CommaWithoutBackground(u: string, d: char, c: char)
    requires Scan(u).0.mode == InText && WellFormed(Scan(u).0)
    requires IsDigit(d) && !IsDigit(c) && c != ColorCode
    ensures Scan(u + [ColorCode, d, ',', c]) ==
      (ScanState(InText, [], [], true), Scan(u).1 + [Code([d], []), Literal(","), Literal([c])])
  {
    var w := [ColorCode, d, ',', c];
    ScanAppend(u, w);
    var (st, ps) := Scan(u);
    assert ps + [] == ps;
    var s1 := ScanState(InFont, [], [], st.reset);
    assert Feed(Scan(u), ColorCode) == (s1, ps);
    assert [] + [d] == [d];
    var s2 := ScanState(InFont, [d], [], st.reset);
    assert Feed((s1, ps), d) == (s2, ps);
    var s3 := ScanState(InBackground, [d], [], st.reset);
    assert Feed((s2, ps), ',') == (s3, ps);
    assert Terminated(s3, c) == [Code([d], []), Literal(","), Literal([c])];
    var done := (ScanState(InText, [], [], true), ps + [Code([d], []), Literal(","), Literal([c])]);
    assert Feed((s3, ps), c) == done;
    assert ScanFrom((s3, ps), [c]) == done by { assert [c][1..] == []; }
    assert ScanFrom((s2, ps), [',', c]) == done by { assert [',', c][1..] == [c]; }
    assert ScanFrom((s1, ps), [d, ',', c]) == done by { assert [d, ',', c][1..] == [',', c]; }
    assert w[1..] == [d, ',', c];
  }

  /** From text mode, a third digit after `\x03` is no longer part of the code. */
  lemma ThirdDigitIsText(u: string, d1: char, d2: char, d3: char)
    requires Scan(u).0.mode == InText && WellFormed(Scan(u).0)
    requires IsDigit(d1) && IsDigit(d2) && IsDigit(d3)
    ensures Scan(u + [ColorCode, d1, d2, d3]) ==
      (ScanState(InText, [], [], true), Scan(u).1 + [Code([d1, d2], []), Literal([d3])])
  {
    var w := [ColorCode, d1, d2, d3];
    ScanAppend(u, w);
    var (st, ps) := Scan(u);
    assert ps + [] == ps;
    var s1 := ScanState(InFont, [], [], st.reset);
    assert Feed(Scan(u), ColorCode) == (s1, ps);
    assert w[1..] == [d1, d2, d3];
    FontDigitsThenText(s1, ps, d1, d2, d3);
  }

  /** After `\x03`, two digits are the font and a third digit ends the code. */
  lemma FontDigitsThenText(s1: ScanState, ps: seq<Piece>, d1: char, d2: char, d3: char)
    requires s1.mode == InFont && s1.font == [] && s1.background == []
    requires IsDigit(d1) && IsDigit(d2) && IsDigit(d3)
    ensures ScanFrom((s1, ps), [d1, d2, d3]) ==
      (ScanState(InText, [], [], true), ps + [Code([d1, d2], []), Literal([d3])])
  {
    assert ps + [] == ps;
    assert [] + [d1] == [d1] && [d1] + [d2] == [d1, d2];
    var s2 := s1.(font := [d1]);
    assert Feed((s1, ps), d1) == (s2, ps);
    var s3 := s1.(font := [d1, d2]);
    assert Feed((s2, ps), d2) == (s3, ps);
    assert Terminated(s3, d3) == [Code([d1, d2], []), Literal([d3])];
    var done := (ScanState(InText, [], [], true), ps + [Code([d1, d2], []), Literal([d3])]);
    assert Feed((s3, ps), d3) == done;
    assert ScanFrom((s3, ps), [d3]) == done by { assert [d3][1..] == []; }
    assert ScanFrom((s2, ps), [d2, d3]) == done by { assert [d2, d3][1..] == [d3]; }
    assert [d1, d2, d3][1..] == [d2, d3];
  }

  /** The `color` loop itself, emitting pieces in place of the markup. */
  method ScanCodes(text: string) returns (pieces: seq<Piece>)
    ensures pieces == Pieces(text)
  {
    pieces := [];
    var colorType := InText;
    var fontColor: string := [];
    var backgroundColor: string := [];
    var reset := false;
    var i := 0;
    while i < |text|
      invariant 0 <= i <= |text|
      invariant Scan(text[..i]) == (ScanState(colorType, fontColor, backgroundColor, reset), pieces)
    {
      assert text[..i + 1][..i] == text[..i];
      colorType, fontColor, backgroundColor, reset, pieces :=
        ScanOne(colorType, fontColor, backgroundColor, reset, pieces, text[i]);
      i := i + 1;
    }
    assert text[..i] == text;
    if reset {
      pieces := pieces + [Code([], [])];
    }
  }

  /** One turn of the `color` loop: the character `c` read with the loop's
      variables. */
  method ScanOne(colorType: Mode, fontColor: string, backgroundColor: string, reset: bool, pieces: seq<Piece>, c: char)
    returns (colorType': Mode, fontColor': string, backgroundColor': string, reset': bool, pieces': seq<Piece>)
    ensures (ScanState(colorType', fontColor', backgroundColor', reset'), pieces') ==
      Feed((ScanState(colorType, fontColor, backgroundColor, reset), pieces), c)
  {
    colorType', fontColor', backgroundColor', reset', pieces' := colorType, fontColor, backgroundColor, reset, pieces;
    if c == ColorCode {
      colorType' := InFont;
      assert pieces + [] == pieces;
    } else if colorType == InFont && (|fontColor| == 0 || |fontColor| == 1) && '0' <= c <= '9' {
      fontColor' := fontColor + [c];
      assert pieces + [] == pieces;
    } else if colorType == InFont && (|fontColor| == 1 || |fontColor| == 2) && c == ',' {
      colorType' := InBackground;
      assert pieces + [] == pieces;
    } else if colorType == InBackground && (|backgroundColor| == 0 || |backgroundColor| == 1) && '0' <= c <= '9' {
      backgroundColor' := backgroundColor + [c];
      assert pieces + [] == pieces;
    } else if colorType == InFont || colorType == InBackground {
      pieces' := pieces' + [Code(fontColor, backgroundColor)];
      reset' := backgroundColor != [] || fontColor != [];
      if colorType == InBackground && backgroundColor == [] {
        pieces' := pieces' + [Literal(",")];
      }
      colorType', fontColor', backgroundColor' := InText, [], [];
      pieces' := pieces' + [Literal([c])];
      assert pieces' == pieces + Terminated(ScanState(colorType, fontColor, backgroundColor, reset), c);
    } else {
      pieces' := pieces' + [Literal([c])];
    }
  }
}
