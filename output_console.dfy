/** The text preparation of the console output class, src/Output/Console.php:
    the formatter's markup is applied, then the text is fitted to a width by
    cutting, by breaking into fixed chunks or by word wrapping. Widths are
    measured in visible characters: the ANSI escape sequences the formatter
    inserts take no room on the screen. */
module OutputConsole {
  import opened Wrappers
  import opened Strings
  import opened FormatterCodes
  import Formatter
  import ConsoleColors
  import HtmlColors

  /** The message of the exception `wordwrap`, `split` and `cut` throw. */
  const LengthError: string := "Length cannot be negative or null."

  // ---------------------------------------------------------------------------
  // count: the visible-character counter shared by split and cut

  /** `count($char, $count, $ignore)` on its two by-reference arguments: an
      ESC starts an escape sequence, and nothing is counted from there up to
      and including the next `m`. */
  function CountStep(c: char, count: int, ignore: bool): (int, bool) {
    var skipping := ignore || c == ESC;
    (if skipping then count else count + 1, skipping && c != 'm')
  }

  /** The counter and the flag after feeding the characters of `s` in order. */
  function CountFrom(s: string, count: int, ignore: bool): (int, bool)
    decreases |s|
  {
    if s == [] then (count, ignore)
    else
      var (count', ignore') := CountStep(s[0], count, ignore);
      CountFrom(s[1..], count', ignore')
  }

  lemma CountCons(c: char, s: string, count: int, ignore: bool)
    ensures CountFrom([c] + s, count, ignore)
      == CountFrom(s, CountStep(c, count, ignore).0, CountStep(c, count, ignore).1)
  {
    assert ([c] + s)[0] == c && ([c] + s)[1..] == s;
  }

  /** The counter never goes down. */
  lemma {:induction false} CountGrows(s: string, count: int, ignore: bool)
    ensures CountFrom(s, count, ignore).0 >= count
    decreases |s|
  {
    if s != [] {
      var (count', ignore') := CountStep(s[0], count, ignore);
      CountGrows(s[1..], count', ignore');
    }
  }

  /** Text without ESC is counted character by character. */
  lemma {:induction false} CountPlain(s: string, count: int)
    requires ESC !in s
    ensures CountFrom(s, count, false) == (count + |s|, false)
    decreases |s|
  {
    if s != [] {
      assert s[0] != ESC && s[0] in s;
      CountPlain(s[1..], count + 1);
    }
  }

  /** Feeding a concatenation feeds the second part from where the first left off. */
  lemma {:induction false} CountAppend(s: string, t: string, count: int, ignore: bool)
    ensures CountFrom(s + t, count, ignore)
      == CountFrom(t, CountFrom(s, count, ignore).0, CountFrom(s, count, ignore).1)
    decreases |s|
  {
    if s != [] {
      var (count', ignore') := CountStep(s[0], count, ignore);
      assert (s + t)[0] == s[0] && (s + t)[1..] == s[1..] + t;
      CountAppend(s[1..], t, count', ignore');
    } else {
      assert s + t == t;
    }
  }

  /** Inside an escape sequence nothing is counted up to its `m`. */
  lemma {:induction false} CountInside(p: string, v: string, count: int)
    requires 'm' !in p
    ensures CountFrom(p + ['m'] + v, count, true) == CountFrom(v, count, false)
    decreases |p|
  {
    if p == [] {
      assert [] + ['m'] + v == ['m'] + v;
      CountCons('m', v, count, true);
    } else {
      assert p[0] != 'm' && p[0] in p;
      assert p + ['m'] + v == [p[0]] + (p[1..] + ['m'] + v);
      CountCons(p[0], p[1..] + ['m'] + v, count, true);
      CountInside(p[1..], v, count);
    }
  }

  /** An escape sequence `ESC ... m` adds nothing to the count and ends the skipping. */
  lemma CountSkipsSequence(p: string, v: string, count: int, ignore: bool)
    requires 'm' !in p
    ensures CountFrom([ESC] + p + ['m'] + v, count, ignore) == CountFrom(v, count, false)
  {
    assert [ESC] + p + ['m'] + v == [ESC] + (p + ['m'] + v);
    CountCons(ESC, p + ['m'] + v, count, ignore);
    CountInside(p, v, count);
  }

  // ---------------------------------------------------------------------------
  // len: the length without SGR sequences

  /** The length of the run of `[0-9;]` at the start of `s`. */
  function ParamRun(s: string): (r: nat)
    ensures r <= |s|
    ensures forall i :: 0 <= i < r ==> IsDigit(s[i]) || s[i] == ';'
    ensures r == |s| || !(IsDigit(s[r]) || s[r] == ';')
    decreases |s|
  {
    if s != [] && (IsDigit(s[0]) || s[0] == ';') then 1 + ParamRun(s[1..]) else 0
  }

  /** The length of the match of `\033\[[0-9;]+m` at the start of `s`, or 0. */
  function SgrLength(s: string): (r: nat)
    ensures r == 0 || (3 <= r <= |s| && s[0] == ESC && s[1] == '[' && s[r - 1] == 'm')
  {
    if |s| >= 2 && s[0] == ESC && s[1] == '[' then
      var k := ParamRun(s[2..]);
      if k >= 1 && 2 + k < |s| && s[2 + k] == 'm' then 3 + k else 0
    else 0
  }

  /** Between `ESC [` and the final `m` of a match there are only digits and `;`. */
  lemma SgrParams(s: string)
    ensures forall i :: 2 <= i < SgrLength(s) - 1 ==> IsDigit(s[i]) || s[i] == ';'
  {
    if SgrLength(s) > 0 {
      forall i | 2 <= i < SgrLength(s) - 1 ensures IsDigit(s[i]) || s[i] == ';' {
        assert s[i] == s[2..][i - 2];
      }
    }
  }

  /** `preg_replace("/\033\[[0-9;]+m/", '', $text)`: matches are removed left to right. */
  function Strip(s: string): (r: string)
    ensures |r| <= |s|
    decreases |s|
  {
    if s == [] then []
    else if SgrLength(s) > 0 then Strip(s[SgrLength(s)..])
    else
      assert s == [s[0]] + s[1..];
      [s[0]] + Strip(s[1..])
  }

  /** `len($text)`. */
  function Len(s: string): (r: nat)
    ensures r <= |s|
  {
    |Strip(s)|
  }

  /** Text without ESC has nothing to remove, so `len` is its length. */
  lemma {:induction false} LenPlain(s: string)
    requires ESC !in s
    ensures Strip(s) == s && Len(s) == |s|
    decreases |s|
  {
    if s != [] {
      LenPlain(s[1..]);
      assert s == [s[0]] + s[1..];
    }
  }

  /** Text in which every ESC opens a complete SGR sequence. */
  predicate WellEscaped(s: string)
    decreases |s|
  {
    s == [] ||
    if SgrLength(s) > 0 then WellEscaped(s[SgrLength(s)..]) else s[0] != ESC && WellEscaped(s[1..])
  }

  /** A leading SGR sequence is skipped by the counter and removed by `len`. */
  lemma CountSkipsLeadingSgr(s: string, count: int)
    requires SgrLength(s) > 0
    ensures CountFrom(s, count, false) == CountFrom(s[SgrLength(s)..], count, false)
  {
    var k := SgrLength(s);
    var p := s[1..k - 1];
    assert 'm' !in p by {
      forall i | 0 <= i < |p| ensures p[i] != 'm' {
        assert p[i] == s[i + 1];
      }
    }
    assert s == [ESC] + p + ['m'] + s[k..];
    CountSkipsSequence(p, s[k..], count, false);
  }

  /** `len` skips a leading SGR sequence ... */
  lemma LenSkipsLeadingSgr(s: string)
    requires SgrLength(s) > 0
    ensures Len(s) == Len(s[SgrLength(s)..])
  {
  }

  /** ... and counts any other first character. */
  lemma LenCountsFirst(s: string)
    requires s != [] && SgrLength(s) == 0
    ensures Len(s) == 1 + Len(s[1..])
  {
    assert Strip(s) == [s[0]] + Strip(s[1..]);
  }

  /** On such text the counter of `split` and `cut` agrees with `len`. */
  lemma {:induction false} CountMatchesLen(s: string, count: int)
    requires WellEscaped(s)
    ensures CountFrom(s, count, false) == (count + Len(s), false)
    decreases |s|, 1
  {
    if s != [] {
      if SgrLength(s) > 0 {
        CountAfterSgr(s, count);
      } else {
        CountAfterPlain(s, count);
      }
    }
  }

  /** A leading SGR sequence, then the rest. */
  lemma {:induction false} CountAfterSgr(s: string, count: int)
    requires WellEscaped(s) && SgrLength(s) > 0
    ensures CountFrom(s, count, false) == (count + Len(s), false)
    decreases |s|, 0
  {
    SgrFirst(s, count);
    CountMatchesLen(s[SgrLength(s)..], count);
  }

  /** A leading character that is counted, then the rest. */
  lemma {:induction false} CountAfterPlain(s: string, count: int)
    requires WellEscaped(s) && s != [] && SgrLength(s) == 0
    ensures CountFrom(s, count, false) == (count + Len(s), false)
    decreases |s|, 0
  {
    PlainFirst(s, count);
    CountMatchesLen(s[1..], count + 1);
  }

  /** A leading SGR sequence: neither counted nor measured. */
  lemma SgrFirst(s: string, count: int)
    requires WellEscaped(s) && SgrLength(s) > 0
    ensures WellEscaped(s[SgrLength(s)..])
    ensures CountFrom(s, count, false) == CountFrom(s[SgrLength(s)..], count, false)
    ensures Len(s) == Len(s[SgrLength(s)..])
  {
    LenSkipsLeadingSgr(s);
    CountSkipsLeadingSgr(s, count);
  }

  /** Any other first character: counted once and measured once. */
  lemma PlainFirst(s: string, count: int)
    requires WellEscaped(s) && s != [] && SgrLength(s) == 0
    ensures WellEscaped(s[1..])
    ensures CountFrom(s, count, false) == CountFrom(s[1..], count + 1, false)
    ensures Len(s) == 1 + Len(s[1..])
  {
    LenCountsFirst(s);
  }

  // ---------------------------------------------------------------------------
  // len over joined and trimmed text

  /** Runs of `[0-9;]` that agree up to the character ending one of them
      have the same length. */
  lemma {:induction false} ParamRunShared(x: string, y: string, r: nat)
    requires ParamRun(x) == r < |x| && r < |y| && x[..r + 1] == y[..r + 1]
    ensures ParamRun(y) == r
    decreases r
  {
    assert x[0] == y[0];
    if r > 0 {
      assert x[1..][..r] == y[1..][..r] by {
        assert x[1..][..r] == x[..r + 1][1..] && y[1..][..r] == y[..r + 1][1..];
      }
      ParamRunShared(x[1..], y[1..], r - 1);
    }
  }

  /** An SGR sequence at the start of `s` is matched whole at the start of
      any text that begins with the same characters. */
  lemma SgrShared(s: string, t: string)
    requires SgrLength(s) > 0 && SgrLength(s) <= |t| && t[..SgrLength(s)] == s[..SgrLength(s)]
    ensures SgrLength(t) == SgrLength(s)
  {
    var k := SgrLength(s);
    SharedSlices(s, t, k);
    ParamRunShared(s[2..], t[2..], k - 3);
  }

  /** A character other than `m` put after text does not complete an SGR
      sequence at its start. */
  lemma SgrSnoc(s: string, c: char)
    requires SgrLength(s) == 0 && c != 'm'
    ensures SgrLength(s + [c]) == 0
  {
    var t := s + [c];
    if 0 < SgrLength(t) <= |s| {
      assert s[..SgrLength(t)] == t[..SgrLength(t)];
      SgrShared(t, s);
    }
  }

  /** A character other than `m` put after any text is measured once by `len`. */
  lemma {:induction false} LenSnoc(s: string, c: char)
    requires c != 'm'
    ensures Len(s + [c]) == Len(s) + 1
    decreases |s|
  {
    var t := s + [c];
    if s == [] {
      assert t == [c];
      LenCountsFirst(t);
    } else if SgrLength(s) > 0 {
      var k := SgrLength(s);
      assert t[..k] == s[..k];
      SgrShared(s, t);
      assert t[k..] == s[k..] + [c];
      LenSnoc(s[k..], c);
      LenSkipsLeadingSgr(s);
      LenSkipsLeadingSgr(t);
    } else {
      SgrSnoc(s, c);
      assert t[1..] == s[1..] + [c];
      LenSnoc(s[1..], c);
      LenCountsFirst(s);
      LenCountsFirst(t);
    }
  }

  /** `len` adds up over well-escaped text followed by any text. */
  lemma {:induction false} LenAppend(s: string, t: string)
    requires WellEscaped(s)
    ensures Len(s + t) == Len(s) + Len(t)
    decreases |s|
  {
    var st := s + t;
    if s == [] {
      assert st == t;
    } else if SgrLength(s) > 0 {
      var k := SgrLength(s);
      AppendSlices(s, t, k);
      SgrShared(s, st);
      LenAppend(s[k..], t);
      LenSkipsLeadingSgr(s);
      LenSkipsLeadingSgr(st);
    } else {
      AppendSlices(s, t, 1);
      assert st[0] == s[0];
      LenAppend(s[1..], t);
      LenCountsFirst(s);
      LenCountsFirst(st);
    }
  }

  /** Well-escaped texts joined are well-escaped. */
  lemma {:induction false} WellEscapedAppend(s: string, t: string)
    requires WellEscaped(s) && WellEscaped(t)
    ensures WellEscaped(s + t)
    decreases |s|
  {
    var st := s + t;
    if s == [] {
      assert st == t;
    } else if SgrLength(s) > 0 {
      var k := SgrLength(s);
      AppendSlices(s, t, k);
      SgrShared(s, st);
      WellEscapedAppend(s[k..], t);
    } else {
      AppendSlices(s, t, 1);
      assert st[0] == s[0];
      WellEscapedAppend(s[1..], t);
    }
  }

  /** A leading SGR sequence on its own is well-escaped text without visible characters. */
  lemma SgrAlone(s: string)
    requires SgrLength(s) > 0
    ensures var k := SgrLength(s); WellEscaped(s[..k]) && Len(s[..k]) == 0
  {
    var k := SgrLength(s);
    SgrShared(s, s[..k]);
    assert s[..k][k..] == [];
    LenSkipsLeadingSgr(s[..k]);
  }

  /** An SGR sequence holds no space. */
  lemma SgrNoSpace(s: string)
    requires SgrLength(s) > 0
    ensures ' ' !in s[..SgrLength(s)]
  {
    var k := SgrLength(s);
    forall i | 0 <= i < k ensures s[..k][i] != ' ' {
      assert i == 0 || i == 1 || i == k - 1 || IsDigit(s[i]) || s[i] == ';';
    }
  }

  /** Well-escaped text without spaces put in front of text whose pieces are
      well-escaped keeps them so. */
  lemma ExplodeJoinedWellEscaped(u: string, w: string)
    requires WellEscaped(u) && ' ' !in u
    requires forall i :: 0 <= i < |Explode(w, ' ')| ==> WellEscaped(Explode(w, ' ')[i])
    ensures forall i :: 0 <= i < |Explode(u + w, ' ')| ==> WellEscaped(Explode(u + w, ' ')[i])
  {
    var rest := Explode(w, ' ');
    ExplodePrefix(u, w, ' ');
    WellEscapedAppend(u, rest[0]);
  }

  /** The pieces of well-escaped text between spaces are well-escaped. */
  lemma {:induction false} ExplodeWellEscaped(s: string)
    requires WellEscaped(s)
    ensures forall i :: 0 <= i < |Explode(s, ' ')| ==> WellEscaped(Explode(s, ' ')[i])
    decreases |s|
  {
    if s != [] {
      if SgrLength(s) > 0 {
        var k := SgrLength(s);
        ExplodeWellEscaped(s[k..]);
        SgrNoSpace(s);
        SgrAlone(s);
        assert s == s[..k] + s[k..];
        ExplodeJoinedWellEscaped(s[..k], s[k..]);
      } else {
        ExplodeWellEscaped(s[1..]);
        if s[0] != ' ' {
          var one := [s[0]];
          assert WellEscaped(one) by { assert one[1..] == []; }
          assert s == one + s[1..];
          ExplodeJoinedWellEscaped(one, s[1..]);
        }
      }
    }
  }

  /** Trim characters in front are each measured once by `len`. */
  lemma {:induction false} LenDropTrimmed(s: string, k: nat)
    requires k <= |s| && forall i :: 0 <= i < k ==> IsTrimChar(s[i])
    ensures Len(s) == k + Len(s[k..])
    decreases k
  {
    if k > 0 {
      LenCountsFirst(s);
      LenDropTrimmed(s[1..], k - 1);
      assert s[1..][k - 1..] == s[k..];
    }
  }

  /** `rtrim` never adds visible characters. */
  lemma {:induction false} LenTrimRight(s: string)
    ensures Len(TrimRight(s)) <= Len(s)
    decreases |s|
  {
    if s != [] && IsTrimChar(s[|s| - 1]) {
      LenTrimRight(s[..|s| - 1]);
      LenSnoc(s[..|s| - 1], s[|s| - 1]);
      assert s[..|s| - 1] + [s[|s| - 1]] == s;
    }
  }

  /** `trim` of a text ending in a space measures no more than the text before that space. */
  lemma LenTrimSpace(x: string)
    ensures Len(Trim(x + [' '])) <= Len(x)
  {
    var k := TrimSpaceParts(x);
    if Trim(x + [' ']) != [] {
      LenTrimRight(x[k..]);
      LenDropTrimmed(x, k);
    }
  }

  // ---------------------------------------------------------------------------
  // cut

  /** The characters `cut` keeps: up to and including the one at which the
      counter reaches `length`. */
  function CutFrom(s: string, length: int, count: int, ignore: bool): (r: string)
    ensures |r| <= |s|
    decreases |s|
  {
    if s == [] then []
    else
      var (count', ignore') := CountStep(s[0], count, ignore);
      if count' == length then [s[0]] else [s[0]] + CutFrom(s[1..], length, count', ignore')
  }

  /** What `cut` keeps is a prefix of the text. */
  lemma {:induction false} CutIsPrefix(s: string, length: int, count: int, ignore: bool)
    ensures CutFrom(s, length, count, ignore) <= s
    decreases |s|
  {
    if s != [] {
      var (count', ignore') := CountStep(s[0], count, ignore);
      CutIsPrefix(s[1..], length, count', ignore');
      assert s == [s[0]] + s[1..];
    }
  }

  /** `cut($text, $length)`. */
  function CutSpec(text: string, length: int): Result<string, string> {
    if length < 1 then Err(LengthError) else Ok(CutFrom(text, length, 0, false))
  }

  /** `cut` returns a prefix of the text that either is the whole text or
      has exactly `length` visible characters; every shorter prefix of it has
      fewer. */
  lemma {:induction false} CutFromSpec(s: string, length: int, count: int, ignore: bool)
    requires count < length
    ensures var c := CutFrom(s, length, count, ignore);
      && (c == s || CountFrom(c, count, ignore).0 == length)
      && forall k :: 0 <= k < |c| ==> CountFrom(c[..k], count, ignore).0 < length
    decreases |s|
  {
    if s != [] {
      var c := CutFrom(s, length, count, ignore);
      var (count', ignore') := CountStep(s[0], count, ignore);
      if count' == length {
        assert c == [s[0]] + [];
        CountCons(s[0], [], count, ignore);
        forall k | 0 <= k < |c| ensures CountFrom(c[..k], count, ignore).0 < length {
          assert c[..k] == [];
        }
      } else {
        var t := CutFrom(s[1..], length, count', ignore');
        CutFromSpec(s[1..], length, count', ignore');
        assert c == [s[0]] + t;
        assert s == [s[0]] + s[1..];
        CountCons(s[0], t, count, ignore);
        forall k | 0 <= k < |c| ensures CountFrom(c[..k], count, ignore).0 < length {
          if k == 0 {
            assert c[..k] == [];
          } else {
            assert c[..k] == [s[0]] + t[..k - 1];
            CountCons(s[0], t[..k - 1], count, ignore);
          }
        }
      }
    }
  }

  /** Text whose visible count stays below `length` is kept whole. */
  lemma {:induction false} CutShort(s: string, length: int, count: int, ignore: bool)
    requires CountFrom(s, count, ignore).0 < length
    ensures CutFrom(s, length, count, ignore) == s
    decreases |s|
  {
    if s != [] {
      var (count', ignore') := CountStep(s[0], count, ignore);
      CountGrows(s[1..], count', ignore');
      CutShort(s[1..], length, count', ignore');
    }
  }

  /** Before any ESC, `cut` keeps exactly the characters still to be counted. */
  lemma {:induction false} CutPlain(s: string, length: int, count: int)
    requires 0 <= count < length <= count + |s|
    requires ESC !in s[..length - count]
    ensures CutFrom(s, length, count, false) == s[..length - count]
    decreases |s|
  {
    assert s[0] == s[..length - count][0];
    if count + 1 < length {
      assert s[..length - count] == [s[0]] + s[1..][..length - count - 1];
      CutPlain(s[1..], length, count + 1);
    }
  }

  // ---------------------------------------------------------------------------
  // split

  /** The output of `split`: `end` after each character at which the counter
      reaches `length`, and the counter starting again from 0. The flag is
      carried on. */
  function SplitFrom(s: string, length: int, end: string, count: int, ignore: bool): string
    decreases |s|
  {
    if s == [] then []
    else
      var (count', ignore') := CountStep(s[0], count, ignore);
      if count' == length then [s[0]] + end + SplitFrom(s[1..], length, end, 0, ignore')
      else [s[0]] + SplitFrom(s[1..], length, end, count', ignore')
  }

  /** `split($text, $length, $end)`. */
  function SplitSpec(text: string, length: int, end: string): Result<string, string> {
    if length < 1 then Err(LengthError) else Ok(SplitFrom(text, length, end, 0, false))
  }

  /** The claim of `SplitAtCut` for the text from `count` on. */
  predicate SplitsAtCut(s: string, length: int, end: string, count: int, ignore: bool) {
    SplitFrom(s, length, end, count, ignore) ==
      if CountFrom(s, count, ignore).0 < length then s
      else
        var c := CutFrom(s, length, count, ignore);
        c + end + SplitFrom(s[|c|..], length, end, 0, false)
  }

  /** The first character reaches `length`: both stop after it. */
  lemma SplitAtCutHere(s: string, length: int, end: string, count: int, ignore: bool)
    requires s != [] && count < length && CountStep(s[0], count, ignore).0 == length
    ensures SplitsAtCut(s, length, end, count, ignore)
  {
    var step := CountStep(s[0], count, ignore);
    CountGrows(s[1..], step.0, step.1);
    assert CountFrom(s, count, ignore) == CountFrom(s[1..], step.0, step.1);
    assert !step.1;
    assert SplitFrom(s, length, end, count, ignore) == [s[0]] + end + SplitFrom(s[1..], length, end, 0, false);
    assert CutFrom(s, length, count, ignore) == [s[0]];
    assert s[1..] == s[|[s[0]]|..];
  }

  /** The first character does not reach `length`: the claim for the rest
      carries over, with the first character in front of the cut ... */
  lemma SplitAtCutLater(s: string, length: int, end: string, count: int, ignore: bool)
    requires s != [] && count < length
    requires var step := CountStep(s[0], count, ignore);
      && step.0 != length && CountFrom(s[1..], step.0, step.1).0 >= length
      && SplitsAtCut(s[1..], length, end, step.0, step.1)
    ensures SplitsAtCut(s, length, end, count, ignore)
  {
    var step := CountStep(s[0], count, ignore);
    var rest := s[1..];
    assert CountFrom(s, count, ignore) == CountFrom(rest, step.0, step.1);
    var t := CutFrom(rest, length, step.0, step.1);
    var c := [s[0]] + t;
    var tail := SplitFrom(rest[|t|..], length, end, 0, false);
    assert SplitFrom(rest, length, end, step.0, step.1) == t + end + tail;
    assert SplitFrom(s, length, end, count, ignore) == [s[0]] + (t + end + tail);
    assert CutFrom(s, length, count, ignore) == c;
    assert s[|c|..] == rest[|t|..];
    assert [s[0]] + (t + end + tail) == c + end + tail;
  }

  /** ... or, when the rest stays short, the text is kept whole. */
  lemma SplitAtCutNever(s: string, length: int, end: string, count: int, ignore: bool)
    requires s != [] && count < length
    requires var step := CountStep(s[0], count, ignore);
      && step.0 != length && CountFrom(s[1..], step.0, step.1).0 < length
      && SplitsAtCut(s[1..], length, end, step.0, step.1)
    ensures SplitsAtCut(s, length, end, count, ignore)
  {
    var step := CountStep(s[0], count, ignore);
    var rest := s[1..];
    assert CountFrom(s, count, ignore) == CountFrom(rest, step.0, step.1);
    assert SplitFrom(s, length, end, count, ignore) == [s[0]] + rest;
    assert [s[0]] + rest == s;
  }

  /** `split` is `cut` followed by `end` and the split of the rest, for as
      long as the rest has enough visible characters; the rest is then read
      outside any escape sequence. */
  lemma {:induction false} SplitAtCut(s: string, length: int, end: string, count: int, ignore: bool)
    requires count < length
    ensures SplitFrom(s, length, end, count, ignore) ==
      if CountFrom(s, count, ignore).0 < length then s
      else
        var c := CutFrom(s, length, count, ignore);
        c + end + SplitFrom(s[|c|..], length, end, 0, false)
    decreases |s|
  {
    if s == [] {
    } else if CountStep(s[0], count, ignore).0 == length {
      SplitAtCutHere(s, length, end, count, ignore);
    } else {
      var step := CountStep(s[0], count, ignore);
      SplitAtCut(s[1..], length, end, step.0, step.1);
      if CountFrom(s[1..], step.0, step.1).0 >= length {
        SplitAtCutLater(s, length, end, count, ignore);
      } else {
        SplitAtCutNever(s, length, end, count, ignore);
      }
    }
  }

  /** On text without ESC, `split` puts `end` after each `length` characters. */
  lemma SplitPlain(u: string, v: string, length: int, end: string)
    requires |u| == length >= 1 && ESC !in u
    ensures SplitFrom(u + v, length, end, 0, false) == u + end + SplitFrom(v, length, end, 0, false)
  {
    var s := u + v;
    assert s[..length] == u;
    CutPlain(s, length, 0);
    CountAppend(u, v, 0, false);
    CountPlain(u, 0);
    CountGrows(v, length, false);
    SplitAtCut(s, length, end, 0, false);
    assert s[|u|..] == v;
  }

  /** Text whose visible count stays below `length` is returned unchanged. */
  lemma SplitShort(s: string, length: int, end: string)
    requires CountFrom(s, 0, false).0 < length
    ensures SplitSpec(s, length, end) == Ok(s)
  {
    CountGrows(s, 0, false);
    SplitAtCut(s, length, end, 0, false);
  }

  /** `cut` copies an escape sequence whole: the counter does not move inside it. */
  lemma {:induction false} CutInside(p: string, v: string, length: int, count: int)
    requires 'm' !in p && count < length
    ensures CutFrom(p + ['m'] + v, length, count, true) == p + ['m'] + CutFrom(v, length, count, false)
    decreases |p|
  {
    var s := p + ['m'] + v;
    if p == [] {
      assert s == ['m'] + v && s[1..] == v;
    } else {
      assert p[0] != 'm' && p[0] in p;
      assert s[0] == p[0] && s[1..] == p[1..] + ['m'] + v;
      CutInside(p[1..], v, length, count);
    }
  }

  /** A leading SGR sequence is kept whole, and `cut` goes on after it as at the start. */
  lemma CutSkipsLeadingSgr(s: string, length: int, count: int)
    requires SgrLength(s) > 0 && count < length
    ensures CutFrom(s, length, count, false) == s[..SgrLength(s)] + CutFrom(s[SgrLength(s)..], length, count, false)
  {
    var k := SgrLength(s);
    var p := s[1..k - 1];
    assert 'm' !in p by {
      forall i | 0 <= i < |p| ensures p[i] != 'm' {
        assert p[i] == s[i + 1];
      }
    }
    SliceAround(s, k);
    CutInside(p, s[k..], length, count);
    assert CutFrom(s, length, count, false) == [ESC] + CutFrom(s[1..], length, count, true);
    JoinAround([ESC], p, ['m'], CutFrom(s[k..], length, count, false));
  }

  /** A prefix of the rest after a common start is a prefix of the whole. */
  lemma PrefixJoin(a: string, c: string, rest: string)
    requires c <= rest
    ensures a + c <= a + rest && (a + rest)[|a + c|..] == rest[|c|..]
  {
    assert rest == c + rest[|c|..];
    assert a + rest == (a + c) + rest[|c|..];
  }

  /** On well-escaped text with enough visible characters, `cut` stops at the
      end of a whole character or sequence: what it keeps and what it leaves
      are well-escaped, and what it keeps has exactly the visible characters
      still to be counted. */
  predicate CutsWell(s: string, length: int, count: int) {
    var c := CutFrom(s, length, count, false);
    && c <= s && WellEscaped(c) && WellEscaped(s[|c|..]) && count + Len(c) == length
  }

  /** A leading SGR sequence: `cut` goes on after it. */
  lemma CutsWellSgr(s: string, length: int, count: int)
    requires WellEscaped(s) && SgrLength(s) > 0 && count < length
    requires CutsWell(s[SgrLength(s)..], length, count)
    ensures CutsWell(s, length, count)
  {
    var k := SgrLength(s);
    var c' := CutFrom(s[k..], length, count, false);
    CutSkipsLeadingSgr(s, length, count);
    SgrAlone(s);
    WellEscapedAppend(s[..k], c');
    LenAppend(s[..k], c');
    PrefixAfterTake(s, k, c');
  }

  /** A leading visible character that reaches `length`: `cut` keeps it alone. */
  lemma CutsWellLast(s: string, length: int, count: int)
    requires s != [] && s[0] != ESC && WellEscaped(s[1..]) && count + 1 == length
    ensures CutsWell(s, length, count)
  {
    var one := [s[0]];
    assert WellEscaped(one) by { assert one[1..] == []; }
    LenCountsFirst(one);
    assert CutFrom(s, length, count, false) == one;
    assert s == one + s[1..];
    PrefixJoin(one, [], s[1..]);
  }

  /** A leading visible character that does not reach `length`: `cut` keeps
      it and goes on. */
  lemma CutsWellPlain(s: string, length: int, count: int)
    requires s != [] && s[0] != ESC && count + 1 < length && CutsWell(s[1..], length, count + 1)
    ensures CutsWell(s, length, count)
  {
    var one := [s[0]];
    assert WellEscaped(one) by { assert one[1..] == []; }
    var c' := CutFrom(s[1..], length, count + 1, false);
    assert CutFrom(s, length, count, false) == one + c';
    WellEscapedAppend(one, c');
    LenAppend(one, c');
    LenCountsFirst(one);
    assert s == one + s[1..];
    PrefixJoin(one, c', s[1..]);
  }

  lemma {:induction false} CutWellEscaped(s: string, length: int, count: int)
    requires WellEscaped(s) && count < length <= count + Len(s)
    ensures CutsWell(s, length, count)
    decreases |s|, 1
  {
    if SgrLength(s) > 0 {
      CutAfterSgr(s, length, count);
    } else {
      CutAfterPlain(s, length, count);
    }
  }

  lemma {:induction false} CutAfterSgr(s: string, length: int, count: int)
    requires WellEscaped(s) && SgrLength(s) > 0 && count < length <= count + Len(s)
    ensures CutsWell(s, length, count)
    decreases |s|, 0
  {
    SgrFirst(s, count);
    CutWellEscaped(s[SgrLength(s)..], length, count);
    CutsWellSgr(s, length, count);
  }

  lemma {:induction false} CutAfterPlain(s: string, length: int, count: int)
    requires WellEscaped(s) && SgrLength(s) == 0 && count < length <= count + Len(s)
    ensures CutsWell(s, length, count)
    decreases |s|, 0
  {
    LenCountsFirst(s);
    if count + 1 == length {
      CutsWellLast(s, length, count);
    } else {
      CutWellEscaped(s[1..], length, count + 1);
      CutsWellPlain(s, length, count);
    }
  }

  /** Pieces that put back together give `s`, each well-escaped with at
      most `length` visible characters. */
  predicate PiecesOf(s: string, pieces: seq<string>, length: int) {
    && Implode(pieces, []) == s
    && forall i :: 0 <= i < |pieces| ==> WellEscaped(pieces[i]) && Len(pieces[i]) <= length
  }

  /** One more piece in front. */
  lemma PiecesCons(c: string, rest: string, pieces: seq<string>, length: int)
    requires WellEscaped(c) && Len(c) <= length && |pieces| >= 1 && PiecesOf(rest, pieces, length)
    ensures PiecesOf(c + rest, [c] + pieces, length)
  {
    var all := [c] + pieces;
    ConcatCons(c, pieces);
    ConsParts(c, pieces);
    forall i | 0 <= i < |all| ensures WellEscaped(all[i]) && Len(all[i]) <= length {
      if i > 0 {
        assert all[i] == pieces[i - 1];
      }
    }
  }

  /** `split` of a well-escaped word on a space, exploded again on the space
      as `wordwrap` does: the pieces put back together give the word, and
      each is well-escaped with at most `length` visible characters. */
  lemma {:induction false} SplitPieces(s: string, length: int)
    requires length >= 1 && WellEscaped(s) && ' ' !in s
    ensures PiecesOf(s, Explode(SplitFrom(s, length, " ", 0, false), ' '), length)
    decreases |s|, 1
  {
    CountMatchesLen(s, 0);
    if Len(s) >= length {
      SplitPiecesCut(s, length);
    } else {
      SplitAtCut(s, length, " ", 0, false);
      assert Explode(s, ' ') == [s];
    }
  }

  /** A word long enough to be cut: the cut, then the split of the rest. */
  lemma {:induction false} SplitPiecesCut(s: string, length: int)
    requires length >= 1 && WellEscaped(s) && ' ' !in s && Len(s) >= length
    ensures PiecesOf(s, Explode(SplitFrom(s, length, " ", 0, false), ' '), length)
    decreases |s|, 0
  {
    var c := CutFrom(s, length, 0, false);
    CountMatchesLen(s, 0);
    SplitAtCutTaken(s, length, " ");
    CutWellEscaped(s, length, 0);
    var rest := s[|c|..];
    PrefixRest(c, s, ' ');
    SplitPieces(rest, length);
    SplitJoin(s, c, rest, SplitFrom(s, length, " ", 0, false), SplitFrom(rest, length, " ", 0, false), length);
  }

  /** Text that reaches `length`: `split` cuts it once and goes on. */
  lemma SplitAtCutTaken(s: string, length: int, end: string)
    requires 0 < length <= CountFrom(s, 0, false).0
    ensures var c := CutFrom(s, length, 0, false);
      SplitFrom(s, length, end, 0, false) == c + end + SplitFrom(s[|c|..], length, end, 0, false)
  {
    SplitAtCut(s, length, end, 0, false);
  }

  /** A cut piece in front of the pieces of the rest, joined by a space. */
  lemma SplitJoin(s: string, c: string, rest: string, split: string, tail: string, length: int)
    requires s == c + rest && split == c + " " + tail
    requires WellEscaped(c) && Len(c) <= length && ' ' !in c
    requires PiecesOf(rest, Explode(tail, ' '), length)
    ensures PiecesOf(s, Explode(split, ' '), length)
  {
    assert split == c + [' '] + tail;
    ExplodeAfterDelimiter(c, ' ', tail);
    PiecesCons(c, rest, Explode(tail, ' '), length);
  }

  // ---------------------------------------------------------------------------
  // the three methods with loops

  /** `count`: the character back, and the new counter and flag. */
  method Count(c: char, count: int, ignore: bool) returns (r: char, count': int, ignore': bool)
    ensures r == c && (count', ignore') == CountStep(c, count, ignore)
  {
    count', ignore' := count, ignore;
    if c == ESC {
      ignore' := true;
    }
    if !ignore' {
      count' := count' + 1;
    }
    if ignore' && c == 'm' {
      ignore' := false;
    }
    r := c;
  }

  /** `cut`: stops after the character at which the counter reaches `length`. */
  method Cut(text: string, length: int) returns (r: Result<string, string>)
    ensures r == CutSpec(text, length)
  {
    if length < 1 {
      return Err(LengthError);
    }
    var output: string := [];
    var count := 0;
    var ignore := false;
    var i := 0;
    while i < |text|
      invariant 0 <= i <= |text| && count < length
      invariant output + CutFrom(text[i..], length, count, ignore) == CutFrom(text, length, 0, false)
    {
      assert text[i..][0] == text[i] && text[i..][1..] == text[i + 1..];
      ghost var before := CutFrom(text[i..], length, count, ignore);
      var c;
      c, count, ignore := Count(text[i], count, ignore);
      output := output + [c];
      if count == length {
        assert before == [c];
        break;
      }
      assert before == [c] + CutFrom(text[i + 1..], length, count, ignore);
      i := i + 1;
    }
    if i == |text| {
      assert text[i..] == [] && output + [] == output;
    }
    return Ok(output);
  }

  /** `split`: `end` after each character at which the counter reaches
      `length`, which sets the counter back to 0. */
  /** One turn of the `split` loop at position `i`: the character, and `end`
      when the counter reaches `length`, move from the rest to the output. */
  lemma SplitFromAt(output: string, text: string, i: int, length: int, end: string, count: int, ignore: bool)
    requires 0 <= i < |text|
    ensures var (count', ignore') := CountStep(text[i], count, ignore);
      var output' := if count' == length then output + [text[i]] + end else output + [text[i]];
      output' + SplitFrom(text[i + 1..], length, end, if count' == length then 0 else count', ignore')
        == output + SplitFrom(text[i..], length, end, count, ignore)
  {
    assert text[i..][0] == text[i] && text[i..][1..] == text[i + 1..];
  }

  method Split(text: string, length: int, end: string) returns (r: Result<string, string>)
    ensures r == SplitSpec(text, length, end)
  {
    if length < 1 {
      return Err(LengthError);
    }
    var output: string := [];
    var count := 0;
    var ignore := false;
    var i := 0;
    ghost var goal := SplitFrom(text, length, end, 0, false);
    while i < |text|
      invariant 0 <= i <= |text| && count < length
      invariant output + SplitFrom(text[i..], length, end, count, ignore) == goal
    {
      SplitFromAt(output, text, i, length, end, count, ignore);
      var c;
      c, count, ignore := Count(text[i], count, ignore);
      output := output + [c];
      if count == length {
        count := 0;
        output := output + end;
      }
      i := i + 1;
    }
    assert text[i..] == [] && output + [] == output;
    return Ok(output);
  }

  // ---------------------------------------------------------------------------
  // wordwrap

  /** The variables of `wordwrap`: `$count` and `$output`, whose last entry
      is the line `$lineCount` being filled. */
  datatype Wrap = Wrap(count: int, lines: seq<string>)

  /** The word and a space go on the current line. */
  function Append(w: Wrap, word: string): (r: Wrap)
    requires w.lines != []
    ensures r.lines != []
  {
    var n := |w.lines| - 1;
    Wrap(w.count + Len(word) + 1, w.lines[..n] + [w.lines[n] + word + " "])
  }

  /** The current line is trimmed and the word and a space start a new one. */
  function NewLine(w: Wrap, word: string): (r: Wrap)
    requires w.lines != []
    ensures r.lines != []
  {
    var n := |w.lines| - 1;
    Wrap(Len(word) + 1, w.lines[..n] + [Trim(w.lines[n]), word + " "])
  }

  /** Each piece of an over-long word on a line of its own. */
  function NewLines(w: Wrap, pieces: seq<string>): (r: Wrap)
    requires w.lines != []
    ensures r.lines != []
    decreases |pieces|
  {
    if pieces == [] then w else NewLines(NewLine(w, pieces[0]), pieces[1..])
  }

  /** One word of the loop: it fits, it is split (when cutting is on and it
      is longer than a line), or it starts a new line. */
  function Place(w: Wrap, word: string, length: int, cut: bool): (r: Wrap)
    requires w.lines != [] && length >= 1
    ensures r.lines != []
  {
    if w.count + Len(word) <= length then Append(w, word)
    else if cut && Len(word) > length then NewLines(w, Explode(SplitFrom(word, length, " ", 0, false), ' '))
    else NewLine(w, word)
  }

  function WrapFrom(w: Wrap, words: seq<string>, length: int, cut: bool): (r: Wrap)
    requires w.lines != [] && length >= 1
    ensures r.lines != []
    decreases |words|
  {
    if words == [] then w else WrapFrom(Place(w, words[0], length, cut), words[1..], length, cut)
  }

  /** `wordwrap($text, $length, $break, $cut)`: refused for a length below 1;
      otherwise the lines joined by `break`, with no white space at either end. */
  function WordwrapSpec(text: string, length: int, brk: string, cut: bool): (r: Result<string, string>)
    ensures r.Err? <==> length < 1
    ensures r.Err? ==> r.error == LengthError
    ensures r.Ok? ==> r.value == [] || (!IsTrimChar(r.value[0]) && !IsTrimChar(r.value[|r.value| - 1]))
  {
    if length < 1 then Err(LengthError)
    else Ok(Trim(Implode(WrapFrom(Wrap(0, [""]), Explode(text, ' '), length, cut).lines, brk)))
  }

  /** The lines of a text made of two words. */
  lemma WrapTwoWords(u: string, v: string, length: int, cut: bool)
    requires ' ' !in u && length >= 1
    ensures var w1 := Place(Wrap(0, [""]), u, length, cut);
      WrapFrom(Wrap(0, [""]), Explode(u + " " + v, ' '), length, cut) == WrapFrom(w1, Explode(v, ' '), length, cut)
  {
    ExplodeAfterDelimiter(u, ' ', v);
    assert u + " " + v == u + [' '] + v;
    var words := [u] + Explode(v, ' ');
    assert words[0] == u && words[1..] == Explode(v, ' ');
  }

  /** The first word of a line that has room for it. */
  lemma PlaceFirst(u: string, length: int, cut: bool)
    requires ESC !in u && 1 <= |u| <= length
    ensures Place(Wrap(0, [""]), u, length, cut) == Wrap(|u| + 1, [u + " "])
  {
    LenPlain(u);
    assert [""][..0] == [] && "" + u + " " == u + " ";
  }

  lemma WrapFittingLines(u: string, v: string, length: int, cut: bool)
    requires u != [] && ' ' !in u && ' ' !in v && ESC !in u && ESC !in v
    requires |u| + 1 + |v| <= length
    ensures WrapFrom(Wrap(0, [""]), Explode(u + " " + v, ' '), length, cut).lines == [(u + " " + v) + [' ']]
  {
    WrapTwoWords(u, v, length, cut);
    PlaceFirst(u, length, cut);
    var w1 := Wrap(|u| + 1, [u + " "]);
    var w2 := Place(w1, v, length, cut);
    assert w2.lines == [(u + " " + v) + [' ']];
    assert Explode(v, ' ') == [v] && [v][1..] == [];
    assert WrapFrom(w1, [v], length, cut) == w2;
  }

  /** Two words that fit on one line stay together. */
  lemma WordwrapKeepsFittingWords(u: string, v: string, length: int, brk: string, cut: bool)
    requires u != [] && v != [] && ' ' !in u && ' ' !in v && ESC !in u && ESC !in v
    requires !IsTrimChar(u[0]) && !IsTrimChar(v[|v| - 1])
    requires |u| + 1 + |v| <= length
    ensures WordwrapSpec(u + " " + v, length, brk, cut) == Ok(u + " " + v)
  {
    WrapFittingLines(u, v, length, cut);
    assert Implode([(u + " " + v) + [' ']], brk) == (u + " " + v) + [' '];
    TrimJoined(u, " ", v);
  }

  /** The lines after a second word that does not fit. */
  lemma PlaceSecondOnNewLine(u: string, v: string, length: int, cut: bool)
    requires ESC !in u && ESC !in v && u != [] && !IsTrimChar(u[0]) && !IsTrimChar(u[|u| - 1])
    requires 1 <= |v| <= length < |u| + 1 + |v|
    ensures Place(Wrap(|u| + 1, [u + " "]), v, length, cut).lines == [u, v + " "]
  {
    LenPlain(v);
    TrimTrailing(u, ' ');
    assert u + " " == u + [' '];
    assert [u + " "][..0] + [u, v + " "] == [u, v + " "];
  }

  lemma WrapBreakLines(u: string, v: string, length: int, cut: bool)
    requires u != [] && v != [] && ' ' !in u && ' ' !in v && ESC !in u && ESC !in v
    requires !IsTrimChar(u[0]) && !IsTrimChar(u[|u| - 1])
    requires |u| <= length && |v| <= length < |u| + 1 + |v|
    ensures WrapFrom(Wrap(0, [""]), Explode(u + " " + v, ' '), length, cut).lines == [u, v + " "]
  {
    WrapTwoWords(u, v, length, cut);
    PlaceFirst(u, length, cut);
    var w1 := Wrap(|u| + 1, [u + " "]);
    var w2 := Place(w1, v, length, cut);
    PlaceSecondOnNewLine(u, v, length, cut);
    assert Explode(v, ' ') == [v] && [v][1..] == [];
    assert WrapFrom(w1, [v], length, cut) == w2;
  }

  /** The joined lines of two words that do not fit on one line. */
  lemma WrapBreakJoined(u: string, v: string, length: int, brk: string, cut: bool)
    requires u != [] && v != [] && ' ' !in u && ' ' !in v && ESC !in u && ESC !in v
    requires !IsTrimChar(u[0]) && !IsTrimChar(u[|u| - 1])
    requires |u| <= length && |v| <= length < |u| + 1 + |v|
    ensures Implode(WrapFrom(Wrap(0, [""]), Explode(u + " " + v, ' '), length, cut).lines, brk) == (u + brk + v) + [' ']
  {
    WrapBreakLines(u, v, length, cut);
    ImplodePair(u, v + " ", brk);
    assert u + brk + (v + " ") == (u + brk + v) + [' '];
  }

  /** A space after text with non-white ends is all `trim` removes. */
  lemma TrimJoined(u: string, brk: string, v: string)
    requires u != [] && v != [] && !IsTrimChar(u[0]) && !IsTrimChar(v[|v| - 1])
    ensures Trim((u + brk + v) + [' ']) == u + brk + v
  {
    var line := u + brk + v;
    assert line[0] == u[0] && line[|line| - 1] == v[|v| - 1];
    TrimTrailing(line, ' ');
  }

  /** A second word that does not fit goes on the next line. */
  lemma WordwrapBreaksBeforeWord(u: string, v: string, length: int, brk: string, cut: bool)
    requires u != [] && v != [] && ' ' !in u && ' ' !in v && ESC !in u && ESC !in v
    requires !IsTrimChar(u[0]) && !IsTrimChar(u[|u| - 1]) && !IsTrimChar(v[|v| - 1])
    requires |u| <= length && |v| <= length < |u| + 1 + |v|
    ensures WordwrapSpec(u + " " + v, length, brk, cut) == Ok(u + brk + v)
  {
    WrapBreakJoined(u, v, length, brk, cut);
    TrimJoined(u, brk, v);
  }

  /** The line `wordwrap` is filling, with cutting on: empty at the start, or
      well-escaped text ending in a space; `count` is its visible length, at
      most one more than a line may hold. */
  predicate Filling(line: string, count: int, length: int) {
    && WellEscaped(line)
    && Len(line) == count <= length + 1
    && (line == [] || line[|line| - 1] == ' ')
  }

  /** Lines of at most `length` visible characters each. */
  predicate Finished(lines: seq<string>, length: int) {
    forall i :: 0 <= i < |lines| ==> Len(lines[i]) <= length
  }

  lemma FinishedSnoc(lines: seq<string>, line: string, length: int)
    requires Finished(lines, length) && Len(line) <= length
    ensures Finished(lines + [line], length)
  {
    assert forall i :: 0 <= i < |lines| ==> (lines + [line])[i] == lines[i];
  }

  /** Every finished line has at most `length` visible characters and the
      last one is being filled. */
  predicate LinesFit(w: Wrap, length: int) {
    && w.lines != []
    && Finished(w.lines[..|w.lines| - 1], length)
    && Filling(w.lines[|w.lines| - 1], w.count, length)
  }

  /** A word that fits goes on the line being filled ... */
  lemma FillingAppend(line: string, count: int, word: string, length: int)
    requires Filling(line, count, length) && WellEscaped(word) && count + Len(word) <= length
    ensures Filling(line + word + " ", count + Len(word) + 1, length)
  {
    assert WellEscaped(" ") by { assert " "[1..] == []; }
    WellEscapedAppend(line, word);
    WellEscapedAppend(line + word, " ");
    LenAppend(line, word);
    LenSnoc(line + word, ' ');
    assert line + word + " " == line + word + [' '];
  }

  /** ... a finished line is trimmed to at most `length` visible characters ... */
  lemma FillingTrim(line: string, count: int, length: int)
    requires Filling(line, count, length) && length >= 1
    ensures Len(Trim(line)) <= length && Len(TrimRight(line)) <= length
  {
    if line != [] {
      var x := line[..|line| - 1];
      assert line == x + [' '];
      LenSnoc(x, ' ');
      LenTrimSpace(x);
      assert TrimRight(line) == TrimRight(x);
      LenTrimRight(x);
    }
  }

  /** ... and a word of at most `length` visible characters starts the next one. */
  lemma FillingStart(word: string, length: int)
    requires WellEscaped(word) && Len(word) <= length
    ensures Filling(word + " ", Len(word) + 1, length)
  {
    assert WellEscaped(" ") by { assert " "[1..] == []; }
    WellEscapedAppend(word, " ");
    LenSnoc(word, ' ');
    assert word + " " == word + [' '];
  }

  /** A word that fits goes on the line and the lines still fit. */
  lemma AppendFits(w: Wrap, word: string, length: int)
    requires LinesFit(w, length) && WellEscaped(word) && w.count + Len(word) <= length
    ensures LinesFit(Append(w, word), length)
  {
    var n := |w.lines| - 1;
    FillingAppend(w.lines[n], w.count, word, length);
    SnocParts(w.lines[..n], w.lines[n] + word + " ");
  }

  /** The line being filled is finished within the width, and a word of at
      most `length` visible characters starts the next one. */
  lemma NewLineFits(w: Wrap, word: string, length: int)
    requires LinesFit(w, length) && length >= 1 && WellEscaped(word) && Len(word) <= length
    ensures LinesFit(NewLine(w, word), length)
  {
    var n := |w.lines| - 1;
    FillingTrim(w.lines[n], w.count, length);
    FillingStart(word, length);
    FinishedSnoc(w.lines[..n], Trim(w.lines[n]), length);
    SnocPair(w.lines[..n], Trim(w.lines[n]), word + " ");
    FitsFromParts(NewLine(w, word), w.lines[..n] + [Trim(w.lines[n])], word + " ", length);
  }

  /** Finished lines followed by the line being filled. */
  lemma FitsFromParts(w: Wrap, done: seq<string>, last: string, length: int)
    requires w.lines == done + [last] && Finished(done, length) && Filling(last, w.count, length)
    ensures LinesFit(w, length)
  {
    SnocParts(done, last);
  }

  lemma {:induction false} NewLinesFit(w: Wrap, pieces: seq<string>, length: int)
    requires LinesFit(w, length) && length >= 1
    requires forall i :: 0 <= i < |pieces| ==> WellEscaped(pieces[i]) && Len(pieces[i]) <= length
    ensures LinesFit(NewLines(w, pieces), length)
    decreases |pieces|
  {
    if pieces != [] {
      NewLineFits(w, pieces[0], length);
      NewLinesFit(NewLine(w, pieces[0]), pieces[1..], length);
    }
  }

  /** Each step of the `wordwrap` loop with cutting on keeps every line within the width. */
  lemma PlaceFits(w: Wrap, word: string, length: int)
    requires LinesFit(w, length) && length >= 1 && WellEscaped(word) && ' ' !in word
    ensures LinesFit(Place(w, word, length, true), length)
  {
    if w.count + Len(word) <= length {
      AppendFits(w, word, length);
    } else if Len(word) > length {
      SplitPieces(word, length);
      NewLinesFit(w, Explode(SplitFrom(word, length, " ", 0, false), ' '), length);
    } else {
      NewLineFits(w, word, length);
    }
  }

  lemma {:induction false} WrapFromFits(w: Wrap, words: seq<string>, length: int)
    requires LinesFit(w, length) && length >= 1
    requires forall i :: 0 <= i < |words| ==> WellEscaped(words[i]) && ' ' !in words[i]
    ensures LinesFit(WrapFrom(w, words, length, true), length)
    decreases |words|
  {
    if words != [] {
      PlaceFits(w, words[0], length);
      WrapFromFits(Place(w, words[0], length, true), words[1..], length);
    }
  }

  /** With cutting on, every line `wordwrap` joins has at most `length`
      visible characters once the blanks at its end are dropped: words that
      fit share a line, and a word longer than a line is cut into pieces that
      each fit. */
  lemma WrapLinesFit(text: string, length: int)
    requires length >= 1 && WellEscaped(text)
    ensures var lines := WrapFrom(Wrap(0, [""]), Explode(text, ' '), length, true).lines;
      forall i :: 0 <= i < |lines| ==> Len(TrimRight(lines[i])) <= length
  {
    ExplodeWellEscaped(text);
    assert Filling("", 0, length);
    WrapFromFits(Wrap(0, [""]), Explode(text, ' '), length);
    LinesFitTrimmed(WrapFrom(Wrap(0, [""]), Explode(text, ' '), length, true), length);
  }

  /** Lines that fit keep at most `length` visible characters without their trailing blanks. */
  lemma LinesFitTrimmed(w: Wrap, length: int)
    requires LinesFit(w, length) && length >= 1
    ensures forall i :: 0 <= i < |w.lines| ==> Len(TrimRight(w.lines[i])) <= length
  {
    forall i | 0 <= i < |w.lines| ensures Len(TrimRight(w.lines[i])) <= length {
      LineFitTrimmed(w, i, length);
    }
  }

  lemma LineFitTrimmed(w: Wrap, i: int, length: int)
    requires LinesFit(w, length) && length >= 1 && 0 <= i < |w.lines|
    ensures Len(TrimRight(w.lines[i])) <= length
  {
    if i < |w.lines| - 1 {
      assert w.lines[..|w.lines| - 1][i] == w.lines[i];
      LenTrimRight(w.lines[i]);
    } else {
      LastLineTrimmed(w, length);
    }
  }

  lemma LastLineTrimmed(w: Wrap, length: int)
    requires LinesFit(w, length) && length >= 1
    ensures Len(TrimRight(w.lines[|w.lines| - 1])) <= length
  {
    FillingTrim(w.lines[|w.lines| - 1], w.count, length);
  }





  /** The inner loop of `wordwrap`: each piece of an over-long word starts a new line. */
  method PlacePieces(count: int, output: seq<string>, pieces: seq<string>) returns (count': int, output': seq<string>)
    requires output != []
    ensures Wrap(count', output') == NewLines(Wrap(count, output), pieces)
  {
    count', output' := count, output;
    var j := 0;
    while j < |pieces|
      invariant 0 <= j <= |pieces| && output' != []
      invariant NewLines(Wrap(count', output'), pieces[j..]) == NewLines(Wrap(count, output), pieces)
    {
      assert pieces[j..][0] == pieces[j] && pieces[j..][1..] == pieces[j + 1..];
      ghost var before := Wrap(count', output');
      var piece := pieces[j];
      var n := |output'| - 1;
      var line := Trim(output'[n]);
      var pieceLength := Len(piece);
      output' := output'[..n] + [line, piece + " "];
      count' := pieceLength + 1;
      assert Wrap(count', output') == NewLine(before, piece);
      j := j + 1;
    }
    assert pieces[j..] == [];
  }

  /** One word of the `wordwrap` loop. */
  method PlaceWord(count: int, output: seq<string>, word: string, length: int, cut: bool)
    returns (count': int, output': seq<string>)
    requires output != [] && length >= 1
    ensures Wrap(count', output') == Place(Wrap(count, output), word, length, cut)
  {
    ghost var w := Wrap(count, output);
    var wordLength := Len(word);
    var n := |output| - 1;
    if count + wordLength <= length {
      var line := output[n] + word + " ";
      count' := count + wordLength + 1;
      output' := output[..n] + [line];
      assert Wrap(count', output') == Append(w, word);
    } else if cut && wordLength > length {
      var split := Split(word, length, " ");
      count', output' := PlacePieces(count, output, Explode(split.value, ' '));
    } else {
      var line := Trim(output[n]);
      output' := output[..n] + [line, word + " "];
      count' := wordLength + 1;
      assert Wrap(count', output') == NewLine(w, word);
    }
  }

  /** `wordwrap`, word by word. */
  method Wordwrap(text: string, length: int, brk: string, cut: bool) returns (r: Result<string, string>)
    ensures r == WordwrapSpec(text, length, brk, cut)
  {
    if length < 1 {
      return Err(LengthError);
    }
    var words := Explode(text, ' ');
    var count := 0;
    var output: seq<string> := [""];
    var i := 0;
    while i < |words|
      invariant 0 <= i <= |words| && output != []
      invariant WrapFrom(Wrap(count, output), words[i..], length, cut) == WrapFrom(Wrap(0, [""]), words, length, cut)
    {
      ghost var w := Wrap(count, output);
      count, output := PlaceWord(count, output, words[i], length, cut);
      assert WrapFrom(w, words[i..], length, cut) == WrapFrom(Wrap(count, output), words[i + 1..], length, cut) by {
        assert words[i..][0] == words[i] && words[i..][1..] == words[i + 1..];
      }
      i := i + 1;
    }
    assert words[i..] == [];
    assert WrapFrom(Wrap(0, [""]), words, length, cut).lines == output;
    r := Ok(Trim(Implode(output, brk)));
  }

  // ---------------------------------------------------------------------------
  // build and prepare

  /** The `$length` argument: `false` (no limit), `null` (the terminal's
      width) or a number of columns. */
  datatype Length = NoLimit | Auto | Limit(n: int)

  /** `$text .= ('\\' === substr($text, -1)) ? ' ' : ''`: a trailing
      backslash gets a space after it. */
  function EndFix(t: string): (r: string)
    ensures t <= r && |r| <= |t| + 1
    ensures r == [] || r[|r| - 1] != '\\'
    ensures t != [] && t[|t| - 1] != '\\' ==> r == t
  {
    if t != [] && t[|t| - 1] == '\\' then t + " " else t
  }

  function Spaces(n: nat): (r: string)
    ensures |r| == n && forall i :: 0 <= i < n ==> r[i] == ' '
  {
    seq(n, _ => ' ')
  }

  /** The console markup `build` applies first: bold, underline, then colours. */
  function Formatted(text: string): string {
    var bolded := FormatSpec(text, BoldCode, ConsoleColors.BoldOn, ConsoleColors.BoldOff);
    var underlined := FormatSpec(bolded, UnderlineCode, ConsoleColors.UnderlineOn, ConsoleColors.UnderlineOff);
    Formatter.Render(Formatter.Console, HtmlColors.Closed, Pieces(underlined)).0
  }

  /** `build` once the width less the offset is known as `length`. Text that
      fits is kept; otherwise it is wrapped or split into lines, each new line
      indented by `offset` spaces, or cut three characters short and ended
      with `...` and, when it holds an escape sequence, a reset. */
  function Fit(text: string, length: int, brk: bool, wrap: bool, offset: nat): (r: Result<string, string>)
    ensures r.Err? <==> Len(text) > length && (if brk then length < 1 else length < 4)
    ensures r.Err? ==> r.error == LengthError
    ensures r.Ok? ==> r.value == [] || r.value[|r.value| - 1] != '\\'
  {
    if Len(text) <= length then Ok(EndFix(text))
    else if brk then
      var broken :- if wrap then WordwrapSpec(text, length, "\n", true) else SplitSpec(text, length, "\n");
      Ok(EndFix(Replace(broken, "\n", "\n" + Spaces(offset))))
    else
      var c :- CutSpec(text, length - 3);
      var t := c + "...";
      Ok(EndFix(if ESC in t then t + [ESC] + "[0m" else t))
  }

  /** `build` on the formatted text, with the terminal's answers given: whether
      `exec` is available and the number of columns it reports. */
  function BuildSpec(formatted: string, length: Length, brk: bool, wrap: bool, offset: nat,
                     execAvailable: bool, columns: int): (r: Result<string, string>)
    ensures length.NoLimit? ==> r == Ok(EndFix(formatted))
    ensures length.Auto? && (!execAvailable || columns == 0) ==> r == Ok(formatted)
    ensures r.Ok? && !length.Auto? ==> r.value == [] || r.value[|r.value| - 1] != '\\'
  {
    if length.NoLimit? then Ok(EndFix(formatted))
    else if length.Auto? && (!execAvailable || columns == 0) then Ok(formatted)
    else
      var width := if length.Auto? then columns else length.n;
      Fit(formatted, width - offset, brk, wrap, offset)
  }

  /** Text whose visible length fits the width less the offset comes back
      unchanged, apart from the space after a trailing backslash. */
  lemma BuildKeepsShortText(formatted: string, n: int, brk: bool, wrap: bool, offset: nat)
    requires Len(formatted) <= n - offset
    ensures BuildSpec(formatted, Limit(n), brk, wrap, offset, false, 0) == Ok(EndFix(formatted))
  {
  }

  /** Without breaking, `Fit` keeps the cut text, appends `...`, and ends with
      a reset exactly when the cut text holds an ESC. */
  lemma FitCuts(text: string, length: int, wrap: bool, offset: nat)
    requires Len(text) > length >= 4
    ensures var c := CutFrom(text, length - 3, 0, false);
      Fit(text, length, false, wrap, offset) == Ok(c + "..." + (if ESC in c then [ESC] + "[0m" else ""))
  {
    var c := CutFrom(text, length - 3, 0, false);
    var t := c + "...";
    assert ESC in t <==> ESC in c;
    var fixed := if ESC in t then t + [ESC] + "[0m" else t;
    assert CutSpec(text, length - 3) == Ok(c);
    assert Fit(text, length, false, wrap, offset) == Ok(EndFix(fixed));
    assert EndFix(fixed) == fixed;
    assert fixed == c + "..." + (if ESC in c then [ESC] + "[0m" else "");
  }

  /** Without breaking, an over-long text is cut to three characters less
      than the width and followed by `...` and, when it holds an ESC, a reset.
      The kept part (a prefix of the text, by `CutIsPrefix`) reaches that count;
      on well-escaped text it is a proper prefix with exactly that many visible
      characters by `len`. */
  lemma BuildCutsLongText(formatted: string, n: int, wrap: bool, offset: nat)
    requires Len(formatted) > n - offset >= 4
    ensures var r := BuildSpec(formatted, Limit(n), false, wrap, offset, false, 0);
      var c := CutFrom(formatted, n - offset - 3, 0, false);
      && r == Ok(c + "..." + (if ESC in c then [ESC] + "[0m" else ""))
      && (c == formatted || CountFrom(c, 0, false).0 == n - offset - 3)
      && (WellEscaped(formatted) ==> |c| < |formatted| && Len(c) == n - offset - 3)
  {
    var r := BuildSpec(formatted, Limit(n), false, wrap, offset, false, 0);
    assert r == Fit(formatted, n - offset, false, wrap, offset) by {
      BuildWithLimit(formatted, n, false, wrap, offset);
    }
    CutReachesLength(formatted, n - offset - 3);
    FitCuts(formatted, n - offset, wrap, offset);
    if WellEscaped(formatted) {
      CutKeepsLen(formatted, n - offset - 3);
    }
  }

  /** On well-escaped text with more visible characters than `length`, `cut`
      keeps a proper prefix with exactly `length` of them. */
  lemma CutKeepsLen(s: string, length: int)
    requires WellEscaped(s) && 0 < length < Len(s)
    ensures var c := CutFrom(s, length, 0, false);
      |c| < |s| && Len(c) == length
  {
    var c := CutFrom(s, length, 0, false);
    CutWellEscaped(s, length, 0);
    assert c <= s && Len(c) != Len(s);
    assert c != s;
  }

  /** With breaking on, the text broken into lines (by `wordwrap` or by
      `split`) has every line after the first indented by `offset` spaces:
      its lines are joined with a newline and the spaces, where joining them
      with the newline alone gives the broken text back. */
  lemma FitBreaksAndIndents(text: string, length: int, wrap: bool, offset: nat)
    requires Len(text) > length >= 1
    ensures var broken := if wrap then WordwrapSpec(text, length, "\n", true) else SplitSpec(text, length, "\n");
      && broken.Ok?
      && Implode(Explode(broken.value, '\n'), "\n") == broken.value
      && Fit(text, length, true, wrap, offset) == Ok(EndFix(Implode(Explode(broken.value, '\n'), "\n" + Spaces(offset))))
  {
    var broken := if wrap then WordwrapSpec(text, length, "\n", true) else SplitSpec(text, length, "\n");
    ImplodeExplode(broken.value, '\n');
    ReplaceCharJoins(broken.value, '\n', "\n" + Spaces(offset));
  }

  /** With a given width, `build` fits the text to the width less the offset. */
  lemma BuildWithLimit(formatted: string, n: int, brk: bool, wrap: bool, offset: nat)
    ensures BuildSpec(formatted, Limit(n), brk, wrap, offset, false, 0) == Fit(formatted, n - offset, brk, wrap, offset)
  {
  }

  /** The first half of `CutFromSpec`, from a zero count. */
  lemma CutReachesLength(s: string, length: int)
    requires 0 < length
    ensures var c := CutFrom(s, length, 0, false);
      c == s || CountFrom(c, 0, false).0 == length
  {
    CutFromSpec(s, length, 0, false);
  }

  /** With breaking on, a length the width leaves below 1 is an error. */
  lemma BuildRefusesNarrowWidth(formatted: string, n: int, wrap: bool, offset: nat)
    requires Len(formatted) > n - offset && n - offset < 1
    ensures BuildSpec(formatted, Limit(n), true, wrap, offset, false, 0) == Err(LengthError)
  {
  }

  /** The fitting half of `build`: the width is the given limit, or the
      console's columns when they can be asked for. */
  method FitTo(t: string, length: Length, brk: bool, wrap: bool, offset: nat,
               execAvailable: bool, columns: int) returns (r: Result<string, string>)
    ensures r == BuildSpec(t, length, brk, wrap, offset, execAvailable, columns)
  {
    if length.NoLimit? {
      r := Ok(EndFix(t));
    } else if length.Auto? && (!execAvailable || columns == 0) {
      r := Ok(t);
    } else {
      var width := if length.Auto? then columns else length.n;
      r := FitWidth(t, width - offset, brk, wrap, offset);
    }
  }

  /** The second half of `build`, from `$length -= $offset` on. */
  method FitWidth(text: string, length: int, brk: bool, wrap: bool, offset: nat) returns (r: Result<string, string>)
    ensures r == Fit(text, length, brk, wrap, offset)
  {
    if Len(text) <= length {
      return Ok(EndFix(text));
    }
    var t: string;
    if brk {
      var broken;
      if wrap {
        broken := Wordwrap(text, length, "\n", true);
      } else {
        broken := Split(text, length, "\n");
      }
      if broken.Err? {
        return Err(broken.error);
      }
      t := Replace(broken.value, "\n", "\n" + Spaces(offset));
    } else {
      var c := Cut(text, length - 3);
      if c.Err? {
        return Err(c.error);
      }
      t := c.value + "...";
      if ESC in t {
        t := t + [ESC] + "[0m";
      }
    }
    return Ok(EndFix(t));
  }

  /** Text without formatting codes is not changed by the formatter. */
  lemma FormattedPlain(text: string)
    requires BoldCode !in text && UnderlineCode !in text && ColorCode !in text
    ensures Formatted(text) == text
  {
    FormatNoDelimiter(text, BoldCode, ConsoleColors.BoldOn, ConsoleColors.BoldOff);
    FormatNoDelimiter(text, UnderlineCode, ConsoleColors.UnderlineOn, ConsoleColors.UnderlineOff);
    Formatter.ColorWithoutCodes(Formatter.Console, HtmlColors.Closed, text);
  }

  /** Three chunks of plain text, the first two `length` characters long. */
  lemma SplitThreeChunks(a: string, b: string, c: string, length: int, end: string)
    requires |a| == length && |b| == length && |c| < length
    requires ESC !in a && ESC !in b && ESC !in c
    ensures SplitFrom(a + b + c, length, end, 0, false) == a + end + b + end + c
  {
    assert a + b + c == a + (b + c);
    SplitPlain(a, b + c, length, end);
    SplitPlain(b, c, length, end);
    CountPlain(c, 0);
    SplitShort(c, length, end);
  }

  lemma FitSplitsIntoLines(a: string, b: string, c: string, n: int)
    requires |a| == n && |b| == n && |c| < n && ESC !in a + b + c
    ensures Fit(a + b + c, n, true, false, 0) == Ok(EndFix(a + "\n" + b + "\n" + c))
  {
    var text := a + b + c;
    LenPlain(text);
    SplitThreeChunks(a, b, c, n, "\n");
    var split := a + "\n" + b + "\n" + c;
    assert SplitSpec(text, n, "\n") == Ok(split);
    assert "\n" + Spaces(0) == "\n";
    ReplaceSame(split, "\n");
  }

  /** Breaking plain text into lines of `n` characters, as with
      `0123456789\\` and a width of 5, which gives `01234`, `56789` and a
      last line holding the backslash and a space. */
  lemma BuildSplitsIntoLines(a: string, b: string, c: string, n: int, execAvailable: bool, columns: int)
    requires |a| == n && |b| == n && 1 <= |c| < n
    requires ESC !in a + b + c && BoldCode !in a + b + c
    requires UnderlineCode !in a + b + c && ColorCode !in a + b + c
    ensures BuildSpec(Formatted(a + b + c), Limit(n), true, false, 0, execAvailable, columns)
      == Ok(EndFix(a + "\n" + b + "\n" + c))
  {
    FormattedPlain(a + b + c);
    FitSplitsIntoLines(a, b, c, n);
  }

  /** `-noconsole` among the command-line arguments. */
  predicate NoConsole(param: Option<seq<string>>) {
    param.Some? && "-noconsole" in param.value
  }

  /** The console output object, reduced to what `prepare` reads. The answers
      of the System class about the terminal and Symfony's escaping function
      are fixed when the object is made. */
  class OutputConsole {
    const formatter: Formatter.Formatter
    /** `$param`: `null` until `setParam` is called. */
    var param: Option<seq<string>>
    /** `System::isExecAvailable()`. */
    const execAvailable: bool
    /** `System::getConsoleColumns()`. */
    const columns: int
    /** `OutputFormatter::escape`. */
    const escape: string -> string

    constructor (formatter: Formatter.Formatter, execAvailable: bool, columns: int, escape: string -> string)
      requires formatter.kind == Formatter.Console
      ensures this.formatter == formatter && param == None
      ensures this.execAvailable == execAvailable && this.columns == columns && this.escape == escape
    {
      this.formatter := formatter;
      param := None;
      this.execAvailable := execAvailable;
      this.columns := columns;
      this.escape := escape;
    }

    /** `setParam($argv)`. */
    method SetParam(argv: seq<string>)
      modifies this
      ensures param == Some(argv)
    {
      param := Some(argv);
    }

    /** The three passes of the console formatter, in the order `build` runs them. */
    method Format(text: string) returns (t: string)
      requires formatter.kind == Formatter.Console
      modifies formatter
      ensures t == Formatted(text)
      ensures formatter.State() == old(formatter.State())
    {
      t := formatter.Bold(text);
      t := formatter.Underline(t);
      ghost var pieces := Pieces(t);
      Formatter.ConsoleRenderOutput(formatter.State(), HtmlColors.Closed, pieces);
      Formatter.ConsoleRenderStateless(formatter.State(), pieces);
      t := formatter.Color(t);
    }

    /** `build`: the formatter's markup, then the fitting. */
    method Build(text: string, length: Length, brk: bool, wrap: bool, offset: nat) returns (r: Result<string, string>)
      requires formatter.kind == Formatter.Console
      modifies formatter
      ensures r == BuildSpec(Formatted(text), length, brk, wrap, offset, execAvailable, columns)
      ensures formatter.State() == old(formatter.State())
    {
      var t := Format(text);
      r := FitTo(t, length, brk, wrap, offset, execAvailable, columns);
    }

    /** `prepare`: the text is built unless `-noconsole` was given, and then
        escaped when asked. An exception from `build` passes through. */
    method Prepare(text: string, escapeText: bool, length: Length, brk: bool, wrap: bool, offset: nat)
      returns (r: Result<string, string>)
      requires formatter.kind == Formatter.Console
      modifies formatter
      ensures var built := if NoConsole(param) then Ok(text)
                           else BuildSpec(Formatted(text), length, brk, wrap, offset, execAvailable, columns);
        r == if built.Err? then built else Ok(if escapeText then escape(built.value) else built.value)
      ensures formatter.State() == old(formatter.State())
    {
      var t := text;
      if !(param.Some? && "-noconsole" in param.value) {
        var built := Build(text, length, brk, wrap, offset);
        if built.Err? {
          return built;
        }
        t := built.value;
      }
      return Ok(if escapeText then escape(t) else t);
    }
  }
}
