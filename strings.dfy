/** The PHP string builtins the bot relies on, over byte strings
    (`string` here is a sequence of characters, one per byte). */
module Strings {

  const ESC: char := '\U{1B}'

  // ---------------------------------------------------------------------------
  // explode / implode on a one-character delimiter

  /** `explode($d, $s)`: the pieces between occurrences of `d`. */
  function Explode(s: string, d: char): (r: seq<string>)
    ensures |r| >= 1
    ensures forall i :: 0 <= i < |r| ==> d !in r[i]
    ensures d !in s ==> r == [s]
    ensures d in s ==> |r| >= 2
    decreases |s|
  {
    if s == [] then [[]]
    else
      var rest := Explode(s[1..], d);
      if s[0] == d then [[]] + rest
      else
        assert [s[0]] + s[1..] == s;
        [[s[0]] + rest[0]] + rest[1..]
  }

  /** `implode($sep, $parts)`. */
  function Implode(parts: seq<string>, sep: string): string
    decreases |parts|
  {
    if |parts| == 0 then []
    else if |parts| == 1 then parts[0]
    else parts[0] + sep + Implode(parts[1..], sep)
  }

  /** Two pieces are joined with one separator between them. */
  lemma ImplodePair(a: string, b: string, sep: string)
    ensures Implode([a, b], sep) == a + sep + b
  {
    assert [a, b][1..] == [b];
  }

  /** Text before the first piece is joined onto that piece. */
  lemma ImplodePrepend(x: string, parts: seq<string>, sep: string)
    requires |parts| >= 1
    ensures Implode([x + parts[0]] + parts[1..], sep) == x + Implode(parts, sep)
  {
    var joined := [x + parts[0]] + parts[1..];
    assert joined[0] == x + parts[0] && joined[1..] == parts[1..];
  }

  /** Joining the pieces of `explode` with the delimiter gives the text back. */
  lemma {:induction false} ImplodeExplode(s: string, d: char)
    ensures Implode(Explode(s, d), [d]) == s
    decreases |s|
  {
    if s != [] {
      var rest := Explode(s[1..], d);
      ImplodeExplode(s[1..], d);
      if s[0] == d {
        var parts := [[]] + rest;
        assert Explode(s, d) == parts && parts[0] == [] && parts[1..] == rest;
        assert Implode(parts, [d]) == [] + [d] + s[1..];
      } else {
        assert Explode(s, d) == [[s[0]] + rest[0]] + rest[1..];
        ImplodePrepend([s[0]], rest, [d]);
      }
      assert s == [s[0]] + s[1..];
    }
  }

  lemma {:induction false} ExplodeAfterDelimiter(u: string, d: char, w: string)
    requires d !in u
    ensures Explode(u + [d] + w, d) == [u] + Explode(w, d)
    decreases |u|
  {
    if u == [] {
      assert u + [d] + w == [d] + w;
      assert ([d] + w)[1..] == w;
    } else {
      var tail := [d] + w;
      ExplodeAfterDelimiter(u[1..], d, w);
      assert u[1..] + [d] + w == u[1..] + tail;
      assert u + [d] + w == u + tail;
      ConsSplit(u, tail);
      ExplodeCons(u[0], u[1..] + tail, d);
      ConsParts(u[1..], Explode(w, d));
      assert [u[0]] + u[1..] == u;
    }
  }

  /** Text without the delimiter in front of other text is joined onto its first piece. */
  lemma {:induction false} ExplodePrefix(u: string, w: string, d: char)
    requires d !in u
    ensures var rest := Explode(w, d); Explode(u + w, d) == [u + rest[0]] + rest[1..]
    decreases |u|
  {
    var rest := Explode(w, d);
    if u == [] {
      assert u + w == w && u + rest[0] == rest[0] && [rest[0]] + rest[1..] == rest;
    } else {
      ExplodePrefix(u[1..], w, d);
      ConsParts(u[1..] + rest[0], rest[1..]);
      ConsSplit(u, w);
      ExplodeCons(u[0], u[1..] + w, d);
      ConsSplit(u, rest[0]);
    }
  }

  /** A first character other than the delimiter goes on the first piece. */
  lemma ExplodeCons(c: char, s: string, d: char)
    requires c != d
    ensures var rest := Explode(s, d); Explode([c] + s, d) == [[c] + rest[0]] + rest[1..]
  {
    ConsParts(c, s);
  }

  /** Two delimiters give the two pieces before them, then the pieces of the rest. */
  lemma ExplodePair(u: string, v: string, w: string, d: char)
    requires d !in u && d !in v
    ensures Explode(u + [d] + v + [d] + w, d) == [u, v] + Explode(w, d)
  {
    var tail := v + [d] + w;
    ExplodeAfterDelimiter(v, d, w);
    ExplodeAfterDelimiter(u, d, tail);
    ConcatAssoc(u + [d], v, [d]);
    ConcatAssoc(u + [d], v + [d], w);
    ConsPair(u, v, Explode(w, d));
  }

  lemma ConcatAssoc<T>(a: seq<T>, b: seq<T>, c: seq<T>)
    ensures a + b + c == a + (b + c)
  {
  }

  lemma ConsParts<T>(a: T, r: seq<T>)
    ensures ([a] + r)[0] == a && ([a] + r)[1..] == r
  {
  }

  lemma PrefixRest<T>(p: seq<T>, s: seq<T>, x: T)
    requires p <= s && x !in s
    ensures s == p + s[|p|..] && x !in p && x !in s[|p|..]
  {
    assert s == p + s[|p|..];
  }

  lemma PrefixAfterTake<T>(s: seq<T>, k: nat, c: seq<T>)
    requires k <= |s| && c <= s[k..]
    ensures s[..k] + c <= s && s[|s[..k] + c|..] == s[k..][|c|..]
  {
    assert s == s[..k] + s[k..];
    assert s[k..] == c + s[k..][|c|..];
    assert s == (s[..k] + c) + s[k..][|c|..];
  }

  lemma SliceAround<T>(s: seq<T>, k: nat)
    requires 2 <= k <= |s|
    ensures s[1..] == s[1..k - 1] + [s[k - 1]] + s[k..]
    ensures s[..k] == [s[0]] + s[1..k - 1] + [s[k - 1]]
  {
  }

  lemma JoinAround<T>(a: seq<T>, p: seq<T>, b: seq<T>, x: seq<T>)
    ensures a + (p + b + x) == (a + p + b) + x
  {
  }

  lemma ConsSplit<T>(u: seq<T>, x: seq<T>)
    requires u != []
    ensures [u[0]] + (u[1..] + x) == u + x
  {
    assert u == [u[0]] + u[1..];
  }

  /** Slices of a concatenation within its first part. */
  lemma AppendSlices<T>(s: seq<T>, t: seq<T>, k: nat)
    requires k <= |s|
    ensures (s + t)[..k] == s[..k] && (s + t)[k..] == s[k..] + t
  {
  }

  /** Sequences with the same first `k` elements agree on every slice of them. */
  lemma SharedSlices<T>(s: seq<T>, t: seq<T>, k: nat)
    requires 2 <= k <= |s| && k <= |t| && s[..k] == t[..k]
    ensures s[0] == t[0] && s[1] == t[1] && s[k - 1] == t[k - 1]
    ensures s[2..][..k - 2] == t[2..][..k - 2]
  {
    assert s[0] == s[..k][0] && t[0] == t[..k][0];
    assert s[1] == s[..k][1] && t[1] == t[..k][1];
    assert s[k - 1] == s[..k][k - 1] && t[k - 1] == t[..k][k - 1];
    assert s[2..][..k - 2] == s[..k][2..] && t[2..][..k - 2] == t[..k][2..];
  }

  /** `implode` with one more part in front. */
  lemma ImplodeCons(x: string, parts: seq<string>, sep: string)
    requires |parts| >= 1
    ensures Implode([x] + parts, sep) == x + sep + Implode(parts, sep)
  {
    ConsParts(x, parts);
  }

  /** `implode` with no separator, with one more part in front. */
  lemma ConcatCons(x: string, parts: seq<string>)
    requires |parts| >= 1
    ensures Implode([x] + parts, []) == x + Implode(parts, [])
  {
    ImplodeCons(x, parts, []);
    assert x + [] == x;
  }

  lemma SnocPair<T>(s: seq<T>, a: T, b: T)
    ensures s + [a, b] == (s + [a]) + [b]
  {
  }

  /** The parts of a sequence with one element added at the end. */
  lemma SnocParts<T>(s: seq<T>, x: T)
    ensures (s + [x])[..|s|] == s && (s + [x])[|s|] == x
  {
  }

  lemma ConsPair<T>(a: T, b: T, r: seq<T>)
    ensures [a] + ([b] + r) == [a, b] + r
  {
  }

  /** Splitting the joined pieces gives the pieces back, when none holds the delimiter. */
  lemma {:induction false} ExplodeImplode(parts: seq<string>, d: char)
    requires |parts| >= 1
    requires forall i :: 0 <= i < |parts| ==> d !in parts[i]
    ensures Explode(Implode(parts, [d]), d) == parts
    decreases |parts|
  {
    if |parts| > 1 {
      ExplodeImplode(parts[1..], d);
      ExplodeAfterDelimiter(parts[0], d, Implode(parts[1..], [d]));
      assert [parts[0]] + parts[1..] == parts;
    }
  }

  // ---------------------------------------------------------------------------
  // str_replace with one search string

  predicate OccursAt(s: string, t: string, i: int) {
    0 <= i && i + |t| <= |s| && s[i..i + |t|] == t
  }

  ghost predicate Occurs(s: string, t: string) {
    exists i :: OccursAt(s, t, i)
  }

  /** `str_replace($search, $repl, $s)`: every non-overlapping occurrence,
      scanning left to right, is replaced. */
  function Replace(s: string, search: string, repl: string): string
    requires search != []
    decreases |s|
  {
    if |s| < |search| then s
    else if s[..|search|] == search then repl + Replace(s[|search|..], search, repl)
    else [s[0]] + Replace(s[1..], search, repl)
  }

  /** A text without the search string is left alone. */
  lemma {:induction false} ReplaceAbsent(s: string, search: string, repl: string)
    requires search != []
    requires !Occurs(s, search)
    ensures Replace(s, search, repl) == s
    decreases |s|
  {
    if |s| >= |search| {
      assert !OccursAt(s, search, 0);
      assert s[..|search|] != search;
      forall i | OccursAt(s[1..], search, i) ensures false {
        assert s[1..][i..i + |search|] == s[i + 1..i + 1 + |search|];
        assert OccursAt(s, search, i + 1);
      }
      ReplaceAbsent(s[1..], search, repl);
      assert [s[0]] + s[1..] == s;
    }
  }

  /** Replacing a string by itself changes nothing. */
  lemma {:induction false} ReplaceSame(s: string, search: string)
    requires search != []
    ensures Replace(s, search, search) == s
    decreases |s|
  {
    if |s| >= |search| {
      if s[..|search|] == search {
        ReplaceSame(s[|search|..], search);
        assert s[..|search|] + s[|search|..] == s;
      } else {
        ReplaceSame(s[1..], search);
        assert [s[0]] + s[1..] == s;
      }
    }
  }

  /** A search string holding a character the text lacks does not occur in it. */
  lemma MissingCharNoOccurrence(s: string, search: string, c: char)
    requires c in search && c !in s
    ensures !Occurs(s, search)
  {
    forall i | OccursAt(s, search, i) ensures false {
    }
  }

  /** Replacing a single character by text without it removes it everywhere. */
  lemma {:induction false} ReplaceCharRemoves(s: string, c: char, repl: string)
    requires c !in repl
    ensures c !in Replace(s, [c], repl)
    decreases |s|
  {
    if |s| >= 1 {
      ReplaceCharRemoves(s[1..], c, repl);
      assert s[..1] == [s[0]];
      assert s[1..] == s[|[c]|..];
    }
  }

  /** A text followed by the search string, with no earlier start of it, loses exactly that suffix. */
  lemma {:induction false} ReplaceSuffix(u: string, search: string)
    requires search != [] && search[0] !in u
    ensures Replace(u + search, search, []) == u
    decreases |u|
  {
    if u == [] {
      assert (u + search)[..|search|] == search;
      assert (u + search)[|search|..] == [];
    } else {
      var s := u + search;
      assert s[0] == u[0] && u[0] != search[0];
      assert s[..|search|] != search by { assert s[..|search|][0] != search[0]; }
      assert s[1..] == u[1..] + search;
      ReplaceSuffix(u[1..], search);
      assert [u[0]] + u[1..] == u;
    }
  }

  /** Replacing a leading occurrence of the search string. */
  lemma ReplacePrefix(search: string, w: string, repl: string)
    requires search != []
    ensures Replace(search + w, search, repl) == repl + Replace(w, search, repl)
  {
    assert (search + w)[..|search|] == search;
    assert (search + w)[|search|..] == w;
  }

  /** Replacing a one-character search string joins the pieces between its
      occurrences with the replacement. */
  lemma {:induction false} ReplaceCharJoins(s: string, d: char, repl: string)
    ensures Replace(s, [d], repl) == Implode(Explode(s, d), repl)
    decreases |s|
  {
    if s != [] {
      var rest := Explode(s[1..], d);
      ReplaceCharJoins(s[1..], d, repl);
      assert s[..1] == [s[0]];
      if s[0] == d {
        ImplodeCons([], rest, repl);
      } else {
        ImplodePrepend([s[0]], rest, repl);
      }
    }
  }

  /** `str_replace` with arrays: each search string in turn, over the whole subject. */
  function ReplaceEach(s: string, search: seq<string>, repl: seq<string>): string
    requires |search| == |repl|
    requires forall i :: 0 <= i < |search| ==> search[i] != []
    decreases |search|
  {
    if search == [] then s
    else ReplaceEach(Replace(s, search[0], repl[0]), search[1..], repl[1..])
  }

  // ---------------------------------------------------------------------------
  // trim and the `\s+` collapse of preg_replace

  /** The characters PHP's `trim` removes by default. */
  predicate IsTrimChar(c: char) {
    c == ' ' || c == '\t' || c == '\n' || c == '\r' || c == '\0' || c == '\U{0B}'
  }

  function TrimLeft(s: string): (r: string)
    ensures |r| <= |s| && r == s[|s| - |r|..]
    ensures r == [] || !IsTrimChar(r[0])
    decreases |s|
  {
    if s != [] && IsTrimChar(s[0]) then TrimLeft(s[1..]) else s
  }

  function TrimRight(s: string): (r: string)
    ensures |r| <= |s| && r == s[..|r|]
    ensures r == [] || !IsTrimChar(r[|r| - 1])
    decreases |s|
  {
    if s != [] && IsTrimChar(s[|s| - 1]) then TrimRight(s[..|s| - 1]) else s
  }

  /** The characters stripped on the left are all trim characters. */
  lemma {:induction false} TrimLeftRemoves(s: string)
    ensures forall i :: 0 <= i < |s| - |TrimLeft(s)| ==> IsTrimChar(s[i])
    decreases |s|
  {
    if s != [] && IsTrimChar(s[0]) {
      TrimLeftRemoves(s[1..]);
      forall i | 1 <= i < |s| - |TrimLeft(s)| ensures IsTrimChar(s[i]) {
        assert s[i] == s[1..][i - 1];
      }
    }
  }

  /** The characters stripped on the right are all trim characters. */
  lemma {:induction false} TrimRightRemoves(s: string)
    ensures forall i :: |TrimRight(s)| <= i < |s| ==> IsTrimChar(s[i])
    decreases |s|
  {
    if s != [] && IsTrimChar(s[|s| - 1]) {
      TrimRightRemoves(s[..|s| - 1]);
    }
  }

  /** PHP `trim`: strips trim characters at both ends. */
  function Trim(s: string): (r: string)
    ensures r == [] || (!IsTrimChar(r[0]) && !IsTrimChar(r[|r| - 1]))
    ensures (s == [] || (!IsTrimChar(s[0]) && !IsTrimChar(s[|s| - 1]))) ==> r == s
  {
    TrimRight(TrimLeft(s))
  }

  /** `trim` of a text ending in a space: what `ltrim` strips lies in the
      text before the space, and `rtrim` then drops the space too. */
  lemma TrimSpaceParts(x: string) returns (k: nat)
    ensures k <= |x| && forall i :: 0 <= i < k ==> IsTrimChar(x[i])
    ensures Trim(x + [' ']) == [] || Trim(x + [' ']) == TrimRight(x[k..])
  {
    var z := x + [' '];
    var l := TrimLeft(z);
    k := |z| - |l|;
    TrimLeftRemoves(z);
    if l != [] {
      assert l == z[k..] && k <= |x|;
      assert l[|l| - 1] == ' ' && l[..|l| - 1] == x[k..];
      assert forall i :: 0 <= i < k ==> x[i] == z[i];
    } else {
      k := 0;
    }
  }

  /** `trim` keeps a middle slice of the text ... */
  lemma TrimKeepsMiddle(s: string)
    ensures var k := |s| - |TrimLeft(s)|;
      k + |Trim(s)| <= |s| && s[k..k + |Trim(s)|] == Trim(s)
  {
    var l := TrimLeft(s);
    var k := |s| - |l|;
    var t := TrimRight(l);
    assert l == s[k..] && t == l[..|t|];
    assert s[k..k + |t|] == l[..|t|];
  }

  /** ... and removes nothing but trim characters around it. */
  lemma TrimRemovesEnds(s: string)
    ensures var k := |s| - |TrimLeft(s)|;
      && (forall i :: 0 <= i < k ==> IsTrimChar(s[i]))
      && (forall i :: k + |Trim(s)| <= i < |s| ==> IsTrimChar(s[i]))
  {
    var l := TrimLeft(s);
    var k := |s| - |l|;
    TrimLeftRemoves(s);
    TrimRightRemoves(l);
    forall i | k + |Trim(s)| <= i < |s| ensures IsTrimChar(s[i]) {
      assert s[i] == l[i - k];
    }
  }

  /** A trailing trim character after a text that starts and ends with
      other characters is the only thing `trim` removes. */
  lemma TrimTrailing(s: string, c: char)
    requires s != [] && !IsTrimChar(s[0]) && !IsTrimChar(s[|s| - 1]) && IsTrimChar(c)
    ensures Trim(s + [c]) == s
  {
    var t := s + [c];
    assert TrimLeft(t) == t by { assert t[0] == s[0]; }
    assert t[..|t| - 1] == s;
    assert TrimRight(t) == TrimRight(s) == s;
  }

  /** The characters PCRE's `\s` matches in byte mode. */
  predicate IsRegexSpace(c: char) {
    c == ' ' || ('\t' <= c <= '\r')
  }

  function DropSpaces(s: string): (r: string)
    ensures |r| <= |s| && r == s[|s| - |r|..]
    ensures r == [] || !IsRegexSpace(r[0])
    decreases |s|
  {
    if s != [] && IsRegexSpace(s[0]) then DropSpaces(s[1..]) else s
  }

  /** `preg_replace('/\s+/', ' ', $s)`: every run of white space becomes one space. */
  function Collapse(s: string): (r: string)
    ensures s == [] <==> r == []
    ensures s != [] ==> (r[0] == ' ' <==> IsRegexSpace(s[0]))
    ensures forall i :: 0 <= i < |r| && IsRegexSpace(r[i]) ==> r[i] == ' '
    ensures forall i :: 0 <= i < |r| - 1 ==> !(r[i] == ' ' && r[i + 1] == ' ')
    decreases |s|
  {
    if s == [] then []
    else if IsRegexSpace(s[0]) then " " + Collapse(DropSpaces(s[1..]))
    else [s[0]] + Collapse(s[1..])
  }

  /** A text already in collapsed form. */
  predicate Collapsed(s: string) {
    && (forall i :: 0 <= i < |s| && IsRegexSpace(s[i]) ==> s[i] == ' ')
    && (forall i :: 0 <= i < |s| - 1 ==> !(s[i] == ' ' && s[i + 1] == ' '))
  }

  /** Collapsing leaves a collapsed text unchanged; with the postcondition of
      `Collapse` this makes it idempotent. */
  lemma {:induction false} CollapseFixesCollapsed(s: string)
    requires Collapsed(s)
    ensures Collapse(s) == s
    decreases |s|
  {
    if s != [] {
      assert Collapsed(s[1..]) by {
        forall i | 0 <= i < |s[1..]| - 1 ensures !(s[1..][i] == ' ' && s[1..][i + 1] == ' ') {
          assert s[1..][i] == s[i + 1] && s[1..][i + 1] == s[i + 2];
        }
      }
      if IsRegexSpace(s[0]) {
        assert s[0] == ' ';
        assert s[1..] == [] || !IsRegexSpace(s[1]);
        assert DropSpaces(s[1..]) == s[1..];
      }
      CollapseFixesCollapsed(s[1..]);
      assert [s[0]] + s[1..] == s;
    }
  }

  lemma CollapseIdempotent(s: string)
    ensures Collapse(Collapse(s)) == Collapse(s)
  {
    CollapseFixesCollapsed(Collapse(s));
  }

  // ---------------------------------------------------------------------------
  // digits, intval and decimal rendering

  predicate IsDigit(c: char) {
    '0' <= c <= '9'
  }

  predicate AllDigits(s: string) {
    forall i :: 0 <= i < |s| ==> IsDigit(s[i])
  }

  /** The longest prefix made of decimal digits. */
  function DigitPrefix(s: string): (r: string)
    ensures |r| <= |s| && r == s[..|r|]
    ensures AllDigits(r)
    ensures |r| == |s| || !IsDigit(s[|r|])
    decreases |s|
  {
    if s != [] && IsDigit(s[0]) then [s[0]] + DigitPrefix(s[1..]) else []
  }

  function DigitValue(c: char): nat
    requires IsDigit(c)
  {
    (c as int) - ('0' as int)
  }

  function DigitsValue(ds: string): nat
    requires AllDigits(ds)
    decreases |ds|
  {
    if ds == [] then 0
    else 10 * DigitsValue(ds[..|ds| - 1]) + DigitValue(ds[|ds| - 1])
  }

  /** `intval` as the bot uses it: the value of the leading decimal digits, 0 if none. */
  function IntVal(s: string): nat {
    DigitsValue(DigitPrefix(s))
  }

  function DigitChar(d: nat): (c: char)
    requires d < 10
    ensures IsDigit(c) && DigitValue(c) == d
  {
    (('0' as int) + d) as char
  }

  /** The decimal notation of `n`, without leading zeros. */
  function DecimalString(n: nat): (r: string)
    ensures r != [] && AllDigits(r)
    ensures |r| > 1 ==> r[0] != '0'
    decreases n
  {
    if n < 10 then [DigitChar(n)] else DecimalString(n / 10) + [DigitChar(n % 10)]
  }

  lemma {:induction false} DigitsValueDecimal(n: nat)
    ensures DigitsValue(DecimalString(n)) == n
    decreases n
  {
    if n >= 10 {
      DigitsValueDecimal(n / 10);
      var r := DecimalString(n);
      assert r[..|r| - 1] == DecimalString(n / 10);
    }
  }

  lemma DigitPrefixOfDigits(s: string)
    requires AllDigits(s)
    ensures DigitPrefix(s) == s
  {
  }

  /** Rendering a number and reading it back with intval gives the number. */
  lemma IntValDecimal(n: nat)
    ensures IntVal(DecimalString(n)) == n
  {
    DigitPrefixOfDigits(DecimalString(n));
    DigitsValueDecimal(n);
  }

  /** At most two digits read as a number below 100. */
  lemma TwoDigitsBound(ds: string)
    requires AllDigits(ds) && |ds| <= 2
    ensures DigitsValue(ds) < 100
  {
    if |ds| == 2 {
      assert ds[..1][..0] == [];
    }
  }

  // ---------------------------------------------------------------------------
  // ASCII case mapping

  function LowerChar(c: char): char {
    if 'A' <= c <= 'Z' then ((c as int) + 32) as char else c
  }

  function UpperChar(c: char): char {
    if 'a' <= c <= 'z' then ((c as int) - 32) as char else c
  }

  /** `strtolower` on ASCII: each upper-case letter becomes its lower-case
      partner, no upper-case letter is left, and everything else is kept. */
  function Lower(s: string): (r: string)
    ensures |r| == |s|
    ensures forall i :: 0 <= i < |s| && 'A' <= s[i] <= 'Z' ==> r[i] == ((s[i] as int) + 32) as char
    ensures forall i :: 0 <= i < |r| ==> !('A' <= r[i] <= 'Z')
    ensures forall i :: 0 <= i < |s| && !('A' <= s[i] <= 'Z') ==> r[i] == s[i]
  {
    seq(|s|, i requires 0 <= i < |s| => LowerChar(s[i]))
  }

  /** `ucfirst`: only the first character may change: a lower-case letter
      becomes its upper-case partner. */
  function Ucfirst(s: string): (r: string)
    ensures |r| == |s| && (s != [] ==> r[1..] == s[1..])
    ensures s != [] && 'a' <= s[0] <= 'z' ==> r[0] == ((s[0] as int) - 32) as char
    ensures s != [] && !('a' <= s[0] <= 'z') ==> r == s
    ensures s != [] ==> !('a' <= r[0] <= 'z')
  {
    if s == [] then [] else [UpperChar(s[0])] + s[1..]
  }

  /** `lcfirst`: only the first character may change: an upper-case letter
      becomes its lower-case partner. */
  function Lcfirst(s: string): (r: string)
    ensures |r| == |s| && (s != [] ==> r[1..] == s[1..])
    ensures s != [] && 'A' <= s[0] <= 'Z' ==> r[0] == ((s[0] as int) + 32) as char
    ensures s != [] && !('A' <= s[0] <= 'Z') ==> r == s
    ensures s != [] ==> !('A' <= r[0] <= 'Z')
  {
    if s == [] then [] else [LowerChar(s[0])] + s[1..]
  }

  predicate StartsWith(s: string, p: string) {
    |p| <= |s| && s[..|p|] == p
  }
}
