/** The cron scheduler (src/Cron.php): a table of jobs keyed by increasing ids,
    a parser for five-field cron expressions and the matcher that decides which
    jobs fire for a given (minute, hour, day of month, month, day of week). */
module Cron {
  import opened Wrappers
  import opened Strings

  /** Why evaluating a job fails. */
  datatype CronError =
    | MalformedExpression  // not five fields: 'a cron has an error'
    | ModuloByZero         // a step of 0 reaching `$j % $steps`

  /** A parsed field: `*` (any value) or its expanded list of values. */
  datatype Matcher = Any | Values(values: seq<int>)

  /** A stored job: the whitespace-collapsed expression and the call to make. */
  datatype Job = Job(expression: string, target: object, methodName: string, param: Option<seq<string>>)

  /** The record of one `target->method(param)` call made by `run`. */
  datatype Invocation = Invocation(target: object, methodName: string, param: Option<seq<string>>)

  /** The time tuple `run` is given. */
  datatype Time = Time(minute: int, hour: int, dayOfMonth: int, month: int, dayOfWeek: int)

  // ---------------------------------------------------------------------------
  // names of months and week days

  const MonthNames: seq<string> := ["jan", "feb", "mar", "apr", "may", "jun", "jul", "aug", "sep", "oct", "nov", "dec"]
  const MonthNumbers: seq<string> := ["1", "2", "3", "4", "5", "6", "7", "8", "9", "10", "11", "12"]
  const DayNames: seq<string> := ["sun", "mon", "tue", "wed", "thu", "fri", "sat"]
  const DayNumbers: seq<string> := ["0", "1", "2", "3", "4", "5", "6"]

  function MonthNameToNumber(subject: string): string {
    ReplaceEach(Lower(subject), MonthNames, MonthNumbers)
  }

  function DowNameToNumber(subject: string): string {
    ReplaceEach(Lower(subject), DayNames, DayNumbers)
  }

  predicate IsLetter(c: char) {
    ('a' <= c <= 'z') || ('A' <= c <= 'Z')
  }

  predicate NoLetters(s: string) {
    forall i :: 0 <= i < |s| ==> !IsLetter(s[i])
  }

  /** Replacements whose search strings start with a letter leave a text without letters alone. */
  lemma {:induction false} ReplaceEachNoLetters(s: string, search: seq<string>, repl: seq<string>)
    requires |search| == |repl|
    requires Words(search)
    requires NoLetters(s)
    ensures ReplaceEach(s, search, repl) == s
    decreases |search|
  {
    if search != [] {
      MissingCharNoOccurrence(s, search[0], search[0][0]);
      ReplaceAbsent(s, search[0], repl[0]);
      ReplaceEachNoLetters(s, search[1..], repl[1..]);
    }
  }

  /** Skipping replacements whose search strings do not occur. */
  lemma {:induction false} ReplaceEachSkip(s: string, search: seq<string>, repl: seq<string>, k: nat)
    requires |search| == |repl| && k <= |search|
    requires forall i :: 0 <= i < |search| ==> search[i] != []
    requires forall i :: 0 <= i < k ==> !Occurs(s, search[i])
    ensures ReplaceEach(s, search, repl) == ReplaceEach(s, search[k..], repl[k..])
    decreases k
  {
    if k > 0 {
      ReplaceAbsent(s, search[0], repl[0]);
      ReplaceEachSkip(s, search[1..], repl[1..], k - 1);
      assert search[1..][k - 1..] == search[k..];
      assert repl[1..][k - 1..] == repl[k..];
    }
  }

  /** A text that is exactly the i-th name becomes the i-th number, when no
      earlier name occurs in it and the numbers hold no letters. */
  lemma NameBecomesNumber(names: seq<string>, numbers: seq<string>, i: nat)
    requires |names| == |numbers| && i < |names|
    requires Words(names)
    requires forall j :: 0 <= j < i ==> !Occurs(names[i], names[j])
    requires NoLetters(numbers[i])
    ensures ReplaceEach(names[i], names, numbers) == numbers[i]
  {
    ReplaceEachSkip(names[i], names, numbers, i);
    var rest := names[i..];
    assert rest[0] == names[i];
    ReplacePrefix(names[i], [], numbers[i]);
    assert names[i] + [] == names[i];
    assert Replace([], names[i], numbers[i]) == [];
    assert numbers[i] + [] == numbers[i];
    ReplaceEachNoLetters(numbers[i], rest[1..], numbers[i..][1..]);
  }

  /** Two different three-letter names never occur in one another. */
  lemma ThreeLetterNames(a: string, b: string)
    requires |a| == 3 && |b| == 3 && a != b
    ensures !Occurs(a, b)
  {
    forall k | OccursAt(a, b, k) ensures false {
    }
  }

  /** Month names are matched case-insensitively: a field spelling the i-th month becomes its number. */
  lemma MonthNameIsNumber(subject: string, i: nat)
    requires i < 12 && Lower(subject) == MonthNames[i]
    ensures MonthNameToNumber(subject) == MonthNumbers[i]
  {
    forall j | 0 <= j < i ensures !Occurs(MonthNames[i], MonthNames[j]) {
      ThreeLetterNames(MonthNames[i], MonthNames[j]);
    }
    NamesAreWords();
    NameBecomesNumber(MonthNames, MonthNumbers, i);
  }

  /** Week-day names are matched case-insensitively: a field spelling the i-th day becomes i. */
  lemma DayNameIsNumber(subject: string, i: nat)
    requires i < 7 && Lower(subject) == DayNames[i]
    ensures DowNameToNumber(subject) == DayNumbers[i]
  {
    forall j | 0 <= j < i ensures !Occurs(DayNames[i], DayNames[j]) {
      ThreeLetterNames(DayNames[i], DayNames[j]);
    }
    NamesAreWords();
    NameBecomesNumber(DayNames, DayNumbers, i);
  }

  predicate Words(names: seq<string>) {
    forall i :: 0 <= i < |names| ==> names[i] != [] && IsLetter(names[i][0])
  }

  lemma NamesAreWords()
    ensures Words(MonthNames) && Words(DayNames)
  {
  }

  lemma LowerNoLetters(subject: string)
    requires NoLetters(subject)
    ensures Lower(subject) == subject
  {
  }

  /** Numeric fields are not touched by the name translation. */
  lemma NumericFieldUnchanged(subject: string)
    requires NoLetters(subject)
    ensures MonthNameToNumber(subject) == subject
    ensures DowNameToNumber(subject) == subject
  {
    LowerNoLetters(subject);
    NamesAreWords();
    ReplaceEachNoLetters(subject, MonthNames, MonthNumbers);
    ReplaceEachNoLetters(subject, DayNames, DayNumbers);
  }

  // ---------------------------------------------------------------------------
  // field expansion (`prepare`)

  /** The first n offsets j of a range starting at `min`, keeping those with j % step == 0. */
  function SteppedPrefix(min: int, n: nat, step: nat): seq<int>
    requires step > 0
    decreases n
  {
    if n == 0 then []
    else SteppedPrefix(min, n - 1, step) + (if (n - 1) % step == 0 then [min + n - 1] else [])
  }

  /** The range min..max keeping the elements at positions 0, step, 2*step, ... */
  function Stepped(min: int, max: int, step: nat): seq<int>
    requires step > 0
  {
    SteppedPrefix(min, if min <= max then max - min + 1 else 0, step)
  }

  lemma MulStrict(a: int, b: int, step: nat)
    requires step > 0 && a * step < b * step
    ensures a < b
  {
  }

  lemma MultipleOutside(d: int, step: nat)
    requires step > 0
    ensures d * step <= 0 || d * step >= step
  {
    if d >= 1 {
      assert d * step == (d - 1) * step + step;
      assert (d - 1) * step >= 0;
    } else {
      assert d * step == -((-d) * step);
      assert (-d) * step >= 0;
    }
  }

  lemma MulMonotone(x: int, y: int, step: nat)
    requires x <= y
    ensures x * step <= y * step
  {
    assert y * step == x * step + (y - x) * step;
  }

  lemma MulMod(k: int, step: nat)
    requires step > 0
    ensures (k * step) % step == 0
  {
    var q, r := (k * step) / step, (k * step) % step;
    assert k * step == q * step + r;
    assert (k - q) * step == r;
    MultipleOutside(k - q, step);
  }

  lemma ModZeroMul(m: int, step: nat)
    requires step > 0 && m % step == 0
    ensures m == (m / step) * step
  {
  }

  /** How many elements the first n offsets keep: one per multiple of the step below n. */
  lemma {:induction false} SteppedPrefixLength(min: int, n: nat, step: nat)
    requires step > 0
    ensures var r := SteppedPrefix(min, n, step);
      && (n == 0 <==> |r| == 0)
      && (n > 0 ==> (|r| - 1) * step < n <= |r| * step)
    decreases n, 1
  {
    if n > 0 {
      var m := n - 1;
      SteppedPrefixLength(min, m, step);
      var p := SteppedPrefix(min, m, step);
      if m % step == 0 {
        SteppedNextIndex(min, m, step);
      } else {
        assert m != |p| * step by {
          MulMod(|p|, step);
        }
      }
    }
  }

  /** An offset that is a multiple of the step is the step times the number kept before it. */
  lemma SteppedNextIndex(min: int, m: nat, step: nat)
    requires step > 0 && m % step == 0
    ensures m == |SteppedPrefix(min, m, step)| * step
    decreases m, 2
  {
    var p := SteppedPrefix(min, m, step);
    var q := m / step;
    ModZeroMul(m, step);
    if m > 0 {
      SteppedPrefixLength(min, m, step);
      MulStrict(|p| - 1, q, step);
      if q > |p| {
        MulStrict(|p|, q, step);
      }
    } else {
      assert p == [];
    }
  }

  /** The k-th kept element is min + k*step. */
  lemma {:induction false} SteppedPrefixAt(min: int, n: nat, step: nat)
    requires step > 0
    ensures var r := SteppedPrefix(min, n, step);
      forall k :: 0 <= k < |r| ==> r[k] == min + k * step
    decreases n
  {
    if n > 0 {
      var m := n - 1;
      SteppedPrefixAt(min, m, step);
      if m % step == 0 {
        SteppedNextIndex(min, m, step);
        var p := SteppedPrefix(min, m, step);
        var r := SteppedPrefix(min, n, step);
        assert r == p + [min + |p| * step];
      }
    }
  }

  /** Every kept value lies in [min, max] at a multiple of the step from min. */
  lemma SteppedSound(min: int, max: int, step: nat, k: nat)
    requires step > 0 && k < |Stepped(min, max, step)|
    ensures var x := Stepped(min, max, step)[k];
      min <= x <= max && (x - min) % step == 0
  {
    var n := if min <= max then max - min + 1 else 0;
    var r := Stepped(min, max, step);
    var x := r[k];
    assert x == min + k * step by {
      SteppedPrefixAt(min, n, step);
    }
    assert n > 0 && (|r| - 1) * step < n by {
      SteppedPrefixLength(min, n, step);
    }
    assert 0 <= k * step <= (|r| - 1) * step by {
      MulMonotone(0, k, step);
      MulMonotone(k, |r| - 1, step);
    }
    assert (x - min) % step == 0 by {
      MulMod(k, step);
    }
  }

  /** Every integer of [min, max] at a multiple of the step from min is kept. */
  lemma SteppedComplete(min: int, max: int, step: nat, x: int)
    requires step > 0 && min <= x <= max && (x - min) % step == 0
    ensures x in Stepped(min, max, step)
  {
    var n := max - min + 1;
    var r := Stepped(min, max, step);
    var k := (x - min) / step;
    assert x - min == k * step by { ModZeroMul(x - min, step); }
    assert k < |r| by {
      SteppedPrefixLength(min, n, step);
      MulStrict(k, |r|, step);
    }
    assert r[k] == x by { SteppedPrefixAt(min, n, step); }
  }

  /** The kept values are exactly the integers of [min, max] at a multiple of
      the step from min; in particular a step of 1 keeps every integer. */
  lemma SteppedMembers(min: int, max: int, step: nat, x: int)
    requires step > 0
    ensures x in Stepped(min, max, step) <==> min <= x <= max && (x - min) % step == 0
  {
    var r := Stepped(min, max, step);
    if x in r {
      var k :| 0 <= k < |r| && r[k] == x;
      SteppedSound(min, max, step, k);
    }
    if min <= x <= max && (x - min) % step == 0 {
      SteppedComplete(min, max, step, x);
    }
  }

  /** The values of the range loop `for ($i = lo, $j = 0; $i <= hi; ...)`
      keeping `$j % $step == 0`: nothing for an empty range, an error for a
      step of 0 as soon as the loop body runs. */
  function RangeValues(lo: int, hi: int, step: nat): (r: Result<seq<int>, CronError>)
    ensures lo > hi ==> r == Ok([])
    ensures lo <= hi ==> (r.Err? <==> step == 0)
    ensures r.Err? ==> r.error == ModuloByZero
  {
    if lo > hi then Ok([])
    else if step == 0 then Err(ModuloByZero)
    else Ok(Stepped(lo, hi, step))
  }

  /** The range loop of `prepare`. */
  method RangeLoop(lo: int, hi: int, step: nat) returns (r: Result<seq<int>, CronError>)
    ensures r == RangeValues(lo, hi, step)
  {
    var values: seq<int> := [];
    var i, j := lo, 0;
    ghost var n := if lo <= hi then hi - lo + 1 else 0;
    while i <= hi
      invariant j == i - lo && 0 <= j <= n
      invariant j < n <==> i <= hi
      invariant step > 0 ==> values == SteppedPrefix(lo, j, step)
      invariant step == 0 ==> j == 0 && values == []
      decreases hi - i
    {
      if step == 0 {
        return Err(ModuloByZero);
      }
      if j % step == 0 {
        values := values + [i];
      }
      i, j := i + 1, j + 1;
    }
    if lo > hi || step == 0 {
      return Ok([]);
    }
    return Ok(values);
  }

  /** How one comma item is read: its value part and its step. The step is
      taken from the whole field, not from the item. */
  function ItemParts(field: string, item: string): (string, nat) {
    if '/' in field then
      var p := Explode(field, '/');
      (p[0], IntVal(p[1]))
    else (item, 1)
  }

  /** The values one comma item expands to. */
  function ExpandItem(field: string, item: string, a: nat, b: nat): (r: Result<seq<int>, CronError>)
    ensures r.Err? ==> r.error == ModuloByZero
  {
    var (v0, step) := ItemParts(field, item);
    var v := if v0 == "*" then DecimalString(a) + "-" + DecimalString(b) else v0;
    if '-' in v then
      var p := Explode(v, '-');
      RangeValues(IntVal(p[0]), IntVal(p[1]), step)
    else Ok([IntVal(v)])
  }

  /** The comma items, in order. */
  function Items(field: string): (r: seq<string>)
    ensures |r| >= 1
  {
    if ',' in field then Explode(field, ',') else [field]
  }

  /** Appending one more expansion to the values so far; the first failure wins. */
  function Then(acc: Result<seq<int>, CronError>, next: Result<seq<int>, CronError>): (r: Result<seq<int>, CronError>)
    ensures r.Ok? <==> acc.Ok? && next.Ok?
    ensures r.Ok? ==> r.value == acc.value + next.value
    ensures acc.Err? ==> r == acc
  {
    match acc
    case Err(e) => Err(e)
    case Ok(p) =>
      match next
      case Err(e) => Err(e)
      case Ok(q) => Ok(p + q)
  }

  lemma ThenAssociative(x: Result<seq<int>, CronError>, y: Result<seq<int>, CronError>, z: Result<seq<int>, CronError>)
    ensures Then(Then(x, y), z) == Then(x, Then(y, z))
  {
    if x.Ok? && y.Ok? && z.Ok? {
      assert x.value + y.value + z.value == x.value + (y.value + z.value);
    }
  }

  /** The concatenated expansions of the items; the first failure wins. */
  function ExpandItems(field: string, items: seq<string>, a: nat, b: nat): (r: Result<seq<int>, CronError>)
    ensures r.Err? ==> r.error == ModuloByZero
    decreases |items|
  {
    if items == [] then Ok([])
    else Then(ExpandItems(field, items[..|items| - 1], a, b), ExpandItem(field, items[|items| - 1], a, b))
  }

  /** `prepare($field, $a, $b)`. */
  function Expand(field: string, a: nat, b: nat): (r: Result<seq<int>, CronError>)
    ensures r.Err? ==> r.error == ModuloByZero
  {
    ExpandItems(field, Items(field), a, b)
  }

  /** The body of `prepare`'s item loop: the value part and step, `*` as the
      whole range, then the range loop or the single value. */
  method PrepareItem(field: string, item: string, a: nat, b: nat) returns (next: Result<seq<int>, CronError>)
    ensures next == ExpandItem(field, item, a, b)
  {
    var value := item;
    var steps: nat := 1;
    if '/' in field {
      var parts := Explode(field, '/');
      value, steps := parts[0], IntVal(parts[1]);
    }
    if value == "*" {
      value := DecimalString(a) + "-" + DecimalString(b);
    }
    if '-' in value {
      var bounds := Explode(value, '-');
      next := RangeLoop(IntVal(bounds[0]), IntVal(bounds[1]), steps);
    } else {
      next := Ok([IntVal(value)]);
    }
  }

  /** `prepare`: the loop over the comma items, each read with the step of
      the whole field, appending its values; a step of 0 aborts it. */
  method Prepare(field: string, a: nat, b: nat) returns (r: Result<seq<int>, CronError>)
    ensures r == Expand(field, a, b)
  {
    var values := if ',' in field then Explode(field, ',') else [field];
    var acc: seq<int> := [];
    var k := 0;
    while k < |values|
      invariant 0 <= k <= |values|
      invariant ExpandItems(field, values[..k], a, b) == Ok(acc)
    {
      var next := PrepareItem(field, values[k], a, b);
      assert values[..k + 1][..k] == values[..k] && values[..k + 1][k] == values[k];
      if next.Err? {
        ExpandItemsAppend(field, values[..k + 1], values[k + 1..], a, b);
        assert values[..k + 1] + values[k + 1..] == values;
        return next;
      }
      acc := acc + next.value;
      k := k + 1;
    }
    assert values[..k] == values;
    return Ok(acc);
  }

  /** A field without commas is one item. */
  lemma ExpandSingle(field: string, a: nat, b: nat)
    requires ',' !in field
    ensures Expand(field, a, b) == ExpandItem(field, field, a, b)
  {
    var items: seq<string> := [field];
    assert Items(field) == items;
    assert items[..|items| - 1] == [] && items[|items| - 1] == field;
    assert ExpandItems(field, [], a, b) == Ok([]);
    match ExpandItem(field, field, a, b)
    case Ok(vs) => assert [] + vs == vs;
    case Err(_) =>
  }

  /** `*` (with or without a step of at least 1) covers the whole valid range. */
  lemma ExpandStar(a: nat, b: nat)
    ensures Expand("*", a, b) == Ok(Stepped(a, b, 1))
  {
    ExpandDecimalRange(a, b);
    assert ItemParts("*", "*") == ("*", 1);
    assert ExpandItem("*", "*", a, b) == Ok(Stepped(a, b, 1));
    ExpandSingle("*", a, b);
  }

  lemma ExplodeDecimalRange(x: nat, y: nat)
    ensures var v := DecimalString(x) + "-" + DecimalString(y);
      '-' in v && Explode(v, '-') == [DecimalString(x), DecimalString(y)]
  {
    var v := DecimalString(x) + "-" + DecimalString(y);
    assert v[|DecimalString(x)|] == '-';
    assert '-' !in DecimalString(x) by {
      assert AllDigits(DecimalString(x));
    }
    assert '-' !in DecimalString(y) by {
      assert AllDigits(DecimalString(y));
    }
    ExplodeAfterDelimiter(DecimalString(x), '-', DecimalString(y));
    assert DecimalString(x) + ['-'] + DecimalString(y) == v;
  }

  lemma ExpandDecimalRange(x: nat, y: nat)
    ensures var v := DecimalString(x) + "-" + DecimalString(y);
      '-' in v && IntVal(Explode(v, '-')[0]) == x && IntVal(Explode(v, '-')[1]) == y
  {
    ExplodeDecimalRange(x, y);
    IntValDecimal(x);
    IntValDecimal(y);
  }

  /** `x-y` expands to every integer from x to y, in order. */
  lemma ExpandRange(x: nat, y: nat, a: nat, b: nat)
    requires x <= y
    ensures Expand(DecimalString(x) + "-" + DecimalString(y), a, b) == Ok(Stepped(x, y, 1))
  {
    var v := DecimalString(x) + "-" + DecimalString(y);
    ExpandDecimalRange(x, y);
    assert ',' !in v && '/' !in v by {
      assert AllDigits(DecimalString(x)) && AllDigits(DecimalString(y));
      assert forall i :: 0 <= i < |v| ==> v[i] == '-' || IsDigit(v[i]);
    }
    assert v != "*" by { assert |v| >= 3; }
    assert ItemParts(v, v) == (v, 1);
    assert ExpandItem(v, v, a, b) == Ok(Stepped(x, y, 1));
    ExpandSingle(v, a, b);
  }

  lemma ExplodeStarStep(n: nat)
    ensures var f := "*/" + DecimalString(n);
      '/' in f && ',' !in f && Explode(f, '/') == ["*", DecimalString(n)]
  {
    var f := "*/" + DecimalString(n);
    assert AllDigits(DecimalString(n));
    assert ',' !in f by {
      assert forall i :: 0 <= i < |f| ==> f[i] == '*' || f[i] == '/' || IsDigit(f[i]);
    }
    assert '/' !in DecimalString(n) && '/' !in "*";
    ExplodeAfterDelimiter("*", '/', DecimalString(n));
    assert "*" + ['/'] + DecimalString(n) == f;
    assert f[1] == '/';
  }

  /** `*` with a step n keeps every n-th value of the valid range, starting at its first. */
  lemma ExpandStarStep(n: nat, a: nat, b: nat)
    requires n >= 1 && a <= b
    ensures Expand("*/" + DecimalString(n), a, b) == Ok(Stepped(a, b, n))
  {
    var f := "*/" + DecimalString(n);
    ExplodeStarStep(n);
    IntValDecimal(n);
    assert ItemParts(f, f) == ("*", n);
    ExpandDecimalRange(a, b);
    assert ExpandItem(f, f, a, b) == Ok(Stepped(a, b, n));
    ExpandSingle(f, a, b);
  }

  /** Comma items are expanded one after the other and concatenated; the first failure wins. */
  lemma {:induction false} ExpandItemsAppend(field: string, xs: seq<string>, ys: seq<string>, a: nat, b: nat)
    ensures ExpandItems(field, xs + ys, a, b) == Then(ExpandItems(field, xs, a, b), ExpandItems(field, ys, a, b))
    decreases |ys|
  {
    if ys == [] {
      assert xs + ys == xs;
      var r := ExpandItems(field, xs, a, b);
      if r.Ok? {
        assert r.value + [] == r.value;
      }
    } else {
      var ys', y := ys[..|ys| - 1], ys[|ys| - 1];
      assert (xs + ys)[..|xs + ys| - 1] == xs + ys';
      assert (xs + ys)[|xs + ys| - 1] == y;
      ExpandItemsAppend(field, xs, ys', a, b);
      ThenAssociative(ExpandItems(field, xs, a, b), ExpandItems(field, ys', a, b), ExpandItem(field, y, a, b));
    }
  }

  // ---------------------------------------------------------------------------
  // matching (`compare`)

  predicate Matches(m: Matcher, v: int) {
    m.Any? || v in m.values
  }

  /** Day of month and day of week: OR when both are restricted, otherwise the restricted one gates. */
  predicate DaysMatch(dayOfMonth: Matcher, dayOfWeek: Matcher, dom: int, dow: int) {
    || (Matches(dayOfMonth, dom) && Matches(dayOfWeek, dow))
    || (dayOfMonth.Values? && dayOfWeek.Values? && (dom in dayOfMonth.values || dow in dayOfWeek.values))
  }

  lemma DayRule(dayOfMonth: Matcher, dayOfWeek: Matcher, dom: int, dow: int)
    ensures dayOfMonth.Values? && dayOfWeek.Values? ==>
      (DaysMatch(dayOfMonth, dayOfWeek, dom, dow) <==> dom in dayOfMonth.values || dow in dayOfWeek.values)
    ensures dayOfMonth.Values? && dayOfWeek.Any? ==>
      (DaysMatch(dayOfMonth, dayOfWeek, dom, dow) <==> dom in dayOfMonth.values)
    ensures dayOfMonth.Any? && dayOfWeek.Values? ==>
      (DaysMatch(dayOfMonth, dayOfWeek, dom, dow) <==> dow in dayOfWeek.values)
    ensures dayOfMonth.Any? && dayOfWeek.Any? ==> DaysMatch(dayOfMonth, dayOfWeek, dom, dow)
  {
  }

  /** A field: `*` stays "any", anything else is expanded over [a, b]. */
  function Field(f: string, a: nat, b: nat): (r: Result<Matcher, CronError>)
    ensures r.Err? ==> r.error == ModuloByZero
    ensures f == "*" ==> r == Ok(Any)
  {
    if f == "*" then Ok(Any)
    else
      var vs :- Expand(f, a, b);
      Ok(Values(vs))
  }

  /** The five fields of an expression, after trimming and splitting on single spaces. */
  function Fields(cronString: string): seq<string> {
    Explode(Trim(cronString), ' ')
  }

  /** The five parsed fields of an expression. */
  datatype Schedule = Schedule(minute: Matcher, hour: Matcher, dayOfMonth: Matcher, month: Matcher, dayOfWeek: Matcher)

  /** The day-of-week field after name translation, with 7 read as Sunday. */
  function DowField(f: string): string {
    var named := DowNameToNumber(f);
    if named == "7" then "0" else named
  }

  /** `7` means Sunday only when it is the whole (name-translated) field. */
  lemma DowFieldSeven(f: string)
    requires NoLetters(f)
    ensures DowField(f) == (if f == "7" then "0" else f)
  {
    NumericFieldUnchanged(f);
  }

  /** Parsing the five fields over their valid ranges, in field order. */
  function Parse(fields: seq<string>): (r: Result<Schedule, CronError>)
    requires |fields| == 5
    ensures r.Err? ==> r.error == ModuloByZero
  {
    var minute :- Field(fields[0], 0, 59);
    var hour :- Field(fields[1], 0, 23);
    var dayOfMonth :- Field(fields[2], 1, 31);
    var month :- Field(MonthNameToNumber(fields[3]), 1, 12);
    var dayOfWeek :- Field(DowField(fields[4]), 0, 6);
    Ok(Schedule(minute, hour, dayOfMonth, month, dayOfWeek))
  }

  /** Whether a schedule fires at a time. */
  predicate Fires(s: Schedule, t: Time) {
    && Matches(s.minute, t.minute) && Matches(s.hour, t.hour) && Matches(s.month, t.month)
    && DaysMatch(s.dayOfMonth, s.dayOfWeek, t.dayOfMonth, t.dayOfWeek)
  }

  /** `compare`: whether the expression matches the time; an error when it has
      not exactly five fields or a step of 0 is reached. */
  function Compare(cronString: string, t: Time): (r: Result<bool, CronError>)
    ensures |Fields(cronString)| != 5 <==> r == Err(MalformedExpression)
  {
    var fields := Fields(cronString);
    if |fields| != 5 then Err(MalformedExpression)
    else
      var s :- Parse(fields);
      Ok(Fires(s, t))
  }

  /** With exactly five fields, `compare` is the AND of the field tests over
      the parsed fields, or the zero-step error. */
  lemma CompareFiveFields(cronString: string, t: Time)
    requires |Fields(cronString)| == 5
    ensures Parse(Fields(cronString)).Ok? ==> Compare(cronString, t) == Ok(Fires(Parse(Fields(cronString)).value, t))
    ensures Parse(Fields(cronString)).Err? ==> Compare(cronString, t) == Err(ModuloByZero)
  {
  }

  /** Five `*` fields parse to five "any" matchers. */
  lemma ParseStars(fields: seq<string>)
    requires |fields| == 5 && forall i :: 0 <= i < 5 ==> fields[i] == "*"
    ensures Parse(fields) == Ok(Schedule(Any, Any, Any, Any, Any))
  {
    NumericFieldUnchanged(fields[3]);
    DowFieldSeven(fields[4]);
  }

  /** An expression whose five fields are all `*` fires at every time. */
  lemma EveryMinute(cronString: string, t: Time)
    requires |Fields(cronString)| == 5 && forall i :: 0 <= i < 5 ==> Fields(cronString)[i] == "*"
    ensures Compare(cronString, t) == Ok(true)
  {
    ParseStars(Fields(cronString));
    CompareFiveFields(cronString, t);
    assert Fires(Schedule(Any, Any, Any, Any, Any), t);
  }

  // ---------------------------------------------------------------------------
  // running the jobs

  /** What `compare` says about each job's expression at a time, in order. */
  function Outcomes(js: seq<Job>, t: Time): (r: seq<Result<bool, CronError>>)
    ensures |r| == |js|
  {
    seq(|js|, i requires 0 <= i < |js| => Compare(js[i].expression, t))
  }

  function Call(j: Job): Invocation {
    Invocation(j.target, j.methodName, j.param)
  }

  /** What `run` does with the jobs and their outcomes, in table order: the
      calls made, and the error that stopped it, if any. */
  function RunJobs(js: seq<Job>, outs: seq<Result<bool, CronError>>): (seq<Invocation>, Option<CronError>)
    requires |outs| == |js|
    decreases |js|
  {
    if js == [] then ([], None)
    else
      var (calls, err) := RunJobs(js[..|js| - 1], outs[..|js| - 1]);
      if err.Some? then (calls, err)
      else
        match outs[|js| - 1]
        case Err(e) => (calls, Some(e))
        case Ok(hit) => (if hit then calls + [Call(js[|js| - 1])] else calls, None)
  }

  /** Reference definition: the calls of the jobs whose outcome is a match, in order. */
  function Matching(js: seq<Job>, outs: seq<Result<bool, CronError>>): seq<Invocation>
    requires |outs| == |js|
    decreases |js|
  {
    if js == [] then []
    else (if outs[0] == Ok(true) then [Call(js[0])] else []) + Matching(js[1..], outs[1..])
  }

  lemma {:induction false} MatchingSnoc(js: seq<Job>, outs: seq<Result<bool, CronError>>, j: Job, o: Result<bool, CronError>)
    requires |outs| == |js|
    ensures Matching(js + [j], outs + [o]) == Matching(js, outs) + (if o == Ok(true) then [Call(j)] else [])
    decreases |js|
  {
    if js == [] {
      assert [j][1..] == [] && [o][1..] == [];
    } else {
      assert (js + [j])[1..] == js[1..] + [j];
      assert (outs + [o])[1..] == outs[1..] + [o];
      MatchingSnoc(js[1..], outs[1..], j, o);
    }
  }

  /** When no outcome is an error, `run` calls exactly the matching jobs, in table order. */
  lemma {:induction false} RunCallsMatching(js: seq<Job>, outs: seq<Result<bool, CronError>>)
    requires |outs| == |js|
    requires forall i :: 0 <= i < |outs| ==> outs[i].Ok?
    ensures RunJobs(js, outs) == (Matching(js, outs), None)
    decreases |js|
  {
    if js != [] {
      var n := |js| - 1;
      RunCallsMatching(js[..n], outs[..n]);
      MatchingSnoc(js[..n], outs[..n], js[n], outs[n]);
      assert js[..n] + [js[n]] == js && outs[..n] + [outs[n]] == outs;
      var m := Matching(js[..n], outs[..n]);
      assert m + [] == m;
    }
  }

  /** One more job: its outcome decides whether it is called or stops the pass. */
  lemma RunStep(js: seq<Job>, outs: seq<Result<bool, CronError>>, i: nat)
    requires |outs| == |js| && i < |js|
    ensures var (calls, err) := RunJobs(js[..i], outs[..i]);
      RunJobs(js[..i + 1], outs[..i + 1]) ==
        if err.Some? then (calls, err)
        else match outs[i]
          case Err(e) => (calls, Some(e))
          case Ok(hit) => (if hit then calls + [Call(js[i])] else calls, None)
  {
    assert js[..i + 1][..i] == js[..i] && outs[..i + 1][..i] == outs[..i];
  }

  /** Once a failure has stopped the pass, later jobs change nothing. */
  lemma {:induction false} RunStaysAborted(js: seq<Job>, outs: seq<Result<bool, CronError>>, k: nat)
    requires |outs| == |js| && k <= |js| && RunJobs(js[..k], outs[..k]).1.Some?
    ensures RunJobs(js, outs) == RunJobs(js[..k], outs[..k])
    decreases |js| - k
  {
    if k < |js| {
      assert js[..k + 1][..k] == js[..k] && outs[..k + 1][..k] == outs[..k];
      RunStaysAborted(js, outs, k + 1);
    } else {
      assert js[..k] == js && outs[..k] == outs;
    }
  }

  /** The first failing job stops `run`: the calls of the matching jobs before it
      are made, and no later job is evaluated. */
  lemma RunStopsAtFirstError(js: seq<Job>, outs: seq<Result<bool, CronError>>, k: nat)
    requires |outs| == |js| && k < |js|
    requires forall i :: 0 <= i < k ==> outs[i].Ok?
    requires outs[k].Err?
    ensures RunJobs(js, outs) == (Matching(js[..k], outs[..k]), Some(outs[k].error))
  {
    RunCallsMatching(js[..k], outs[..k]);
    assert js[..k + 1][..k] == js[..k] && outs[..k + 1][..k] == outs[..k];
    RunStaysAborted(js, outs, k + 1);
  }

  // ---------------------------------------------------------------------------
  // the job table

  /** The jobs listed by `order`. */
  function InOrder(jobs: map<int, Job>, order: seq<int>): seq<Job>
    requires forall i :: 0 <= i < |order| ==> order[i] in jobs
    decreases |order|
  {
    if order == [] then [] else InOrder(jobs, order[..|order| - 1]) + [jobs[order[|order| - 1]]]
  }

  lemma InOrderLength(jobs: map<int, Job>, order: seq<int>)
    requires forall i :: 0 <= i < |order| ==> order[i] in jobs
    ensures |InOrder(jobs, order)| == |order|
  {
  }

  /** The ordered key list without one key. */
  function Without(order: seq<int>, id: int): (r: seq<int>)
    ensures forall x :: x in r <==> x in order && x != id
    ensures (forall i, j :: 0 <= i < j < |order| ==> order[i] < order[j])
      ==> (forall i, j :: 0 <= i < j < |r| ==> r[i] < r[j])
    decreases |order|
  {
    if order == [] then []
    else if order[0] == id then Without(order[1..], id)
    else
      var rest := Without(order[1..], id);
      assert forall i :: 0 <= i < |rest| ==> rest[i] in order[1..];
      [order[0]] + rest
  }

  /** `order` lists every key once, in increasing (insertion) order, and no
      key exceeds the id counter. */
  ghost predicate TableValid(jobs: map<int, Job>, order: seq<int>, idCount: nat) {
    && (forall i :: 0 <= i < |order| ==> order[i] in jobs && 1 <= order[i] <= idCount)
    && (forall i, j :: 0 <= i < j < |order| ==> order[i] < order[j])
    && (forall id :: id in jobs ==> id in order)
  }

  lemma RemoveKeepsTable(jobs: map<int, Job>, order: seq<int>, idCount: nat, id: int)
    requires TableValid(jobs, order, idCount)
    ensures TableValid(jobs - {id}, Without(order, id), idCount)
  {
    var r := Without(order, id);
    forall i | 0 <= i < |r| ensures r[i] in jobs - {id} && 1 <= r[i] <= idCount {
      assert r[i] in r;
    }
  }

  class Cron {
    var jobs: map<int, Job>
    var order: seq<int>
    var idCount: nat

    /** `order` lists every key once, in increasing (insertion) order, and no
        key exceeds the id counter. */
    ghost predicate Valid()
      reads this
    {
      TableValid(jobs, order, idCount)
    }

    /** The jobs in the order `run` visits them. */
    ghost function Jobs(): seq<Job>
      reads this
      requires Valid()
    {
      InOrder(jobs, order)
    }

    constructor ()
      ensures Valid() && jobs == map[] && order == [] && idCount == 0
    {
      jobs := map[];
      order := [];
      idCount := 0;
    }

    /** `add`: stores the job under the next id and returns that id. */
    method Add(cronString: string, target: object, methodName: string := "run", param: Option<seq<string>> := None)
      returns (id: int)
      requires Valid()
      modifies this
      ensures Valid()
      ensures id == old(idCount) + 1 && idCount == id
      ensures forall k :: k in old(jobs) ==> k < id
      ensures jobs == old(jobs)[id := Job(Collapse(cronString), target, methodName, param)]
      ensures order == old(order) + [id]
    {
      idCount := idCount + 1;
      var expression := Collapse(cronString);
      jobs := jobs[idCount := Job(expression, target, methodName, param)];
      order := order + [idCount];
      id := idCount;
    }

    /** `remove`: deletes the job with that id, if there is one. */
    method Remove(id: int) returns (removed: bool)
      requires Valid()
      modifies this
      ensures Valid()
      ensures removed <==> id in old(jobs)
      ensures jobs == old(jobs) - {id}
      ensures order == Without(old(order), id)
      ensures !removed ==> jobs == old(jobs) && order == old(order)
      ensures idCount == old(idCount)
    {
      if id in jobs {
        RemoveKeepsTable(jobs, order, idCount, id);
        jobs := jobs - {id};
        order := Without(order, id);
        removed := true;
      } else {
        assert id !in order;
        WithoutAbsent(order, id);
        assert jobs - {id} == jobs;
        removed := false;
      }
    }

    /** `run`: evaluates every job in table order and calls the matching ones;
        the first failing job aborts the pass. */
    method Run(minute: int, hour: int, dayOfMonth: int, month: int, dayOfWeek: int)
      returns (calls: seq<Invocation>, error: Option<CronError>)
      requires Valid()
      ensures (calls, error) == RunJobs(Jobs(), Outcomes(Jobs(), Time(minute, hour, dayOfMonth, month, dayOfWeek)))
    {
      var t := Time(minute, hour, dayOfMonth, month, dayOfWeek);
      ghost var js := Jobs();
      ghost var outs := Outcomes(js, t);
      InOrderLength(jobs, order);
      calls, error := [], None;
      var i := 0;
      while i < |order|
        invariant 0 <= i <= |order|
        invariant RunJobs(js[..i], outs[..i]) == (calls, None) && error == None
      {
        var job := jobs[order[i]];
        InOrderAt(jobs, order, i);
        var matched := Compare(job.expression, t);
        assert outs[i] == matched;
        RunStep(js, outs, i);
        if matched.Err? {
          error := Some(matched.error);
          RunStaysAborted(js, outs, i + 1);
          return;
        }
        if matched.value {
          calls := calls + [Call(job)];
        }
        i := i + 1;
      }
      assert js[..i] == js && outs[..i] == outs;
    }
  }

  lemma {:induction false} InOrderAt(jobs: map<int, Job>, order: seq<int>, i: nat)
    requires i < |order| && forall k :: 0 <= k < |order| ==> order[k] in jobs
    ensures |InOrder(jobs, order)| == |order| && InOrder(jobs, order)[i] == jobs[order[i]]
    decreases |order|
  {
    InOrderLength(jobs, order);
    if i < |order| - 1 {
      InOrderAt(jobs, order[..|order| - 1], i);
    }
  }

  lemma WithoutAbsent(order: seq<int>, id: int)
    requires id !in order
    ensures Without(order, id) == order
  {
  }

  lemma {:induction false} InOrderPrefix(jobs: map<int, Job>, order: seq<int>, k: nat)
    requires k <= |order| && forall i :: 0 <= i < |order| ==> order[i] in jobs
    ensures |InOrder(jobs, order)| == |order|
    ensures InOrder(jobs, order)[..k] == InOrder(jobs, order[..k])
    decreases |order|
  {
    InOrderLength(jobs, order);
    if k < |order| {
      var init := order[..|order| - 1];
      InOrderPrefix(jobs, init, k);
      assert init[..k] == order[..k];
    } else {
      assert order[..k] == order;
    }
  }
}
