/** The crontab rule compiler and matcher: validation of a 5- or 6-field
    rule, compilation of each field into a list of integers inside the
    field's domain, and the check of one instant against the compiled rule.
    The clock and the calendar decomposition of an instant are inputs. */
module CronParser {
  import opened PhpText

  /** What `parse` returns, or the `InvalidArgumentException` it throws. */
  datatype Result<T> = Ok(value: T) | InvalidArgument(message: string)

  /** The calendar components of the instant being matched, as `date('i')`,
      `date('G')`, `date('j')`, `date('w')` and `date('n')` give them. */
  datatype Moment = Moment(minute: int, hour: int, day: int, weekday: int, month: int)

  /** The six compiled sets, in the order `parseDate` builds them. */
  datatype Schedule = Schedule(
    second: seq<int>, minutes: seq<int>, hours: seq<int>,
    day: seq<int>, month: seq<int>, week: seq<int>)

  // ------------------------------------------------------------ validation

  predicate IsFieldChar(c: char) {
    IsDigit(c) || c == '-' || c == ',' || c == '/'
  }

  /** Every character is a digit, `-`, `,` or `/`. */
  predicate FieldChars(s: string) {
    forall i :: 0 <= i < |s| ==> IsFieldChar(s[i])
  }

  predicate IsStarStep(f: string) {
    |f| > 2 && f[..2] == "*/" && AllDigits(f[2..])
  }

  /** One field as the validation pattern accepts it: `*`, `*` followed by
      `/` and digits, or a non-empty run of digits, `-`, `,` and `/`.
      A `*` never stands in a list or a range. */
  predicate IsField(f: string)
    ensures IsField(f) ==> f != [] && NoSpace(f) && !IsTrimmable(f[0]) && !IsTrimmable(f[|f| - 1])
    ensures IsField(f) && '*' in f ==> f[0] == '*' && ',' !in f && '-' !in f
  {
    f == "*" || IsStarStep(f) || (f != [] && FieldChars(f))
  }

  /** Every piece is a field. */
  predicate AllFields(fields: seq<string>) {
    forall k :: 0 <= k < |fields| ==> IsField(fields[k])
  }

  /** `isValid`: after trimming, the rule splits at whitespace runs into
      exactly 5 or exactly 6 pieces, each of them a field. */
  predicate IsValid(rule: string) {
    var fields := SplitWs(Trim(rule));
    (|fields| == 5 || |fields| == 6) && AllFields(fields)
  }

  // ------------------------------------------------------ segment compiler

  /** `between`. */
  predicate Between(value: int, min: int, max: int) {
    value >= min && value <= max
  }

  /** `start, start + step, ...` up to and including `stop`: what the `for`
      loops of `parseSegment` append. */
  function Ascending(start: int, stop: int, step: int): (r: seq<int>)
    requires step > 0
    ensures r == [] <==> start > stop
    ensures r != [] ==> r[0] == start
    ensures forall i, j :: 0 <= i && j == i + 1 && j < |r| ==> r[j] == r[i] + step
    ensures forall x :: x in r ==> start <= x <= stop
    decreases if start <= stop then stop - start + 1 else 0
  {
    if start > stop then [] else [start] + Ascending(start + step, stop, step)
  }

  /** The run stops at the last value the step reaches without passing
      `stop`: one more step would pass it. */
  lemma {:induction false} AscendingLast(start: int, stop: int, step: int)
    requires step > 0 && start <= stop
    ensures var r := Ascending(start, stop, step); r[|r| - 1] <= stop < r[|r| - 1] + step
    decreases stop - start
  {
    var r := Ascending(start, stop, step);
    var rest := Ascending(start + step, stop, step);
    if start + step <= stop {
      AscendingLast(start + step, stop, step);
      assert r[|r| - 1] == rest[|rest| - 1] by {
        assert r == [start] + rest && rest != [];
      }
    } else {
      assert r == [start] by {
        assert r == [start] + rest && rest == [];
      }
    }
  }

  /** With step 1 the run is every integer from `start` to `stop`. */
  lemma {:induction false} AscendingByOne(start: int, stop: int)
    ensures var r := Ascending(start, stop, 1);
      |r| == Max(0, stop - start + 1) && forall i :: 0 <= i < |r| ==> r[i] == start + i
    decreases if start <= stop then stop - start + 1 else 0
  {
    if start <= stop {
      AscendingByOne(start + 1, stop);
    }
  }

  /** A non-empty run of digits: a number as a rule writes it. */
  predicate Number(s: string) {
    s != [] && AllDigits(s)
  }

  /** Both ends of a range (the first two pieces between `-`) are numbers. */
  predicate WellFormedRange(s: string)
    requires '-' in s
  {
    var ends := Split(s, '-');
    Number(ends[0]) && Number(ends[1])
  }

  /** The step text of a step segment is a positive number and a range on
      its left is well formed. */
  predicate WellFormedStep(s: string)
    requires '/' in s
  {
    var parts := Split(s, '/');
    Number(parts[1]) && IntCast(parts[1]) > 0 && ('-' in parts[0] ==> WellFormedRange(parts[0]))
  }

  /** What `parseSegment` needs of a text without `,`: the field alphabet, a
      well-formed step wherever a step is evaluated, and a well-formed range
      wherever a bare range (which becomes a step) is. On these shapes the
      source's loose comparisons and casts are plain integer operations and
      its loop terminates. */
  predicate CompilableItem(s: string) {
    (s == "*" || IsStarStep(s) || FieldChars(s)) &&
    ('/' in s ==> WellFormedStep(s)) &&
    ('/' !in s && '-' in s ==> WellFormedRange(s))
  }

  /** The tokens of a comma list that `parseSegment` compiles recursively
      (those holding `/`, or all of them when the list holds `-`) are
      compilable. */
  predicate ListTokens(tokens: seq<string>, whole: string) {
    forall k :: 0 <= k < |tokens| ==>
      ',' !in tokens[k] && (('/' in tokens[k] || '-' in whole) ==> CompilableItem(tokens[k]))
  }

  /** What `parseSegment` needs of its text. */
  predicate Compilable(s: string) {
    if ',' in s then FieldChars(s) && ListTokens(Split(s, ','), s)
    else CompilableItem(s)
  }

  // `*` and a star step hold no `-` or `,`, and only the star step a `/`.
  lemma StarShapes(s: string)
    ensures s == "*" ==> '-' !in s && ',' !in s && '/' !in s
    ensures IsStarStep(s) ==> '/' in s && '-' !in s && ',' !in s
  {
    if IsStarStep(s) {
      assert s[1] == '/';
      assert s == s[..2] + s[2..];
      DigitsHaveNoPunctuation(s[2..]);
    }
  }

  /** The characters of `a`, then `c`, then `b`. */
  lemma Glue(a: string, c: char, b: string)
    ensures forall x :: x in a + [c] + b <==> x in a || x == c || x in b
    ensures FieldChars(a) && IsFieldChar(c) && FieldChars(b) ==> FieldChars(a + [c] + b)
  {
    var s := a + [c] + b;
    if FieldChars(a) && IsFieldChar(c) && FieldChars(b) {
      forall i | 0 <= i < |s| ensures IsFieldChar(s[i]) {
        if i < |a| {
          assert s[i] == a[i];
        } else if i > |a| {
          assert s[i] == b[i - |a| - 1];
        }
      }
    }
  }

  /** The step text `1`. */
  lemma StepTextOne()
    ensures Number("1") && IntCast("1") == 1 && FieldChars("1") && '/' !in "1" && ',' !in "1"
  {
  }

  /** A bare range `A-B` read as the step segment `A-B/1`. */
  lemma RangeAsStep(s: string)
    requires CompilableItem(s) && ',' !in s && '/' !in s && '-' in s
    ensures var t := s + "/1";
      ',' !in t && '/' in t && t != "*" && Split(t, '/') == [s, "1"] &&
      WellFormedStep(t) && Compilable(t)
  {
    var t := s + ['/'] + "1";
    assert s + "/1" == t;
    StepTextOne();
    assert Join([s, "1"], '/') == t;
    SplitJoin([s, "1"], '/');
    StarShapes(s);
    Glue(s, '/', "1");
    assert t != "*" by {
      assert |t| > 1;
    }
  }

  /** The step branch: narrow `[min, max]` to a range on the left of `/`
      where it is tighter, raise the floor to the new `min`, and step. */
  function StepSegment(s: string, min: int, max: int, start: int): (r: seq<int>)
    requires '/' in s && WellFormedStep(s)
    ensures forall x :: x in r ==> Max(min, start) <= x <= max
  {
    var exploded := Split(s, '/');
    var ends := Split(exploded[0], '-');
    var min' := if '-' in exploded[0] && IntCast(ends[0]) > min then IntCast(ends[0]) else min;
    var max' := if '-' in exploded[0] && IntCast(ends[1]) < max then IntCast(ends[1]) else max;
    var start' := if start < min' then min' else start;
    Ascending(start', max', IntCast(exploded[1]))
  }

  /** `parseSegment($string, $min, $max, $start)`: every value lies between
      the floor `max(min, start)` and `max`. A bare range is the step
      segment of the text with `/1` appended, as the source's recursive call
      on it computes. */
  function Segment(s: string, min: int, max: int, start: int): (r: seq<int>)
    requires Compilable(s)
    ensures forall x :: x in r ==> Max(min, start) <= x <= max
    decreases if ',' in s then 1 else 0, 1
  {
    var start := if start < min then min else start;
    if s == "*" then Ascending(start, max, 1)
    else if ',' in s then ListSegment(Split(s, ','), s, min, max, start)
    else if '/' in s then StepSegment(s, min, max, start)
    else if '-' in s then
      RangeAsStep(s);
      StepSegment(s + "/1", min, max, start)
    else if Between(IntCast(s), Max(min, start), max) then [IntCast(s)]
    else []
  }

  /** The comma-list branch over its first tokens: a token is compiled as a
      segment of its own when it holds `/` or the whole list holds `-`;
      otherwise it is kept as a number when non-blank and in range. */
  function ListSegment(tokens: seq<string>, whole: string, min: int, max: int, start: int): (r: seq<int>)
    requires ListTokens(tokens, whole)
    ensures forall x :: x in r ==> Max(min, start) <= x <= max
    decreases 1, 0, |tokens|
  {
    if tokens == [] then []
    else
      var n := |tokens| - 1;
      assert ListTokens(tokens[..n], whole) by {
        forall k | 0 <= k < n ensures tokens[..n][k] == tokens[k] {
        }
      }
      ListSegment(tokens[..n], whole, min, max, start) + ListItem(tokens[n], whole, min, max, start)
  }

  /** What one token of a comma list contributes. */
  function ListItem(value: string, whole: string, min: int, max: int, start: int): (r: seq<int>)
    requires ',' !in value
    requires ('/' in value || '-' in whole) ==> CompilableItem(value)
    ensures forall x :: x in r ==> Max(min, start) <= x <= max
    decreases 0, 2
  {
    if '/' in value || '-' in whole then Segment(value, min, max, start)
    else if Trim(value) == [] || !Between(IntCast(value), Max(min, start), max) then []
    else [IntCast(value)]
  }

  /** The `for` loops of `parseSegment`: from `start`, append and step
      while the counter does not pass `stop`. */
  method Count(start: int, stop: int, step: int) returns (result: seq<int>)
    requires step > 0
    ensures result == Ascending(start, stop, step)
  {
    result := [];
    var i := start;
    while i <= stop
      invariant result + Ascending(i, stop, step) == Ascending(start, stop, step)
      decreases stop - i
    {
      ghost var rest := Ascending(i + step, stop, step);
      assert Ascending(i, stop, step) == [i] + rest;
      assert (result + [i]) + rest == result + ([i] + rest);
      result := result + [i];
      i := i + step;
    }
  }

  /** `parseSegment`, as the source builds `$result`: the floor is raised to
      `min`, then the text picks one of five branches. */
  method ParseSegment(s: string, min: int, max: int, start: int) returns (result: seq<int>)
    requires Compilable(s)
    ensures result == Segment(s, min, max, start)
    decreases if ',' in s then 1 else 0, if '/' in s then 1 else 2, 2
  {
    var floor := start;
    if floor < min {
      floor := min;
    }
    if s == "*" {
      result := Count(floor, max, 1);
    } else if ',' in s {
      result := ParseList(s, min, max, floor);
    } else {
      result := ParseSingle(s, min, max, floor);
    }
  }

  /** The last three branches of `parseSegment`, for a text that is neither
      `*` nor a list: a step, a bare range, or a single number kept when in
      range. */
  method ParseSingle(s: string, min: int, max: int, start: int) returns (result: seq<int>)
    requires CompilableItem(s) && s != "*" && ',' !in s && start >= min
    ensures result == Segment(s, min, max, start)
    decreases 0, if '/' in s then 1 else 2, 1
  {
    result := [];
    if '/' in s {
      result := ParseStep(s, min, max, start);
    } else if '-' in s {
      var sub := ParseRange(s, min, max, start);
      result := result + sub;
    } else if Between(IntCast(s), Max(min, start), max) {
      result := result + [IntCast(s)];
    }
  }

  /** The range branch of `parseSegment`: the same text with `/1`
      appended, compiled again, which takes the step branch. */
  method ParseRange(s: string, min: int, max: int, start: int) returns (result: seq<int>)
    requires CompilableItem(s) && ',' !in s && '/' !in s && '-' in s && start >= min
    ensures result == Segment(s, min, max, start)
    decreases 0, 2, 0
  {
    RangeAsStep(s);
    result := ParseSegment(s + "/1", min, max, start);
  }

  /** The comma-list branch of `parseSegment`: a `foreach` over the tokens
      that recurses or appends. */
  method ParseList(s: string, min: int, max: int, start: int) returns (result: seq<int>)
    requires ',' in s && Compilable(s)
    ensures result == ListSegment(Split(s, ','), s, min, max, start)
    decreases 1, 0, 0
  {
    result := [];
    var exploded := Split(s, ',');
    for k := 0 to |exploded|
      invariant result == ListSegment(exploded[..k], s, min, max, start)
    {
      ListSegmentSnoc(exploded, k, s, min, max, start);
      var items := ParseItem(exploded[k], s, min, max, start);
      result := result + items;
    }
    assert exploded[..|exploded|] == exploded;
  }

  /** One more token of the list adds what that token contributes. */
  lemma ListSegmentSnoc(tokens: seq<string>, k: nat, whole: string, min: int, max: int, start: int)
    requires k < |tokens| && ListTokens(tokens, whole)
    ensures ListTokens(tokens[..k], whole) && ListTokens(tokens[..k + 1], whole)
    ensures ',' !in tokens[k] && (('/' in tokens[k] || '-' in whole) ==> CompilableItem(tokens[k]))
    ensures ListSegment(tokens[..k + 1], whole, min, max, start)
        == ListSegment(tokens[..k], whole, min, max, start) + ListItem(tokens[k], whole, min, max, start)
  {
    assert tokens[..k + 1][..k] == tokens[..k];
    assert tokens[..k + 1][k] == tokens[k];
  }

  /** The body of the list `foreach` for one token: recurse when the token
      holds `/` or the list holds `-`, otherwise keep a non-blank in-range
      number. */
  method ParseItem(value: string, whole: string, min: int, max: int, start: int) returns (items: seq<int>)
    requires ',' !in value
    requires ('/' in value || '-' in whole) ==> CompilableItem(value)
    ensures items == ListItem(value, whole, min, max, start)
    decreases 0, 3, 0
  {
    if '/' in value || '-' in whole {
      items := ParseSegment(value, min, max, start);
      return;
    }
    if Trim(value) == [] || !Between(IntCast(value), Max(min, start), max) {
      return [];
    }
    items := [IntCast(value)];
  }

  /** The step branch of `parseSegment`: narrow `[min, max]` to a tighter
      range on the left of `/`, raise the floor, and count by the step. */
  method ParseStep(s: string, min: int, max: int, start: int) returns (result: seq<int>)
    requires '/' in s && WellFormedStep(s)
    ensures result == StepSegment(s, min, max, start)
  {
    var exploded := Split(s, '/');
    var lo, hi, floor := min, max, start;
    if '-' in exploded[0] {
      var ends := Split(exploded[0], '-');
      var nMin, nMax := ends[0], ends[1];
      if IntCast(nMin) > lo {
        lo := IntCast(nMin);
      }
      if IntCast(nMax) < hi {
        hi := IntCast(nMax);
      }
    }
    if floor < lo {
      floor := lo;
    }
    result := Count(floor, hi, IntCast(exploded[1]));
  }

  // ------------------------------------------------------------ parseDate

  /** Every field of a rule meets what `parseSegment` needs. */
  predicate FieldsCompilable(rule: string) {
    AllCompilable(SplitWs(Trim(rule)))
  }

  predicate AllCompilable(fields: seq<string>) {
    forall k :: 0 <= k < |fields| ==> Compilable(fields[k])
  }

  predicate InDomains(d: Schedule) {
    (forall x :: x in d.second ==> 0 <= x <= 59) &&
    (forall x :: x in d.minutes ==> 0 <= x <= 59) &&
    (forall x :: x in d.hours ==> 0 <= x <= 23) &&
    (forall x :: x in d.day ==> 1 <= x <= 31) &&
    (forall x :: x in d.month ==> 1 <= x <= 12) &&
    (forall x :: x in d.week ==> 0 <= x <= 6)
  }

  /** What `parseDate` computes from the fields of a rule: six fields map to
      second, minute, hour, day, month and weekday; with five, the second set
      is `{0}` and the fields shift one place left. Every compiled set lies
      in its domain. */
  function CompileFields(cron: seq<string>): (d: Schedule)
    requires |cron| == 5 || |cron| == 6
    requires AllCompilable(cron)
    ensures InDomains(d)
  {
    if |cron| == 6 then
      assert AllCompilable(cron[1..]) by {
        forall k | 0 <= k < 5 ensures Compilable(cron[1..][k]) {
          assert cron[1..][k] == cron[k + 1];
        }
      }
      WithSeconds(Segment(cron[0], 0, 59, 0), cron[1..])
    else WithSeconds([0], cron)
  }

  /** The given second set and the five remaining fields, minute first. */
  function WithSeconds(second: seq<int>, fields: seq<string>): (d: Schedule)
    requires forall x :: x in second ==> 0 <= x <= 59
    requires |fields| == 5 && AllCompilable(fields)
    ensures InDomains(d) && d.second == second
  {
    Schedule(second, Segment(fields[0], 0, 59, 0), Segment(fields[1], 0, 23, 0),
             Segment(fields[2], 1, 31, 1), Segment(fields[3], 1, 12, 1), Segment(fields[4], 0, 6, 0))
  }

  /** `parseDate` on a valid rule. */
  function Compile(rule: string): (d: Schedule)
    requires IsValid(rule) && FieldsCompilable(rule)
    ensures InDomains(d)
  {
    CompileFields(SplitWs(Trim(rule)))
  }

  /** `parseDate`, calling `parseSegment` field by field. */
  method ParseDate(rule: string) returns (date: Schedule)
    requires IsValid(rule) && FieldsCompilable(rule)
    ensures date == Compile(rule)
  {
    var cron := SplitWs(Trim(rule));
    if |cron| == 6 {
      var second := ParseSegment(cron[0], 0, 59, 0);
      var minutes := ParseSegment(cron[1], 0, 59, 0);
      var hours := ParseSegment(cron[2], 0, 23, 0);
      var day := ParseSegment(cron[3], 1, 31, 1);
      var month := ParseSegment(cron[4], 1, 12, 1);
      var week := ParseSegment(cron[5], 0, 6, 0);
      date := Schedule(second, minutes, hours, day, month, week);
      assert cron[1..][0] == cron[1] && cron[1..][1] == cron[2] && cron[1..][2] == cron[3] &&
        cron[1..][3] == cron[4] && cron[1..][4] == cron[5];
    } else {
      var minutes := ParseSegment(cron[0], 0, 59, 0);
      var hours := ParseSegment(cron[1], 0, 23, 0);
      var day := ParseSegment(cron[2], 1, 31, 1);
      var month := ParseSegment(cron[3], 1, 12, 1);
      var week := ParseSegment(cron[4], 0, 6, 0);
      date := Schedule([0], minutes, hours, day, month, week);
    }
  }

  // ---------------------------------------------------------------- parse

  /** The five non-second components all belong to their sets (an AND,
      day-of-month and weekday included). */
  predicate Matches(d: Schedule, at: Moment) {
    at.minute in d.minutes && at.hour in d.hours && at.day in d.day &&
    at.weekday in d.week && at.month in d.month
  }

  /** The instants `start_time + s`, one per second `s`, in order; seconds
      inside a minute give instants inside the minute from `start_time`. */
  function Shift(startTime: int, seconds: seq<int>): (r: seq<int>)
    ensures |r| == |seconds|
    ensures forall i :: 0 <= i < |seconds| ==> r[i] == startTime + seconds[i]
    ensures (forall x :: x in seconds ==> 0 <= x <= 59) ==> forall t :: t in r ==> startTime <= t <= startTime + 59
  {
    if seconds == [] then []
    else
      assert forall x :: x in seconds[1..] ==> x in seconds;
      assert seconds[0] in seconds;
      var rest := Shift(startTime, seconds[1..]);
      assert forall t :: t in [startTime + seconds[0]] + rest ==> t == startTime + seconds[0] || t in rest;
      [startTime + seconds[0]] + rest
  }

  /** What `parse($rule, $start_time)` returns, with the calendar
      components of `start_time` supplied: an invalid rule is an error;
      otherwise, at a matching minute, one instant per compiled second, and
      nothing at any other minute. */
  function ParseAt(rule: string, startTime: int, at: Moment): (r: Result<seq<int>>)
    requires IsValid(rule) ==> FieldsCompilable(rule)
    ensures r.InvalidArgument? <==> !IsValid(rule)
    ensures r.Ok? ==> forall t :: t in r.value ==> startTime <= t <= startTime + 59
  {
    if !IsValid(rule) then InvalidArgument("Invalid cron string: " + rule)
    else Ok(Fire(Compile(rule), startTime, at))
  }

  /** The instants a compiled rule gives at `at`: one per second at a
      matching minute, none otherwise. */
  function Fire(d: Schedule, startTime: int, at: Moment): (r: seq<int>)
    requires forall x :: x in d.second ==> 0 <= x <= 59
    ensures forall t :: t in r ==> startTime <= t <= startTime + 59
  {
    if Matches(d, at) then Shift(startTime, d.second) else []
  }

  /** The `foreach` of `parse`: one instant `start_time + s` per second `s`,
      in order. */
  method Offsets(startTime: int, seconds: seq<int>) returns (result: seq<int>)
    ensures result == Shift(startTime, seconds)
  {
    result := [];
    for k := 0 to |seconds|
      invariant |result| == k
      invariant forall i :: 0 <= i < k ==> result[i] == startTime + seconds[i]
    {
      result := result + [startTime + seconds[k]];
    }
  }

  /** `parse($rule, $start_time)`: an invalid rule is an error; otherwise,
      at a matching minute, one instant per compiled second, in the second
      set's order, and nothing at any other minute. */
  method Parse(rule: string, startTime: int, at: Moment) returns (r: Result<seq<int>>)
    requires IsValid(rule) ==> FieldsCompilable(rule)
    ensures r == ParseAt(rule, startTime, at)
    ensures r.InvalidArgument? <==> !IsValid(rule)
    ensures r.InvalidArgument? ==> r.message == "Invalid cron string: " + rule
    ensures r.Ok? ==> var d := Compile(rule);
      if Matches(d, at) then
        |r.value| == |d.second| && forall i :: 0 <= i < |r.value| ==> r.value[i] == startTime + d.second[i]
      else r.value == []
    ensures r.Ok? ==> forall t :: t in r.value ==> startTime <= t <= startTime + 59
  {
    if !IsValid(rule) {
      return InvalidArgument("Invalid cron string: " + rule);
    }
    var date := ParseDate(rule);
    if at.minute in date.minutes && at.hour in date.hours && at.day in date.day
      && at.weekday in date.week && at.month in date.month
    {
      var result := Offsets(startTime, date.second);
      return Ok(result);
    }
    return Ok([]);
  }
}
