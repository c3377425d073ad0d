/** What the rule compiler promises: the language `isValid` accepts, the
    shape of each kind of segment, the five-field shift of `parseDate`, and
    the worked examples of the rule format. */
module CronParserFacts {
  import opened PhpText
  import opened CronParser

  // ------------------------------------------------------------ validation

  /** A trimmed rule that is fields glued by whitespace runs is valid exactly
      when it has 5 or 6 fields: any other count is rejected. */
  lemma ValidIffFiveOrSixFields(rule: string, fields: seq<string>, gaps: seq<string>)
    requires |fields| >= 1 && |gaps| == |fields| - 1
    requires forall k :: 0 <= k < |fields| ==> IsField(fields[k])
    requires Runs(gaps) && Trim(rule) == JoinWs(fields, gaps)
    ensures IsValid(rule) <==> |fields| == 5 || |fields| == 6
  {
    assert Words(fields) by {
      forall k | 0 <= k < |fields| ensures fields[k] != [] && NoSpace(fields[k]) {
        assert IsField(fields[k]);
      }
    }
    SplitJoinWs(fields, gaps);
  }

  /** Conversely, a valid rule trims to 5 or 6 fields glued by non-empty
      whitespace runs. */
  lemma ValidRuleIsFields(rule: string)
    requires IsValid(rule)
    ensures var t := Trim(rule); var fields, gaps := SplitWs(t), GapsWs(t);
      t == JoinWs(fields, gaps) && (|fields| == 5 || |fields| == 6) &&
      (forall k :: 0 <= k < |fields| ==> IsField(fields[k])) && Runs(gaps)
  {
    JoinSplitWs(Trim(rule));
  }

  /** A `*` combined with a list or a range is no field, so a rule holding
      one is rejected. */
  lemma StarInListRejected(rule: string, k: nat)
    requires var fields := SplitWs(Trim(rule)); k < |fields| && '*' in fields[k] && (',' in fields[k] || '-' in fields[k])
    ensures !IsValid(rule)
  {
  }

  // ----------------------------------------------------- segment helpers

  lemma NumberChars(s: string)
    requires AllDigits(s)
    ensures FieldChars(s) && '*' !in s && ',' !in s && '/' !in s && '-' !in s && NoSpace(s)
  {
    DigitsHaveNoPunctuation(s);
  }

  /** The decimal rendering of `n` is a number whose value is `n`. */
  lemma NumberValue(n: nat)
    ensures Number(ToDigits(n)) && IntCast(ToDigits(n)) == n
  {
    CastToDigits(n);
  }

  /** `explode` of a text with exactly one separator. */
  lemma SplitTwo(a: string, b: string, c: char)
    requires c !in a && c !in b
    ensures c in a + [c] + b && Split(a + [c] + b, c) == [a, b]
  {
    assert Join([a, b], c) == a + [c] + b;
    SplitJoin([a, b], c);
  }

  /** A number compiles to its value when that lies between the floor and
      `max`, and to nothing otherwise. */
  lemma BareInteger(x: string, min: int, max: int, start: int)
    requires Number(x)
    ensures Compilable(x)
    ensures Segment(x, min, max, start) == if Max(min, start) <= IntCast(x) <= max then [IntCast(x)] else []
  {
    NumberChars(x);
    assert x != "*" by {
      assert IsDigit(x[0]);
    }
  }

  /** The text `A-B/N` and its pieces. */
  lemma StepRangeText(a: string, b: string, n: string)
    requires Number(a) && Number(b) && Number(n)
    ensures var left := a + "-" + b; var s := left + "/" + n;
      '/' in s && ',' !in s && s != "*" && FieldChars(s) &&
      Split(s, '/') == [left, n] && '-' in left && Split(left, '-') == [a, b]
  {
    NumberChars(a);
    NumberChars(b);
    NumberChars(n);
    var left := a + ['-'] + b;
    assert a + "-" + b == left;
    SplitTwo(a, b, '-');
    Glue(a, '-', b);
    var s := left + ['/'] + n;
    assert left + "/" + n == s;
    SplitTwo(left, n, '/');
    Glue(left, '/', n);
    assert |s| > 1;
  }

  /** `A-B/N`: count by `N` from the higher of the floor and `A` up to the
      lower of `max` and `B`: the range narrows the domain only where it is
      tighter. */
  lemma StepOverRange(a: string, b: string, n: string, min: int, max: int, start: int)
    requires Number(a) && Number(b) && Number(n) && IntCast(n) > 0
    ensures var s := a + "-" + b + "/" + n;
      Compilable(s) &&
      Segment(s, min, max, start) == Ascending(Max(Max(min, start), IntCast(a)), Min(max, IntCast(b)), IntCast(n))
  {
    StepRangeText(a, b, n);
    var left := a + "-" + b;
    var s := left + "/" + n;
    StepOverRangeValues(s, left, a, b, n, min, max, Max(min, start));
    assert Segment(s, min, max, start) == StepSegment(s, min, max, Max(min, start));
  }

  /** The step branch on the pieces `A`, `B` and `N` of `A-B/N`, from a
      floor at or above `min`. */
  lemma StepOverRangeValues(s: string, left: string, a: string, b: string, n: string, min: int, max: int, floor: int)
    requires '/' in s && Split(s, '/') == [left, n] && '-' in left && Split(left, '-') == [a, b]
    requires Number(a) && Number(b) && Number(n) && IntCast(n) > 0 && floor >= min
    ensures WellFormedStep(s)
    ensures StepSegment(s, min, max, floor) == Ascending(Max(floor, IntCast(a)), Min(max, IntCast(b)), IntCast(n))
  {
    var x, y := IntCast(a), IntCast(b);
    assert WellFormedRange(left);
    var lo := if x > min then x else min;
    var hi := if y < max then y else max;
    assert hi == Min(max, y);
    assert (if floor < lo then lo else floor) == Max(floor, x);
  }

  /** A bare range `A-B` compiles like `A-B/1`: every integer from the higher
      of the floor and `A` to the lower of `max` and `B`. */
  lemma BareRange(a: string, b: string, min: int, max: int, start: int)
    requires Number(a) && Number(b)
    ensures var s := a + "-" + b;
      Compilable(s) && Compilable(s + "/1") &&
      Segment(s, min, max, start) == Segment(s + "/1", min, max, start) &&
      Segment(s, min, max, start) == Ascending(Max(Max(min, start), IntCast(a)), Min(max, IntCast(b)), 1)
  {
    var s := a + "-" + b;
    assert Number("1") && IntCast("1") == 1;
    StepRangeText(a, b, "1");
    assert s + "/1" == s + "/" + "1";
    NumberChars(a);
    NumberChars(b);
    Glue(a, '-', b);
    assert s == a + ['-'] + b;
    assert '/' !in s && ',' !in s && '-' in s && FieldChars(s);
    assert s != "*" by {
      assert IsDigit(s[0]);
    }
    StepOverRange(a, b, "1", min, max, start);
  }

  /** A left side without `-` is ignored: `X/N` counts by `N` over the whole
      domain from the floor, exactly like `*` with the same step. */
  lemma StepLeftIgnored(x: string, n: string, min: int, max: int, start: int)
    requires Number(x) && Number(n) && IntCast(n) > 0
    ensures var s := x + "/" + n; var star := "*/" + n;
      Compilable(s) && Compilable(star) &&
      Segment(s, min, max, start) == Ascending(Max(min, start), max, IntCast(n)) &&
      Segment(star, min, max, start) == Segment(s, min, max, start)
  {
    NumberChars(x);
    NumberChars(n);
    var s := x + ['/'] + n;
    assert x + "/" + n == s;
    SplitTwo(x, n, '/');
    Glue(x, '/', n);
    assert s != "*" by {
      assert |s| > 1;
    }
    var star := "*" + ['/'] + n;
    assert "*/" + n == star;
    SplitTwo("*", n, '/');
    Glue("*", '/', n);
    assert star[..2] == "*/" && star[2..] == n;
    assert star != "*" by {
      assert |star| > 1;
    }
  }

  // ---------------------------------------------------------- comma lists

  /** The numbers the non-empty tokens of `toks` cast to (for runs of
      digits, their decimal values, leading zeros allowed) that lie in
      `[lo, hi]`, in order, repeats kept:
      the reference for what a plain comma list compiles to. An empty token,
      as between two adjacent commas or after a trailing one, stands for
      nothing. */
  function KeptTokens(toks: seq<string>, lo: int, hi: int): (r: seq<nat>)
    ensures forall x :: x in r ==> lo <= x <= hi
    ensures |r| <= |toks|
  {
    if toks == [] then []
    else
      var t := toks[|toks| - 1];
      KeptTokens(toks[..|toks| - 1], lo, hi) + KeptToken(t, lo, hi)
  }

  /** Runs of digits joined with `,` are in the field alphabet and hold no
      `-`, `/` or `*`. */
  lemma {:induction false} JoinOfNumbers(parts: seq<string>)
    requires |parts| >= 1 && forall k :: 0 <= k < |parts| ==> AllDigits(parts[k])
    ensures var s := Join(parts, ','); FieldChars(s) && '-' !in s && '/' !in s && '*' !in s
    decreases |parts|
  {
    NumberChars(parts[0]);
    if |parts| > 1 {
      JoinOfNumbers(parts[1..]);
      var rest := Join(parts[1..], ',');
      assert Join(parts, ',') == parts[0] + [','] + rest;
      Glue(parts[0], ',', rest);
    }
  }

  /** A run of digits in a list without `-` is kept as its value when it
      is non-empty and in range, and dropped otherwise. */
  lemma PlainItem(tok: string, whole: string, min: int, max: int, start: int)
    requires '-' !in whole && AllDigits(tok)
    ensures ',' !in tok && '/' !in tok
    ensures ListItem(tok, whole, min, max, start) == KeptToken(tok, Max(min, start), max)
  {
    DigitsHaveNoPunctuation(tok);
    if tok != [] {
      assert IsDigit(tok[0]) && IsDigit(tok[|tok| - 1]);
    }
    TrimFixed(tok);
  }

  /** What one token of a plain list contributes to `KeptTokens`. */
  function KeptToken(tok: string, lo: int, hi: int): seq<nat> {
    if tok != [] && lo <= IntCast(tok) <= hi then [IntCast(tok)] else []
  }

  /** The list branch and `KeptTokens` grow alike by one token. */
  lemma PlainSnoc(toks: seq<string>, whole: string, min: int, max: int, start: int)
    requires toks != [] && ListTokens(toks, whole) && ListTokens(toks[..|toks| - 1], whole)
    requires var init := toks[..|toks| - 1];
      ListSegment(init, whole, min, max, start) == KeptTokens(init, Max(min, start), max)
    requires var last := toks[|toks| - 1];
      ',' !in last && ('/' in last || '-' in whole ==> CompilableItem(last)) &&
      ListItem(last, whole, min, max, start) == KeptToken(last, Max(min, start), max)
    ensures ListSegment(toks, whole, min, max, start) == KeptTokens(toks, Max(min, start), max)
  {
  }

  /** Dropping the last token keeps a list's tokens compilable runs of
      digits. */
  lemma DigitTokensPrefix(toks: seq<string>, whole: string)
    requires toks != [] && ListTokens(toks, whole)
    requires forall k :: 0 <= k < |toks| ==> AllDigits(toks[k])
    ensures var init := toks[..|toks| - 1];
      ListTokens(init, whole) && forall k :: 0 <= k < |init| ==> AllDigits(init[k])
  {
    var init := toks[..|toks| - 1];
    forall k | 0 <= k < |init| ensures init[k] == toks[k] {
    }
  }

  /** Over tokens that are runs of digits (possibly empty) in a list without
      `-`, the list branch keeps exactly the numbers of the non-empty tokens
      that lie in range, in order. */
  lemma {:induction false} PlainTokens(toks: seq<string>, whole: string, min: int, max: int, start: int)
    requires '-' !in whole && ListTokens(toks, whole)
    requires forall k :: 0 <= k < |toks| ==> AllDigits(toks[k])
    ensures ListSegment(toks, whole, min, max, start) == KeptTokens(toks, Max(min, start), max)
    decreases |toks|
  {
    if toks != [] {
      var n := |toks| - 1;
      var init := toks[..n];
      var last := toks[n];
      DigitTokensPrefix(toks, whole);
      PlainTokens(init, whole, min, max, start);
      PlainItem(last, whole, min, max, start);
      PlainSnoc(toks, whole, min, max, start);
    }
  }

  /** A comma list of runs of digits with no `-` anywhere keeps, in order and
      with repeats, exactly the numbers of its non-empty tokens that lie
      between the floor and `max` (`05` counts as 5); empty tokens and the
      numbers out of range are dropped without error. */
  lemma PlainList(toks: seq<string>, min: int, max: int, start: int)
    requires |toks| >= 2 && forall k :: 0 <= k < |toks| ==> AllDigits(toks[k])
    ensures var s := Join(toks, ',');
      Compilable(s) && Split(s, ',') == toks && Segment(s, min, max, start) == KeptTokens(toks, Max(min, start), max)
  {
    var s := Join(toks, ',');
    forall k | 0 <= k < |toks| ensures ',' !in toks[k] && '/' !in toks[k] {
      DigitsHaveNoPunctuation(toks[k]);
    }
    SplitJoin(toks, ',');
    JoinOfNumbers(toks);
    assert s == toks[0] + [','] + Join(toks[1..], ',');
    assert ',' in s && s != "*";
    assert ListTokens(toks, s);
    var st := if start < min then min else start;
    PlainTokens(toks, s, min, max, st);
    assert Max(min, st) == Max(min, start);
  }

  // --------------------------------------------------- worked examples

  /** `*` is every integer from the floor up to `max`, in order. */
  lemma Star(min: int, max: int, start: int)
    ensures var r := Segment("*", min, max, start); var lo := Max(min, start);
      |r| == Max(0, max - lo + 1) && forall i :: 0 <= i < |r| ==> r[i] == lo + i
  {
    AscendingByOne(Max(min, start), max);
  }

  lemma CountQuarters()
    ensures Ascending(0, 59, 15) == [0, 15, 30, 45]
  {
    AscendingLast(0, 59, 15);
  }

  lemma CountTenToTwentyByFive()
    ensures Ascending(10, 20, 5) == [10, 15, 20]
  {
    AscendingLast(10, 20, 5);
  }

  // `*/15` on minutes (the step written any way that reads 15) gives
  // 0, 15, 30, 45.
  lemma QuarterHours(n: string)
    requires Number(n) && IntCast(n) == 15
    ensures var s := "*/" + n; Compilable(s) && Segment(s, 0, 59, 0) == [0, 15, 30, 45]
  {
    NumberValue(0);
    StepLeftIgnored(ToDigits(0), n, 0, 59, 0);
    CountQuarters();
  }

  // `10-20/5` on minutes gives 10, 15, 20.
  lemma StepInsideRange(a: string, b: string, n: string)
    requires Number(a) && Number(b) && Number(n)
    requires IntCast(a) == 10 && IntCast(b) == 20 && IntCast(n) == 5
    ensures var s := a + "-" + b + "/" + n; Compilable(s) && Segment(s, 0, 59, 0) == [10, 15, 20]
  {
    StepOverRange(a, b, n, 0, 59, 0);
    CountTenToTwentyByFive();
  }

  /** The casts of the literal tokens of the list examples. */
  lemma CastLiterals()
    ensures IntCast("1") == 1 && IntCast("5") == 5
    ensures IntCast("05") == 5 && IntCast("10") == 10 && IntCast("70") == 70
  {
    assert IntCast("1") == 1 && IntCast("5") == 5 by {
      assert AllDigits("1") && AllDigits("5");
    }
    assert IntCast("05") == 5 by {
      assert AllDigits("05") && "05"[..1] == "0";
    }
    assert IntCast("10") == 10 by {
      assert AllDigits("10") && "10"[..1] == "1";
    }
    assert IntCast("70") == 70 by {
      assert AllDigits("70") && "70"[..1] == "7";
    }
  }

  lemma KeptOneFiveTen()
    ensures KeptTokens(["1", "5", "10"], 0, 59) == [1, 5, 10]
  {
    var t := ["1", "5", "10"];
    CastLiterals();
    assert KeptTokens(t[..1], 0, 59) == [1] by {
      assert t[..1][..0] == [];
    }
    assert KeptTokens(t[..2], 0, 59) == [1, 5] by {
      assert t[..2][..1] == t[..1];
    }
    assert t[..2] == t[..|t| - 1];
  }

  lemma KeptOneSeventy()
    ensures KeptTokens(["1", "70"], 0, 59) == [1]
  {
    var t := ["1", "70"];
    CastLiterals();
    assert KeptTokens(t[..1], 0, 59) == [1] by {
      assert t[..1][..0] == [];
    }
  }

  lemma KeptLeadingZero()
    ensures KeptTokens(["05", "", "10"], 0, 59) == [5, 10]
  {
    var t := ["05", "", "10"];
    CastLiterals();
    assert KeptTokens(t[..1], 0, 59) == [5] by {
      assert t[..1][..0] == [];
    }
    assert KeptTokens(t[..2], 0, 59) == [5] by {
      assert t[..2][..1] == t[..1];
    }
    assert t[..2] == t[..|t| - 1];
  }

  /** `1,5,10` on minutes gives exactly 1, 5, 10. */
  lemma ListExample()
    ensures var s := Join(["1", "5", "10"], ',');
      Compilable(s) && Segment(s, 0, 59, 0) == [1, 5, 10]
  {
    KeptOneFiveTen();
    PlainList(["1", "5", "10"], 0, 59, 0);
  }

  /** `1,70` on minutes gives 1 alone. */
  lemma ListDropsOutOfRange()
    ensures var s := Join(["1", "70"], ',');
      Compilable(s) && Segment(s, 0, 59, 0) == [1]
  {
    KeptOneSeventy();
    PlainList(["1", "70"], 0, 59, 0);
  }

  /** A leading zero and an empty token, as in `05,,10`, give 5 and 10. */
  lemma ListLeadingZeroAndEmpty()
    ensures var s := Join(["05", "", "10"], ',');
      Compilable(s) && Segment(s, 0, 59, 0) == [5, 10]
  {
    KeptLeadingZero();
    PlainList(["05", "", "10"], 0, 59, 0);
  }

  lemma EmptyTokenPieces(a: string, b: string)
    requires Number(a) && Number(b)
    ensures var r := a + "-" + b; var s := r + ",";
      ',' in s && '-' in s && Split(s, ',') == [r, ""] && ListTokens([r, ""], s) && Compilable(s)
  {
    var r := a + "-" + b;
    var s := r + ",";
    RangeText(a, b);
    assert s == r + [','] + "";
    Glue(r, ',', "");
    SplitTwo(r, "", ',');
    assert CompilableItem("");
    assert ListTokens([r, ""], s);
  }

  /** The text `A-B`: a well-formed range with the pieces `A` and `B`. */
  lemma RangeText(a: string, b: string)
    requires Number(a) && Number(b)
    ensures var r := a + "-" + b;
      '-' in r && ',' !in r && '/' !in r && FieldChars(r) && Split(r, '-') == [a, b] && CompilableItem(r)
  {
    NumberChars(a);
    NumberChars(b);
    var r := a + ['-'] + b;
    assert a + "-" + b == r;
    SplitTwo(a, b, '-');
    Glue(a, '-', b);
    assert WellFormedRange(r);
  }

  // An empty token casts to 0.
  lemma EmptyToken()
    ensures Compilable("") && Segment("", 0, 59, 0) == [0] && FieldChars("")
  {
  }

  lemma CountOneToTwo()
    ensures Ascending(1, 2, 1) == [1, 2]
  {
  }

  /** In a list holding `-`, every token is compiled on its own, an empty one
      included: it casts to 0, which is kept when 0 is in range. So `1-2,`
      gives 1, 2, 0. */
  lemma EmptyTokenBesideRange(a: string, b: string)
    requires Number(a) && Number(b) && IntCast(a) == 1 && IntCast(b) == 2
    ensures var s := a + "-" + b + ","; Compilable(s) && Segment(s, 0, 59, 0) == [1, 2, 0]
  {
    var r := a + "-" + b;
    var s := r + ",";
    EmptyTokenPieces(a, b);
    BareRange(a, b, 0, 59, 0);
    CountOneToTwo();
    EmptyToken();
    var toks := [r, ""];
    TwoTokens(toks, s, 0, 59, 0);
    assert ListItem(r, s, 0, 59, 0) == [1, 2];
  }

  /** A two-token list compiles to what its tokens contribute, in order. */
  lemma TwoTokens(toks: seq<string>, whole: string, min: int, max: int, start: int)
    requires |toks| == 2 && ListTokens(toks, whole)
    ensures ListSegment(toks, whole, min, max, start)
         == ListItem(toks[0], whole, min, max, start) + ListItem(toks[1], whole, min, max, start)
  {
    var head := toks[..1];
    assert head[..0] == [] && head[0] == toks[0];
    assert ListTokens(head, whole) by {
      assert head == [toks[0]];
    }
    assert ListSegment(head, whole, min, max, start) == ListItem(toks[0], whole, min, max, start);
    assert ListSegment(toks, whole, min, max, start)
        == ListSegment(head, whole, min, max, start) + ListItem(toks[1], whole, min, max, start);
  }

  // ------------------------------------------------------------ parseDate

  /** Putting a field and a whitespace gap in front of a trimmed rule puts
      that field in front of its fields. */
  lemma {:induction false} PrependField(f: string, g: string, t: string)
    requires f != [] && NoSpace(f) && !IsTrimmable(f[0]) && g != [] && AllSpace(g)
    requires t == Trim(t) && Words(SplitWs(t))
    ensures Trim(f + g + t) == f + g + t && SplitWs(f + g + t) == [f] + SplitWs(t)
  {
    var t' := f + g + t;
    FirstWord(t);
    FirstCut(f, g, t);
    assert t'[0] == f[0] && t'[|t'| - 1] == t[|t| - 1];
    TrimFixed(t');
  }

  // The field `0` and the gap ` ` that a five-field rule is read with.
  lemma ZeroField()
    ensures IsField("0") && Compilable("0") && Segment("0", 0, 59, 0) == [0]
    ensures NoSpace("0") && !IsTrimmable('0') && AllSpace(" ")
  {
  }

  /** With five fields, `parseDate` computes what it computes for the six
      fields that have in front a field whose seconds are just 0. */
  lemma FiveFieldShift(z: string, fields: seq<string>)
    requires Compilable(z) && Segment(z, 0, 59, 0) == [0]
    requires |fields| == 5 && AllCompilable(fields)
    ensures AllCompilable([z] + fields) && CompileFields([z] + fields) == CompileFields(fields)
  {
    var fs := [z] + fields;
    assert fs[0] == z && fs[1..] == fields;
    assert AllCompilable(fs) by {
      forall k | 0 <= k < 6 ensures Compilable(fs[k]) {
        if k > 0 {
          assert fs[k] == fields[k - 1];
        }
      }
    }
  }

  // A rule whose fields are a valid field followed by five valid fields is
  // valid.
  lemma PrependedValid(r6: string, z: string, fields: seq<string>)
    requires IsField(z) && Compilable(z)
    requires |fields| == 5 && Trim(r6) == r6 && SplitWs(r6) == [z] + fields
    requires AllFields(fields) && AllCompilable(fields)
    ensures IsValid(r6) && FieldsCompilable(r6) && Compile(r6) == CompileFields([z] + fields)
  {
    var fs := SplitWs(Trim(r6));
    assert fs == [z] + fields;
    forall k | 0 <= k < 6 ensures IsField(fs[k]) && Compilable(fs[k]) {
      if k > 0 {
        assert fs[k] == fields[k - 1];
      }
    }
  }

  /** Prepending to a five-field rule a field whose seconds are just 0 and
      a whitespace run gives a valid six-field rule that compiles the same. */
  lemma PrependSecondField(rule: string, z: string, g: string)
    requires IsValid(rule) && FieldsCompilable(rule) && |SplitWs(Trim(rule))| == 5
    requires IsField(z) && Compilable(z) && Segment(z, 0, 59, 0) == [0] && !IsTrimmable(z[0])
    requires g != [] && AllSpace(g)
    ensures var r6 := z + g + Trim(rule);
      IsValid(r6) && FieldsCompilable(r6) && Compile(r6) == Compile(rule)
  {
    var t := Trim(rule);
    var fields := SplitWs(t);
    FiveFields(rule);
    PrependField(z, g, t);
    PrependedValid(z + g + t, z, fields);
    FiveFieldShift(z, fields);
  }

  // The fields of a valid five-field rule, and what it compiles to.
  lemma FiveFields(rule: string)
    requires IsValid(rule) && FieldsCompilable(rule) && |SplitWs(Trim(rule))| == 5
    ensures var t := Trim(rule); var fields := SplitWs(t);
      |fields| == 5 && AllFields(fields) && AllCompilable(fields) && Words(fields) &&
      t == Trim(t) && Compile(rule) == CompileFields(fields)
  {
    var t := Trim(rule);
    var fields := SplitWs(t);
    forall k | 0 <= k < |fields| ensures fields[k] != [] && NoSpace(fields[k]) {
      assert IsField(fields[k]);
    }
    TrimFixed(t);
  }

  /** A five-field rule means what the six-field rule with second field `0`
      means. */
  lemma FiveFieldRule(rule: string)
    requires IsValid(rule) && FieldsCompilable(rule) && |SplitWs(Trim(rule))| == 5
    ensures var r6 := "0" + " " + Trim(rule);
      IsValid(r6) && FieldsCompilable(r6) && Compile(r6) == Compile(rule)
  {
    ZeroField();
    PrependSecondField(rule, "0", " ");
  }
}
