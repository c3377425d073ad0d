/** The PHP string builtins the cron parser relies on: `trim`, `explode`,
    `preg_split('/\s+/')` and the `(int)` cast, over strings of characters
    (PHP strings are byte strings; only ASCII matters here). */
module PhpText {

  /** The characters PCRE's `\s` matches without UTF mode: tab, line feed,
      vertical tab, form feed, carriage return and space. */
  predicate IsSpace(c: char) {
    c == ' ' || c == '\t' || c == '\n' || c == '\U{0B}' || c == '\U{0C}' || c == '\r'
  }

  /** The characters `trim` strips by default: space, tab, line feed, carriage
      return, NUL and vertical tab (not form feed). */
  predicate IsTrimmable(c: char) {
    c == ' ' || c == '\t' || c == '\n' || c == '\r' || c == '\0' || c == '\U{0B}'
  }

  predicate IsDigit(c: char) {
    '0' <= c <= '9'
  }

  predicate AllDigits(s: string) {
    forall i :: 0 <= i < |s| ==> IsDigit(s[i])
  }

  predicate NoSpace(s: string) {
    forall i :: 0 <= i < |s| ==> !IsSpace(s[i])
  }

  predicate AllSpace(s: string) {
    forall i :: 0 <= i < |s| ==> IsSpace(s[i])
  }

  function Max(a: int, b: int): int { if a < b then b else a }

  function Min(a: int, b: int): int { if a < b then a else b }

  // ---------------------------------------------------------------- trim

  /** How many trimmable characters `s` starts with. */
  function LeadingTrimmable(s: string): (n: nat)
    ensures n <= |s| && (n < |s| ==> !IsTrimmable(s[n]))
  {
    if s != [] && IsTrimmable(s[0]) then 1 + LeadingTrimmable(s[1..]) else 0
  }

  /** How many trimmable characters `s` ends with. */
  function TrailingTrimmable(s: string): (n: nat)
    ensures n <= |s| && (n < |s| ==> !IsTrimmable(s[|s| - 1 - n]))
  {
    if s != [] && IsTrimmable(s[|s| - 1]) then 1 + TrailingTrimmable(s[..|s| - 1]) else 0
  }

  /** `trim($s)`: the infix of `s` left after stripping trimmable characters
      from both ends. */
  function Trim(s: string): (r: string)
    ensures |r| <= |s|
    ensures r == [] || (!IsTrimmable(r[0]) && !IsTrimmable(r[|r| - 1]))
  {
    var t := s[LeadingTrimmable(s)..];
    t[..|t| - TrailingTrimmable(t)]
  }

  /** A string that neither starts nor ends with a trimmable character is its
      own trim. */
  lemma TrimFixed(s: string)
    requires s == [] || (!IsTrimmable(s[0]) && !IsTrimmable(s[|s| - 1]))
    ensures Trim(s) == s
  {
  }

  predicate AllTrimmable(s: string) {
    forall i :: 0 <= i < |s| ==> IsTrimmable(s[i])
  }

  lemma {:induction false} LeadingAllTrimmable(s: string)
    ensures AllTrimmable(s[..LeadingTrimmable(s)])
    decreases |s|
  {
    if s != [] && IsTrimmable(s[0]) {
      LeadingAllTrimmable(s[1..]);
      var n := LeadingTrimmable(s);
      forall i | 1 <= i < n ensures IsTrimmable(s[..n][i]) {
        assert s[..n][i] == s[1..][..n - 1][i - 1];
      }
    }
  }

  lemma {:induction false} TrailingAllTrimmable(s: string)
    ensures AllTrimmable(s[|s| - TrailingTrimmable(s)..])
    decreases |s|
  {
    if s != [] && IsTrimmable(s[|s| - 1]) {
      var p := s[..|s| - 1];
      TrailingAllTrimmable(p);
      var m := |s| - TrailingTrimmable(s);
      assert m == |p| - TrailingTrimmable(p);
      forall i | 0 <= i < |s| - m ensures IsTrimmable(s[m..][i]) {
        if i < |s| - 1 - m {
          assert s[m..][i] == s[m + i] == p[m + i] == p[m..][i];
        } else {
          assert s[m..][i] == s[|s| - 1];
        }
      }
    }
  }

  /** A text is its prefix up to `lead`, an infix starting there, and the
      rest. */
  lemma InfixParts(s: string, lead: nat, r: string)
    requires lead + |r| <= |s| && r == s[lead..][..|r|]
    ensures s == s[..lead] + r + s[lead + |r|..]
  {
    assert s == s[..lead] + s[lead..];
    assert s[lead..] == r + s[lead..][|r|..];
    assert s[lead..][|r|..] == s[lead + |r|..];
  }

  lemma TrimInfix(s: string)
    ensures var lead := LeadingTrimmable(s); var r := Trim(s);
      lead + |r| <= |s| && s == s[..lead] + r + s[lead + |r|..]
  {
    var lead := LeadingTrimmable(s);
    var r := Trim(s);
    assert r == s[lead..][..|r|];
    InfixParts(s, lead, r);
  }

  lemma TrimLead(s: string)
    ensures AllTrimmable(s[..LeadingTrimmable(s)])
  {
    LeadingAllTrimmable(s);
  }

  lemma TrimTail(s: string)
    ensures AllTrimmable(s[LeadingTrimmable(s) + |Trim(s)|..])
  {
    var lead := LeadingTrimmable(s);
    var t := s[lead..];
    var m := |t| - TrailingTrimmable(t);
    assert Trim(s) == t[..m];
    TrailingAllTrimmable(t);
    assert t[m..] == s[lead + m..];
  }

  /** `trim` removes trimmable characters from the two ends and nothing else:
      the text is what it leaves with trimmable characters before and after
      it (with the ensures of `Trim`, whose ends are not trimmable, it leaves
      the largest such infix). */
  lemma TrimSpec(s: string)
    ensures var lead := LeadingTrimmable(s); var r := Trim(s);
      lead + |r| <= |s| && s == s[..lead] + r + s[lead + |r|..] &&
      AllTrimmable(s[..lead]) && AllTrimmable(s[lead + |r|..])
  {
    TrimInfix(s);
    TrimLead(s);
    TrimTail(s);
  }

  // ---------------------------------------------------------------- explode

  function IndexOf(s: string, c: char): (i: nat)
    requires c in s
    ensures i < |s| && s[i] == c && c !in s[..i]
  {
    if s[0] == c then 0 else 1 + IndexOf(s[1..], c)
  }

  /** `implode($sep, $parts)`. */
  function Join(parts: seq<string>, sep: char): string
    requires |parts| >= 1
  {
    if |parts| == 1 then parts[0] else parts[0] + [sep] + Join(parts[1..], sep)
  }

  /** `explode($sep, $s)`: the pieces between separators, empty ones included.
      The pieces hold no separator and glue back together to `s`. */
  function Split(s: string, sep: char): (parts: seq<string>)
    ensures |parts| >= 1
    ensures (|parts| == 1) == (sep !in s)
    ensures forall k :: 0 <= k < |parts| ==> sep !in parts[k]
    ensures Join(parts, sep) == s
    decreases |s|
  {
    if sep !in s then [s]
    else
      var i := IndexOf(s, sep);
      assert s == s[..i] + [sep] + s[i + 1..];
      [s[..i]] + Split(s[i + 1..], sep)
  }

  /** Splitting what was joined gives back the pieces. */
  lemma {:induction false} SplitJoin(parts: seq<string>, sep: char)
    requires |parts| >= 1
    requires forall k :: 0 <= k < |parts| ==> sep !in parts[k]
    ensures Split(Join(parts, sep), sep) == parts
    decreases |parts|
  {
    if |parts| == 1 {
      assert Join(parts, sep) == parts[0];
    } else {
      var rest := parts[1..];
      var t := Join(rest, sep);
      assert Join(parts, sep) == parts[0] + [sep] + t;
      FirstPiece(parts[0], t, sep);
      assert forall k :: 0 <= k < |rest| ==> sep !in rest[k] by {
        forall k | 0 <= k < |rest| ensures sep !in rest[k] {
          assert rest[k] == parts[k + 1];
        }
      }
      SplitJoin(rest, sep);
      ConsTail(parts);
    }
  }

  lemma ConsTail<T>(xs: seq<T>)
    requires xs != []
    ensures [xs[0]] + xs[1..] == xs
  {
  }

  /** The first piece of `explode` runs up to the first separator. */
  lemma FirstPiece(a: string, rest: string, sep: char)
    requires sep !in a
    ensures Split(a + [sep] + rest, sep) == [a] + Split(rest, sep)
  {
    var s := a + [sep] + rest;
    assert s[|a|] == sep;
    assert s == a + ([sep] + rest);
    IndexOfPrefix(a, [sep] + rest, sep);
    assert s[..|a|] == a && s[|a| + 1..] == rest;
  }

  lemma {:induction false} IndexOfPrefix(a: string, b: string, c: char)
    requires c !in a && b != [] && b[0] == c
    ensures c in a + b && IndexOf(a + b, c) == |a|
    decreases |a|
  {
    assert (a + b)[|a|] == c;
    if a != [] {
      assert (a + b)[1..] == a[1..] + b;
      IndexOfPrefix(a[1..], b, c);
    }
  }

  // ------------------------------------------------- preg_split('/\s+/')

  /** Length of the longest prefix of `s` holding no whitespace. */
  function SpanNonSpace(s: string): (n: nat)
    ensures n <= |s| && NoSpace(s[..n]) && (n < |s| ==> IsSpace(s[n]))
  {
    if s == [] || IsSpace(s[0]) then 0 else 1 + SpanNonSpace(s[1..])
  }

  /** Length of the longest prefix of `s` holding only whitespace. */
  function SpanSpace(s: string): (n: nat)
    ensures n <= |s| && AllSpace(s[..n]) && (n < |s| ==> !IsSpace(s[n]))
  {
    if s != [] && IsSpace(s[0]) then 1 + SpanSpace(s[1..]) else 0
  }

  /** `preg_split('/\s+/', $s)`: the pieces between maximal whitespace runs;
      a leading or trailing run yields an empty first or last piece. */
  function SplitWs(s: string): (parts: seq<string>)
    ensures |parts| >= 1
    ensures forall k :: 0 <= k < |parts| ==> NoSpace(parts[k])
    decreases |s|
  {
    var n := SpanNonSpace(s);
    if n == |s| then [s]
    else
      var rest := s[n..];
      [s[..n]] + SplitWs(rest[SpanSpace(rest)..])
  }

  /** The whitespace runs that `SplitWs` cuts at, in order. */
  function GapsWs(s: string): (gaps: seq<string>)
    ensures |gaps| == |SplitWs(s)| - 1
    ensures forall k :: 0 <= k < |gaps| ==> gaps[k] != [] && AllSpace(gaps[k])
    decreases |s|
  {
    var n := SpanNonSpace(s);
    if n == |s| then []
    else
      var rest := s[n..];
      var m := SpanSpace(rest);
      [rest[..m]] + GapsWs(rest[m..])
  }

  /** Pieces glued with the given separators: `p0 + g0 + p1 + g1 + ... + pn`. */
  function JoinWs(parts: seq<string>, gaps: seq<string>): string
    requires |parts| >= 1 && |gaps| == |parts| - 1
  {
    if |parts| == 1 then parts[0] else parts[0] + gaps[0] + JoinWs(parts[1..], gaps[1..])
  }

  /** Where `SplitWs` and `GapsWs` make their first cut: the first piece, the
      first run, and the text after it. */
  lemma SplitWsCut(s: string) returns (head: string, gap: string, tail: string)
    requires SpanNonSpace(s) < |s|
    ensures s == head + gap + tail && |tail| < |s|
    ensures SplitWs(s) == [head] + SplitWs(tail) && GapsWs(s) == [gap] + GapsWs(tail)
  {
    var n := SpanNonSpace(s);
    var rest := s[n..];
    var m := SpanSpace(rest);
    head, gap, tail := s[..n], rest[..m], rest[m..];
    assert m > 0;
    assert rest == gap + tail;
    assert s == head + rest;
  }

  /** Every string is its pieces glued back with its whitespace runs. */
  lemma {:induction false} JoinSplitWs(s: string)
    ensures JoinWs(SplitWs(s), GapsWs(s)) == s
    decreases |s|
  {
    if SpanNonSpace(s) < |s| {
      var head, gap, tail := SplitWsCut(s);
      JoinSplitWs(tail);
      var parts, gaps := SplitWs(s), GapsWs(s);
      assert parts[1..] == SplitWs(tail) && gaps[1..] == GapsWs(tail);
      assert JoinWs(parts, gaps) == head + gap + JoinWs(SplitWs(tail), GapsWs(tail));
    }
  }

  /** Non-empty pieces without whitespace. */
  predicate Words(parts: seq<string>) {
    forall k :: 0 <= k < |parts| ==> parts[k] != [] && NoSpace(parts[k])
  }

  /** Non-empty runs of whitespace. */
  predicate Runs(gaps: seq<string>) {
    forall k :: 0 <= k < |gaps| ==> gaps[k] != [] && AllSpace(gaps[k])
  }

  /** Gluing non-empty whitespace-free pieces with non-empty whitespace runs
      and splitting again gives back the pieces and the runs. */
  lemma {:induction false} SplitJoinWs(parts: seq<string>, gaps: seq<string>)
    requires |parts| >= 1 && |gaps| == |parts| - 1 && Words(parts) && Runs(gaps)
    ensures SplitWs(JoinWs(parts, gaps)) == parts
    ensures GapsWs(JoinWs(parts, gaps)) == gaps
    decreases |parts|
  {
    if |parts| == 1 {
      SpanNonSpaceAll(parts[0], []);
      assert parts[0] + [] == parts[0];
    } else {
      var tail := JoinWs(parts[1..], gaps[1..]);
      assert JoinWs(parts, gaps) == parts[0] + gaps[0] + tail;
      WordsRunsTail(parts, gaps);
      JoinWsStart(parts[1..], gaps[1..]);
      FirstCut(parts[0], gaps[0], tail);
      SplitJoinWs(parts[1..], gaps[1..]);
      ConsTail(parts);
      ConsTail(gaps);
    }
  }

  /** A word, a run and a text starting with a word: the first cut falls
      exactly around the run. */
  lemma FirstCut(p: string, g: string, tail: string)
    requires p != [] && NoSpace(p) && g != [] && AllSpace(g)
    requires tail == [] || !IsSpace(tail[0])
    ensures SplitWs(p + g + tail) == [p] + SplitWs(tail)
    ensures GapsWs(p + g + tail) == [g] + GapsWs(tail)
  {
    var s := p + g + tail;
    assert s == p + (g + tail);
    SpanNonSpaceAll(p, g + tail);
    var rest := s[|p|..];
    assert rest == g + tail;
    SpanSpaceAll(g, tail);
    assert rest[|g|..] == tail && rest[..|g|] == g;
  }

  /** When the first piece is a word, the text starts with it. */
  lemma FirstWord(s: string)
    requires SplitWs(s)[0] != []
    ensures s != [] && !IsSpace(s[0])
  {
  }

  lemma WordsRunsTail(parts: seq<string>, gaps: seq<string>)
    requires |parts| >= 2 && |gaps| == |parts| - 1 && Words(parts) && Runs(gaps)
    ensures Words(parts[1..]) && Runs(gaps[1..])
    ensures parts[0] != [] && NoSpace(parts[0]) && gaps[0] != [] && AllSpace(gaps[0])
    ensures parts[1] != [] && NoSpace(parts[1])
  {
    forall k | 0 <= k < |parts[1..]| ensures parts[1..][k] != [] && NoSpace(parts[1..][k]) {
      assert parts[1..][k] == parts[k + 1];
    }
    forall k | 0 <= k < |gaps[1..]| ensures gaps[1..][k] != [] && AllSpace(gaps[1..][k]) {
      assert gaps[1..][k] == gaps[k + 1];
    }
  }

  lemma JoinWsStart(parts: seq<string>, gaps: seq<string>)
    requires |parts| >= 1 && |gaps| == |parts| - 1 && parts[0] != []
    ensures JoinWs(parts, gaps) != [] && JoinWs(parts, gaps)[0] == parts[0][0]
  {
  }

  lemma {:induction false} SpanNonSpaceAll(a: string, b: string)
    requires NoSpace(a) && (b == [] || IsSpace(b[0]))
    ensures SpanNonSpace(a + b) == |a| && (a + b)[..|a|] == a
    decreases |a|
  {
    if a != [] {
      assert (a + b)[1..] == a[1..] + b;
      SpanNonSpaceAll(a[1..], b);
    }
  }

  lemma {:induction false} SpanSpaceAll(a: string, b: string)
    requires AllSpace(a) && (b == [] || !IsSpace(b[0]))
    ensures SpanSpace(a + b) == |a|
    decreases |a|
  {
    if a != [] {
      assert (a + b)[1..] == a[1..] + b;
      SpanSpaceAll(a[1..], b);
    }
  }

  // ---------------------------------------------------------------- (int)

  function DigitValue(c: char): nat
    requires IsDigit(c)
  {
    c as int - '0' as int
  }

  /** The decimal value of a run of digits (0 for the empty run). */
  function DigitsValue(s: string): nat
    requires AllDigits(s)
  {
    if s == [] then 0 else 10 * DigitsValue(s[..|s| - 1]) + DigitValue(s[|s| - 1])
  }

  /** Length of the longest prefix of `s` made of digits. */
  function LeadingDigits(s: string): (n: nat)
    ensures n <= |s| && AllDigits(s[..n]) && (n < |s| ==> !IsDigit(s[n]))
  {
    if s != [] && IsDigit(s[0]) then 1 + LeadingDigits(s[1..]) else 0
  }

  /** PHP's `(int)` cast of a string that starts with a digit or with no
      number at all: the value of its leading digits, 0 when there are none. */
  function IntCast(s: string): (n: nat)
    ensures AllDigits(s) ==> n == DigitsValue(s)
    ensures (s == [] || !IsDigit(s[0])) ==> n == 0
  {
    var k := LeadingDigits(s);
    assert AllDigits(s) ==> k == |s| && s[..k] == s;
    DigitsValue(s[..k])
  }

  function DigitChar(d: nat): (c: char)
    requires d < 10
    ensures IsDigit(c) && DigitValue(c) == d
  {
    ('0' as int + d) as char
  }

  /** The decimal rendering of `n`, as PHP's `(string)` gives it. */
  function ToDigits(n: nat): (s: string)
    ensures s != [] && AllDigits(s)
  {
    if n < 10 then [DigitChar(n)] else ToDigits(n / 10) + [DigitChar(n % 10)]
  }

  /** Casting a number's decimal rendering back gives the number. */
  lemma {:induction false} CastToDigits(n: nat)
    ensures IntCast(ToDigits(n)) == n
  {
    var s := ToDigits(n);
    if n >= 10 {
      CastToDigits(n / 10);
      assert s[..|s| - 1] == ToDigits(n / 10);
    } else {
      assert s == [DigitChar(n)] && AllDigits(s);
      assert s[..0] == [];
      assert DigitsValue(s) == n;
    }
  }

  /** A decimal rendering holds digits only, so none of `*`, `,`, `/`, `-`. */
  lemma DigitsHaveNoPunctuation(s: string)
    requires AllDigits(s)
    ensures '*' !in s && ',' !in s && '/' !in s && '-' !in s && NoSpace(s)
  {
    forall c | c in s ensures IsDigit(c) {
      var i :| 0 <= i < |s| && s[i] == c;
    }
  }
}
