/** The line-format matcher of the PMD tests: a multi-line format in which `%d` stands
    for one or more decimal digits and every other character for itself, matched line
    by line against a multi-line text. */
module RegexMatcher {
  import opened Text

  /** One piece of a compiled format line: a literal character, or a run of digits. */
  datatype Segment = Lit(c: char) | Digits

  /** A compiled format line (one `Pattern`). */
  type LinePattern = seq<Segment>

  /** The matcher: one pattern per format line. */
  datatype FormatMatcher = FormatMatcher(patterns: seq<LinePattern>)

  /** How `describeMismatchSafely` explains a failed match. */
  datatype Mismatch =
    | BadLine(lineNumber: nat)   // 1-based number of the first line that does not match
    | ExtraLines(count: nat)     // the text has this many lines more than the format
    | MissingLines(count: nat)   // the text has this many lines fewer than the format

  /** `\d` of Java regular expressions (without Unicode classes). */
  predicate IsDigit(ch: char) {
    '0' <= ch <= '9'
  }

  // ---------------------------------------------------------------- format lines

  /** `Pattern.quote(line).replace("%d", "\\E\\d+\\Q")`: each `%d`, taken left to right,
      becomes a digit run, every other character a literal. */
  function Compile(line: string): LinePattern
    decreases |line|
  {
    if |line| >= 2 && line[0] == '%' && line[1] == 'd' then [Digits] + Compile(line[2..])
    else if line == [] then []
    else [Lit(line[0])] + Compile(line[1..])
  }

  /** The format text of a pattern, a digit run written back as `%d`. */
  function Render(p: LinePattern): string
    decreases |p|
  {
    if p == [] then ""
    else (match p[0] case Lit(ch) => [ch] case Digits => "%d") + Render(p[1..])
  }

  /** Does the line hold a `%d` placeholder? */
  predicate HasPlaceholder(line: string)
    decreases |line|
  {
    (|line| >= 2 && line[0] == '%' && line[1] == 'd') || (|line| > 0 && HasPlaceholder(line[1..]))
  }

  /** Rendering a compiled line gives the format line back. */
  lemma {:induction false} RenderCompile(line: string)
    ensures Render(Compile(line)) == line
    decreases |line|
  {
    if |line| >= 2 && line[0] == '%' && line[1] == 'd' {
      RenderCompile(line[2..]);
      assert line == "%d" + line[2..];
    } else if line != [] {
      RenderCompile(line[1..]);
      assert line == [line[0]] + line[1..];
    }
  }

  /** No literal `%` directly followed by a literal `d`: every `%d` is a digit run. */
  predicate Canonical(p: LinePattern)
    decreases |p|
  {
    p == [] || (!(|p| >= 2 && p[0] == Lit('%') && p[1] == Lit('d')) && Canonical(p[1..]))
  }

  /** `replace` leaves no `%d` behind: every `%d` of the line, a mixed one included,
      becomes a digit run. */
  lemma {:induction false} CompileCanonical(line: string)
    ensures Canonical(Compile(line))
    decreases |line|
  {
    if |line| >= 2 && line[0] == '%' && line[1] == 'd' {
      CompileCanonical(line[2..]);
      assert ([Digits] + Compile(line[2..]))[1..] == Compile(line[2..]);
    } else if line != [] {
      var rest := Compile(line[1..]);
      CompileCanonical(line[1..]);
      assert ([Lit(line[0])] + rest)[1..] == rest;
      if |line| >= 2 && line[0] == '%' {
        var tail := line[1..];
        if |tail| >= 2 && tail[0] == '%' && tail[1] == 'd' {
          assert rest[0] == Digits;
        } else {
          assert rest[0] == Lit(tail[0]);
        }
      }
    }
  }

  /** Compiling the format text of a canonical pattern gives the pattern back; with
      `RenderCompile` and `CompileCanonical`, `Compile` is the only canonical pattern
      whose format text is the line. */
  lemma {:induction false} CompileRender(p: LinePattern)
    requires Canonical(p)
    ensures Compile(Render(p)) == p
    decreases |p|
  {
    if p != [] {
      var rest := Render(p[1..]);
      CompileRender(p[1..]);
      match p[0]
      case Digits =>
        assert Render(p) == "%d" + rest;
        assert ("%d" + rest)[2..] == rest;
        assert p == [Digits] + p[1..];
      case Lit(ch) =>
        var line := [ch] + rest;
        assert Render(p) == line;
        assert line[1..] == rest;
        if ch == '%' && |line| >= 2 && line[1] == 'd' {
          RenderHead(p[1..]);
          assert false;
        }
        assert p == [Lit(ch)] + p[1..];
    }
  }

  /** The first character of a rendered pattern: `%` for a digit run, else the literal. */
  lemma {:induction false} RenderHead(p: LinePattern)
    requires p != []
    ensures |Render(p)| > 0 && Render(p)[0] == (if p[0].Digits? then '%' else p[0].c)
  {
  }

  // ---------------------------------------------------------------- matching one line

  /** Full match (`matcher(s).matches()`) of `s` against pattern `p`, trying every length
      of each digit run. */
  function Matches(p: LinePattern, s: string): bool
    decreases |s|, |p|, 0
  {
    if p == [] then s == []
    else match p[0]
      case Lit(ch) => |s| > 0 && s[0] == ch && Matches(p[1..], s[1..])
      case Digits => |s| > 0 && IsDigit(s[0]) && MatchesAfterDigit(p[1..], s[1..])
  }

  /** A digit run has begun: either it ends here and `rest` matches `s`, or it goes on
      with one more digit. */
  function MatchesAfterDigit(rest: LinePattern, s: string): bool
    decreases |s|, |rest|, 1
  {
    Matches(rest, s) || (|s| > 0 && IsDigit(s[0]) && MatchesAfterDigit(rest, s[1..]))
  }

  /** A non-empty string of decimal digits. */
  predicate IsDigitRun(d: string) {
    |d| > 0 && forall i :: 0 <= i < |d| ==> IsDigit(d[i])
  }

  function DigitCount(p: LinePattern): nat
    decreases |p|
  {
    if p == [] then 0 else (if p[0].Digits? then 1 else 0) + DigitCount(p[1..])
  }

  /** The text obtained by putting `runs[i]` in place of the i-th digit run of `p`. */
  function Fill(p: LinePattern, runs: seq<string>): string
    requires |runs| == DigitCount(p)
    decreases |p|
  {
    if p == [] then ""
    else match p[0]
      case Lit(ch) => [ch] + Fill(p[1..], runs)
      case Digits => runs[0] + Fill(p[1..], runs[1..])
  }

  /** `s` is `p` with each digit run replaced by a non-empty run of digits. */
  predicate Instance(p: LinePattern, runs: seq<string>, s: string) {
    |runs| == DigitCount(p) && (forall i :: 0 <= i < |runs| ==> IsDigitRun(runs[i])) && Fill(p, runs) == s
  }

  lemma {:induction false} DigitPrefix(rest: LinePattern, s: string) returns (k: nat)
    requires MatchesAfterDigit(rest, s)
    ensures k <= |s| && (forall i :: 0 <= i < k ==> IsDigit(s[i])) && Matches(rest, s[k..])
    decreases |s|
  {
    if Matches(rest, s) {
      k := 0;
    } else {
      var k' := DigitPrefix(rest, s[1..]);
      k := k' + 1;
      assert s[k..] == s[1..][k'..];
    }
  }

  lemma {:induction false} MatchesWitness(p: LinePattern, s: string) returns (runs: seq<string>)
    requires Matches(p, s)
    ensures Instance(p, runs, s)
    decreases |s|
  {
    if p == [] {
      runs := [];
    } else {
      match p[0]
      case Lit(ch) =>
        runs := MatchesWitness(p[1..], s[1..]);
        assert DigitCount(p) == DigitCount(p[1..]);
        assert Fill(p, runs) == [ch] + Fill(p[1..], runs);
        assert s == [ch] + s[1..];
      case Digits =>
        var k := DigitPrefix(p[1..], s[1..]);
        var r := MatchesWitness(p[1..], s[1 + k..]);
        assert s[1..][k..] == s[1 + k..];
        var d := s[..1 + k];
        assert IsDigitRun(d) by {
          forall i | 0 <= i < |d| ensures IsDigit(d[i]) {
            if i > 0 {
              assert d[i] == s[1..][i - 1];
            }
          }
        }
        runs := [d] + r;
        assert runs[0] == d && runs[1..] == r;
        assert DigitCount(p) == 1 + DigitCount(p[1..]);
        assert Fill(p, runs) == d + Fill(p[1..], r);
        assert s == d + s[1 + k..];
    }
  }

  lemma {:induction false} DigitsThenMatch(rest: LinePattern, d: string, t: string)
    requires forall i :: 0 <= i < |d| ==> IsDigit(d[i])
    requires Matches(rest, t)
    ensures MatchesAfterDigit(rest, d + t)
    decreases |d|
  {
    if d == [] {
      assert d + t == t;
    } else {
      DigitsThenMatch(rest, d[1..], t);
      assert (d + t)[1..] == d[1..] + t;
    }
  }

  lemma {:induction false} FillMatches(p: LinePattern, runs: seq<string>)
    requires |runs| == DigitCount(p) && forall i :: 0 <= i < |runs| ==> IsDigitRun(runs[i])
    ensures Matches(p, Fill(p, runs))
    decreases |p|
  {
    if p != [] {
      match p[0]
      case Lit(ch) =>
        FillMatches(p[1..], runs);
        assert ([ch] + Fill(p[1..], runs))[1..] == Fill(p[1..], runs);
      case Digits =>
        var d := runs[0];
        var t := Fill(p[1..], runs[1..]);
        FillMatches(p[1..], runs[1..]);
        assert IsDigitRun(d);
        DigitsThenMatch(p[1..], d[1..], t);
        assert (d + t)[1..] == d[1..] + t;
    }
  }

  /** The meaning of a pattern: a line matches it exactly when the line is the pattern
      with every `%d` replaced by some non-empty run of decimal digits. */
  lemma {:induction false} MatchesIffInstance(p: LinePattern, s: string)
    ensures Matches(p, s) <==> exists runs :: Instance(p, runs, s)
  {
    if Matches(p, s) {
      var runs := MatchesWitness(p, s);
    }
    if exists runs :: Instance(p, runs, s) {
      var runs :| Instance(p, runs, s);
      FillMatches(p, runs);
    }
  }

  /** A lone `%d` matches exactly the non-empty runs of decimal digits. */
  lemma {:induction false} PlaceholderMatchesDigitRuns(s: string)
    ensures Matches(Compile("%d"), s) <==> IsDigitRun(s)
  {
    var p := Compile("%d");
    assert p == [Digits] by {
      assert "%d"[2..] == [];
    }
    MatchesIffInstance(p, s);
    if IsDigitRun(s) {
      assert Fill(p, [s]) == s;
      assert Instance(p, [s], s);
    }
  }

  /** A format line without `%d` matches exactly its own text. */
  lemma {:induction false} LiteralLineMatchesItself(line: string, s: string)
    requires !HasPlaceholder(line)
    ensures Matches(Compile(line), s) <==> s == line
    decreases |line|
  {
    if line != [] {
      assert Compile(line) == [Lit(line[0])] + Compile(line[1..]);
      assert line == [line[0]] + line[1..];
      if |s| > 0 {
        LiteralLineMatchesItself(line[1..], s[1..]);
        assert s == [s[0]] + s[1..];
      }
    }
  }

  // ---------------------------------------------------------------- whole texts

  /** The patterns of `matchesFormat(format)`: one compiled pattern per format line. */
  function FormatPatterns(format: string, sep: string): (r: seq<LinePattern>)
    requires |sep| > 0
  {
    var lines := Split(format, sep);
    seq(|lines|, i requires 0 <= i < |lines| => Compile(lines[i]))
  }

  /** What `matchesSafely` decides: as many lines as patterns, and each line matching
      its pattern. */
  predicate AllLinesMatch(patterns: seq<LinePattern>, lines: seq<string>) {
    |patterns| == |lines| && forall i :: 0 <= i < |lines| ==> Matches(patterns[i], lines[i])
  }

  function Min(a: nat, b: nat): nat {
    if a <= b then a else b
  }

  /** The number of leading line pairs that match. */
  function MatchingPrefix(patterns: seq<LinePattern>, lines: seq<string>): (k: nat)
    ensures k <= Min(|patterns|, |lines|)
    ensures forall j :: 0 <= j < k ==> Matches(patterns[j], lines[j])
    ensures k < Min(|patterns|, |lines|) ==> !Matches(patterns[k], lines[k])
    decreases |lines|
  {
    if patterns == [] || lines == [] then 0
    else if !Matches(patterns[0], lines[0]) then 0
    else 1 + MatchingPrefix(patterns[1..], lines[1..])
  }

  /** The explanation `describeMismatchSafely` gives: the first line among the compared
      ones that fails (1-based), else how many lines the text has too many or too few. */
  function MismatchOf(patterns: seq<LinePattern>, lines: seq<string>): (r: Mismatch)
    ensures r.BadLine? ==>
      1 <= r.lineNumber <= Min(|patterns|, |lines|)
      && !Matches(patterns[r.lineNumber - 1], lines[r.lineNumber - 1])
      && forall j :: 0 <= j < r.lineNumber - 1 ==> Matches(patterns[j], lines[j])
    ensures !r.BadLine? ==>
      (forall j :: 0 <= j < Min(|patterns|, |lines|) ==> Matches(patterns[j], lines[j]))
      && r == if |lines| > |patterns| then ExtraLines(|lines| - |patterns|) else MissingLines(|patterns| - |lines|)
  {
    var k := MatchingPrefix(patterns, lines);
    if k < Min(|patterns|, |lines|) then BadLine(k + 1)
    else if |lines| > k then ExtraLines(|lines| - k)
    else MissingLines(|patterns| - k)
  }

  /** The explanation reports "0 more lines" exactly when the text matches; in
      particular a mismatch is always explained by a line or a line count. */
  lemma {:induction false} MismatchIffNotMatching(patterns: seq<LinePattern>, lines: seq<string>)
    ensures MismatchOf(patterns, lines) == MissingLines(0) <==> AllLinesMatch(patterns, lines)
  {
  }

  /** A format none of whose lines holds `%d` matches its own text. */
  lemma {:induction false} LiteralFormatMatchesItself(format: string, sep: string)
    requires |sep| > 0
    requires forall i :: 0 <= i < |Split(format, sep)| ==> !HasPlaceholder(Split(format, sep)[i])
    ensures AllLinesMatch(FormatPatterns(format, sep), Split(format, sep))
  {
    var lines := Split(format, sep);
    forall i | 0 <= i < |lines| ensures Matches(FormatPatterns(format, sep)[i], lines[i]) {
      LiteralLineMatchesItself(lines[i], lines[i]);
    }
  }

  // ---------------------------------------------------------------- the matcher's methods

  /** `matchesFormat`: splits the format at the line separator and compiles each line. */
  method MatchesFormat(format: string, sep: string) returns (m: FormatMatcher)
    requires |sep| > 0
    ensures |m.patterns| == |Split(format, sep)|
    ensures forall i :: 0 <= i < |m.patterns| ==> m.patterns[i] == Compile(Split(format, sep)[i])
    ensures forall i :: 0 <= i < |m.patterns| ==> Render(m.patterns[i]) == Split(format, sep)[i]
    ensures m.patterns == FormatPatterns(format, sep)
  {
    var lines := Split(format, sep);
    var patterns: seq<LinePattern> := [];
    var i := 0;
    while i < |lines|
      invariant 0 <= i <= |lines|
      invariant |patterns| == i
      invariant forall j :: 0 <= j < i ==> patterns[j] == Compile(lines[j])
    {
      patterns := patterns + [Compile(lines[i])];
      i := i + 1;
    }
    forall j | 0 <= j < |patterns| ensures Render(patterns[j]) == lines[j] {
      RenderCompile(lines[j]);
    }
    m := FormatMatcher(patterns);
  }

  /** `matchesSafely`: false when the line counts differ, else true iff every line
      matches its pattern. */
  method MatchesSafely(m: FormatMatcher, item: string, sep: string) returns (b: bool)
    requires |sep| > 0
    ensures |m.patterns| != |Split(item, sep)| ==> !b
    ensures b <==> AllLinesMatch(m.patterns, Split(item, sep))
  {
    var lines := Split(item, sep);
    if |m.patterns| != |lines| {
      return false;
    }
    var i := 0;
    while i < |lines|
      invariant 0 <= i <= |lines|
      invariant forall j :: 0 <= j < i ==> Matches(m.patterns[j], lines[j])
    {
      if !Matches(m.patterns[i], lines[i]) {
        return false;
      }
      i := i + 1;
    }
    return true;
  }

  /** `describeMismatchSafely`: the first failing line among the compared ones, else
      the number of extra or missing lines. */
  method DescribeMismatch(m: FormatMatcher, item: string, sep: string) returns (d: Mismatch)
    requires |sep| > 0
    ensures d == MismatchOf(m.patterns, Split(item, sep))
  {
    var lines := Split(item, sep);
    var i := 0;
    while i < |lines| && i < |m.patterns|
      invariant 0 <= i <= Min(|lines|, |m.patterns|)
      invariant forall j :: 0 <= j < i ==> Matches(m.patterns[j], lines[j])
    {
      if !Matches(m.patterns[i], lines[i]) {
        return BadLine(i + 1);
      }
      i := i + 1;
    }
    if |lines| > i {
      d := ExtraLines(|lines| - i);
    } else {
      d := MissingLines(|m.patterns| - i);
    }
  }
}
