/**
 * The whitespace complexity score of one file version: the leading whitespace of every
 * line, the file's nominal indent unit (its most frequent non-empty indent), and the
 * number of units in each line's indent. The score is the standard deviation of those
 * numbers; files with too few lines or an invalid encoding score zero without analysis.
 */
module WhitespaceAnalysis {
  import opened Wrappers
  import Seqs

  const MIN_LINES := 10
  const DEFAULT_INDENT := " "

  /** The characters `\s` matches in a Ruby regular expression. */
  predicate IsWhitespace(c: char) {
    c == ' ' || c == '\t' || c == '\n' || c == '\r' || c == '\U{000C}' || c == '\U{000B}'
  }

  // ---------------------------------------------------------------- lines

  /** The length of the first line of `s`, its terminating newline included. */
  function FirstLineLength(s: string): (n: nat)
    requires s != []
    ensures 0 < n <= |s|
    ensures forall i :: 0 <= i < n - 1 ==> s[i] != '\n'
    ensures s[n - 1] == '\n' || n == |s|
  {
    if s[0] == '\n' || |s| == 1 then 1 else 1 + FirstLineLength(s[1..])
  }

  /** `String#lines`: split after every newline, keeping it; no empty last line. */
  function Lines(s: string): (r: seq<string>)
    decreases |s|
  {
    if s == [] then [] else
      var n := FirstLineLength(s);
      [s[..n]] + Lines(s[n..])
  }

  function Concat(ls: seq<string>): string {
    if ls == [] then [] else ls[0] + Concat(ls[1..])
  }

  /** Joining the lines gives back the contents. */
  lemma {:induction false} LinesRoundTrip(s: string)
    ensures Concat(Lines(s)) == s
    decreases |s|
  {
    if s != [] {
      var n := FirstLineLength(s);
      LinesRoundTrip(s[n..]);
      assert s == s[..n] + s[n..];
    }
  }

  /**
   * Every line is non-empty, holds a newline only as its last character, and every line
   * but the last ends with one.
   */
  lemma {:induction false} LinesShape(s: string)
    ensures forall k :: 0 <= k < |Lines(s)| ==> Lines(s)[k] != []
    ensures forall k, i :: 0 <= k < |Lines(s)| && 0 <= i < |Lines(s)[k]| - 1 ==> Lines(s)[k][i] != '\n'
    ensures forall k :: 0 <= k < |Lines(s)| - 1 ==> Lines(s)[k][|Lines(s)[k]| - 1] == '\n'
    decreases |s|
  {
    if s != [] {
      var n := FirstLineLength(s);
      LinesShape(s[n..]);
      var r := Lines(s);
      assert r == [s[..n]] + Lines(s[n..]);
      forall k | 0 <= k < |r| - 1 ensures r[k][|r[k]| - 1] == '\n' {
        if k == 0 {
          assert Lines(s[n..]) != [];
          assert n < |s|;
        }
      }
    }
  }

  // ---------------------------------------------------------------- indents

  /** The number of leading copies of `c` in `line`. */
  function LeadingRun(line: string, c: char): (n: nat)
    ensures n <= |line|
    ensures forall i :: 0 <= i < n ==> line[i] == c
    ensures n < |line| ==> line[n] != c
  {
    if line == [] || line[0] != c then 0 else 1 + LeadingRun(line[1..], c)
  }

  /** All spaces or all tabs (the empty string is both). */
  predicate Uniform(s: string) {
    (forall i :: 0 <= i < |s| ==> s[i] == ' ') || (forall i :: 0 <= i < |s| ==> s[i] == '\t')
  }

  /**
   * `line.match(/^( *|\t*)\S|/)[1]`: the leading run of spaces, or else of tabs, when a
   * non-whitespace character follows it; otherwise the empty alternative matches and
   * the group is nil.
   */
  function LineIndent(line: string): (r: Option<string>)
    ensures r.Some? ==> |r.value| < |line| && line[..|r.value|] == r.value
    ensures r.Some? ==> Uniform(r.value) && !IsWhitespace(line[|r.value|])
  {
    var spaces := LeadingRun(line, ' ');
    if spaces < |line| && !IsWhitespace(line[spaces]) then Some(line[..spaces])
    else
      var tabs := LeadingRun(line, '\t');
      if tabs < |line| && !IsWhitespace(line[tabs]) then Some(line[..tabs])
      else None
  }

  /** The position of the first non-whitespace character, or `|line|` when there is none. */
  function FirstNonWhitespace(line: string): (k: nat)
    ensures k <= |line|
    ensures forall i :: 0 <= i < k ==> IsWhitespace(line[i])
    ensures k < |line| ==> !IsWhitespace(line[k])
  {
    if line == [] || !IsWhitespace(line[0]) then 0 else 1 + FirstNonWhitespace(line[1..])
  }

  /**
   * The indent is the whole leading whitespace, provided the line has a non-whitespace
   * character and that whitespace does not mix spaces and tabs; otherwise there is none.
   */
  lemma LineIndentIsUniformLeadingWhitespace(line: string)
    ensures LineIndent(line) ==
      var k := FirstNonWhitespace(line);
      if k < |line| && Uniform(line[..k]) then Some(line[..k]) else None
  {
    var k := FirstNonWhitespace(line);
    var spaces := LeadingRun(line, ' ');
    var tabs := LeadingRun(line, '\t');
    if spaces < |line| && !IsWhitespace(line[spaces]) {
      assert LineIndent(line) == Some(line[..spaces]);
      SpacesRunIsLeadingWhitespace(line, spaces, k);
    } else if tabs < |line| && !IsWhitespace(line[tabs]) {
      assert LineIndent(line) == Some(line[..tabs]);
      TabsRunIsLeadingWhitespace(line, tabs, k);
    } else {
      assert LineIndent(line) == None;
      if k < |line| && Uniform(line[..k]) {
        if forall i :: 0 <= i < k ==> line[..k][i] == ' ' {
          RunReachesFirstNonWhitespace(line, ' ', k);
        } else {
          RunReachesFirstNonWhitespace(line, '\t', k);
        }
      }
    }
  }

  lemma SpacesRunIsLeadingWhitespace(line: string, spaces: nat, k: nat)
    requires spaces == LeadingRun(line, ' ') && spaces < |line| && !IsWhitespace(line[spaces])
    requires k == FirstNonWhitespace(line)
    ensures k == spaces && Uniform(line[..k])
  {
    assert forall i :: 0 <= i < spaces ==> line[..spaces][i] == ' ';
  }

  lemma TabsRunIsLeadingWhitespace(line: string, tabs: nat, k: nat)
    requires tabs == LeadingRun(line, '\t') && tabs < |line| && !IsWhitespace(line[tabs])
    requires k == FirstNonWhitespace(line)
    ensures k == tabs && Uniform(line[..k])
  {
    assert forall i :: 0 <= i < tabs ==> line[..tabs][i] == '\t';
  }

  lemma RunReachesFirstNonWhitespace(line: string, c: char, k: nat)
    requires c == ' ' || c == '\t'
    requires k == FirstNonWhitespace(line) && k < |line|
    requires forall i :: 0 <= i < k ==> line[..k][i] == c
    ensures LeadingRun(line, c) == k
  {
    assert forall i :: 0 <= i < k ==> line[..k][i] == line[i];
    assert forall i :: 0 <= i < k ==> line[i] == c;
  }

  /** `whitespace_indents` of a list of lines: one indent per line that has one, in order. */
  function IndentsOf(lines: seq<string>): (r: seq<string>)
    ensures |r| <= |lines|
    ensures forall s :: s in r ==> Uniform(s)
  {
    if lines == [] then []
    else
      var rest := IndentsOf(lines[1..]);
      match LineIndent(lines[0])
      case Some(s) => [s] + rest
      case None => rest
  }

  function Shift(idx: seq<nat>): (r: seq<nat>)
    ensures |r| == |idx|
    ensures forall i :: 0 <= i < |r| ==> r[i] == idx[i] + 1
  {
    if idx == [] then [] else [idx[0] + 1] + Shift(idx[1..])
  }

  /** The numbers of the lines that yield an indent, in increasing order. */
  function IndentedLineNumbers(lines: seq<string>): (r: seq<nat>)
    ensures |r| == |IndentsOf(lines)|
  {
    if lines == [] then []
    else if LineIndent(lines[0]).Some? then [0] + Shift(IndentedLineNumbers(lines[1..]))
    else Shift(IndentedLineNumbers(lines[1..]))
  }

  /** The k-th indent comes from line `IndentedLineNumbers(lines)[k]`. */
  lemma {:induction false} IndentsComeFromTheirLines(lines: seq<string>)
    ensures var r, ind := IndentedLineNumbers(lines), IndentsOf(lines);
      forall k :: 0 <= k < |r| ==> r[k] < |lines| && LineIndent(lines[r[k]]) == Some(ind[k])
  {
    if lines != [] {
      var tail := lines[1..];
      IndentsComeFromTheirLines(tail);
      var rest := IndentedLineNumbers(tail);
      var r, ind := IndentedLineNumbers(lines), IndentsOf(lines);
      var off := if LineIndent(lines[0]).Some? then 1 else 0;
      assert r[off..] == Shift(rest);
      assert ind[off..] == IndentsOf(tail);
      forall k | off <= k < |r| ensures r[k] < |lines| && LineIndent(lines[r[k]]) == Some(ind[k]) {
        assert r[k] == r[off..][k - off] == rest[k - off] + 1;
        assert ind[k] == IndentsOf(tail)[k - off];
        assert lines[r[k]] == tail[rest[k - off]];
      }
    }
  }

  ghost predicate Increasing(r: seq<nat>) {
    forall k, m :: 0 <= k < m < |r| ==> r[k] < r[m]
  }

  lemma ShiftIncreasing(idx: seq<nat>)
    requires Increasing(idx)
    ensures Increasing(Shift(idx))
    ensures forall k :: 0 <= k < |Shift(idx)| ==> Shift(idx)[k] > 0
  {
    var r := Shift(idx);
    forall k, m | 0 <= k < m < |r| ensures r[k] < r[m] {
      assert r[k] == idx[k] + 1 && r[m] == idx[m] + 1;
    }
  }

  lemma ZeroThenIncreasing(r: seq<nat>)
    requires Increasing(r) && forall k :: 0 <= k < |r| ==> r[k] > 0
    ensures Increasing([0] + r)
  {
    var z := [0] + r;
    forall k, m | 0 <= k < m < |z| ensures z[k] < z[m] {
      assert z[m] == r[m - 1];
      if k > 0 {
        assert z[k] == r[k - 1];
      }
    }
  }

  /** The line numbers increase: the indents keep the order of their lines. */
  lemma {:induction false} IndentedLineNumbersIncrease(lines: seq<string>)
    ensures Increasing(IndentedLineNumbers(lines))
  {
    if lines != [] {
      var tail := lines[1..];
      IndentedLineNumbersIncrease(tail);
      ShiftIncreasing(IndentedLineNumbers(tail));
      var shifted := Shift(IndentedLineNumbers(tail));
      if LineIndent(lines[0]).Some? {
        ZeroThenIncreasing(shifted);
      }
    }
  }

  /** Every line that has an indent contributes one. */
  lemma {:induction false} IndentedLinesAllCounted(lines: seq<string>)
    ensures forall j :: 0 <= j < |lines| && LineIndent(lines[j]).Some? ==> j in IndentedLineNumbers(lines)
  {
    if lines != [] {
      var tail := lines[1..];
      IndentedLinesAllCounted(tail);
      var rest := IndentedLineNumbers(tail);
      var r := IndentedLineNumbers(lines);
      var off := if LineIndent(lines[0]).Some? then 1 else 0;
      assert r[off..] == Shift(rest);
      forall j | 0 <= j < |lines| && LineIndent(lines[j]).Some? ensures j in r {
        if j == 0 {
          assert r[0] == 0;
        } else {
          assert tail[j - 1] == lines[j];
          var k :| 0 <= k < |rest| && rest[k] == j - 1;
          assert r[k + off] == r[off..][k] == j;
        }
      }
    }
  }

  /** The uniform indents of the file's lines, one per line that has one, in line order. */
  function WhitespaceIndents(contents: string): (r: seq<string>)
    ensures |r| <= |Lines(contents)|
    ensures forall s :: s in r ==> Uniform(s)
  {
    IndentsOf(Lines(contents))
  }

  // ---------------------------------------------------------------- nominal indent

  function Count(xs: seq<string>, x: string): nat {
    multiset(xs)[x]
  }

  /** An element of `cands` occurring most often in `xs`; ties go to the earliest. */
  function MostFrequentAmong(xs: seq<string>, cands: seq<string>): (m: string)
    requires cands != []
    ensures m in cands
    ensures forall y :: y in cands ==> Count(xs, y) <= Count(xs, m)
  {
    if |cands| == 1 then cands[0]
    else
      var best := MostFrequentAmong(xs, cands[1..]);
      assert forall y :: y in cands ==> y == cands[0] || y in cands[1..];
      if Count(xs, cands[0]) >= Count(xs, best) then cands[0] else best
  }

  /** The statistics library's `mode`: a most frequent element, or nothing when empty. */
  function Mode(xs: seq<string>): (r: Option<string>)
    ensures r.None? <==> xs == []
    ensures r.Some? ==> r.value in xs && forall y :: y in xs ==> Count(xs, y) <= Count(xs, r.value)
  {
    if xs == [] then None else Some(MostFrequentAmong(xs, xs))
  }

  predicate NonEmpty(s: string) {
    s != []
  }

  /** The inferred unit of indentation: the most frequent non-empty indent, by default " ". */
  function NominalIndent(contents: string): (r: string)
    ensures r != [] && Uniform(r)
    ensures (forall s :: s in WhitespaceIndents(contents) ==> s == []) ==> r == DEFAULT_INDENT
    ensures (exists s :: s in WhitespaceIndents(contents) && s != []) ==>
      var ws := WhitespaceIndents(contents);
      r in ws && forall s :: s in ws && s != [] ==> Count(ws, s) <= Count(ws, r)
  {
    var ws := WhitespaceIndents(contents);
    var indented := Seqs.Filter(ws, NonEmpty);
    match Mode(indented)
    case None => DEFAULT_INDENT
    case Some(m) =>
      assert forall s :: s in ws && s != [] ==> Count(ws, s) <= Count(ws, m) by {
        forall s | s in ws && s != [] ensures Count(ws, s) <= Count(ws, m) {
          Seqs.FilterMultiplicity(ws, NonEmpty, s);
          Seqs.FilterMultiplicity(ws, NonEmpty, m);
        }
      }
      m
  }

  // ---------------------------------------------------------------- logical indents

  /** How many non-overlapping copies of `unit` a left-to-right scan of `s` finds. */
  function ScanCount(s: string, unit: string): nat
    requires unit != []
    decreases |s|
  {
    if |s| < |unit| then 0
    else if s[..|unit|] == unit then 1 + ScanCount(s[|unit|..], unit)
    else ScanCount(s[1..], unit)
  }

  lemma {:induction false} MulAtLeast(k: nat, d: nat)
    requires 1 <= d
    ensures k * d >= k
  {
    if d > 1 {
      MulAtLeast(k, d - 1);
      assert k * d == k * (d - 1) + k;
    }
  }

  lemma DivUnique(n: int, k: int, q: int, r: int)
    requires 0 < k && 0 <= r < k && n == q * k + r
    ensures n / k == q
  {
    var q', r' := n / k, n % k;
    assert n == q' * k + r';
    if q' > q {
      MulAtLeast(k, q' - q);
    } else if q' < q {
      MulAtLeast(k, q - q');
    }
  }

  lemma DivStep(n: nat, k: nat)
    requires 0 < k <= n
    ensures n / k == (n - k) / k + 1
  {
    var q, r := (n - k) / k, (n - k) % k;
    assert n - k == q * k + r;
    DivUnique(n, k, q + 1, r);
  }

  /** Every character of `s` is `c`. */
  predicate AllChar(s: string, c: char) {
    forall i :: 0 <= i < |s| ==> s[i] == c
  }

  /** n copies of a character hold n div |unit| copies of a unit made of that character. */
  lemma {:induction false} ScanCountSameChar(s: string, unit: string, c: char)
    requires unit != [] && AllChar(s, c) && AllChar(unit, c)
    ensures ScanCount(s, unit) == |s| / |unit|
    decreases |s|
  {
    if |s| < |unit| {
      DivUnique(|s|, |unit|, 0, |s|);
    } else {
      assert s[..|unit|] == unit;
      var rest := s[|unit|..];
      assert AllChar(rest, c) by {
        assert forall i :: 0 <= i < |rest| ==> rest[i] == s[i + |unit|];
      }
      ScanCountSameChar(rest, unit, c);
      DivStep(|s|, |unit|);
    }
  }

  /** Copies of one character hold no unit that starts with another. */
  lemma {:induction false} ScanCountOtherChar(s: string, unit: string, c: char)
    requires unit != [] && AllChar(s, c) && unit[0] != c
    ensures ScanCount(s, unit) == 0
    decreases |s|
  {
    if |s| >= |unit| {
      assert s[..|unit|][0] == c;
      var rest := s[1..];
      assert AllChar(rest, c) by {
        assert forall i :: 0 <= i < |rest| ==> rest[i] == s[i + 1];
      }
      ScanCountOtherChar(rest, unit, c);
    }
  }

  /**
   * Counting a uniform unit in a uniform indent: n copies of the unit's character hold
   * n div |unit| units; an indent of the other character holds none.
   */
  lemma ScanCountUniform(s: string, unit: string)
    requires unit != [] && Uniform(s) && Uniform(unit)
    ensures ScanCount(s, unit) == if s == [] || s[0] == unit[0] then |s| / |unit| else 0
  {
    if s == [] {
      DivUnique(0, |unit|, 0, 0);
    } else {
      var c := s[0];
      assert AllChar(s, c);
      if unit[0] == c {
        assert AllChar(unit, c);
        ScanCountSameChar(s, unit, c);
      } else {
        ScanCountOtherChar(s, unit, c);
      }
    }
  }

  function Units(indents: seq<string>, unit: string): (r: seq<nat>)
    requires unit != []
    ensures |r| == |indents|
    ensures forall i :: 0 <= i < |r| ==> r[i] == ScanCount(indents[i], unit)
  {
    if indents == [] then [] else [ScanCount(indents[0], unit)] + Units(indents[1..], unit)
  }

  /**
   * `logical_indents`: one number per indent, the units of the nominal indent it holds —
   * its length divided by the unit's when it is made of the unit's character, else 0.
   */
  function LogicalIndents(contents: string): (r: seq<nat>)
    ensures |r| == |WhitespaceIndents(contents)|
    ensures var ws, unit := WhitespaceIndents(contents), NominalIndent(contents);
      forall i :: 0 <= i < |r| ==>
        r[i] == if ws[i] == [] || ws[i][0] == unit[0] then |ws[i]| / |unit| else 0
  {
    var ws, unit := WhitespaceIndents(contents), NominalIndent(contents);
    var r := Units(ws, unit);
    assert forall i :: 0 <= i < |r| ==>
      r[i] == if ws[i] == [] || ws[i][0] == unit[0] then |ws[i]| / |unit| else 0 by {
      forall i | 0 <= i < |r|
        ensures r[i] == if ws[i] == [] || ws[i][0] == unit[0] then |ws[i]| / |unit| else 0
      {
        assert ws[i] in ws;
        ScanCountUniform(ws[i], unit);
      }
    }
    r
  }

  /** A file whose every line starts with non-whitespace or is blank has all-zero depths. */
  lemma UnindentedIsFlat(contents: string)
    requires forall l :: l in Lines(contents) ==>
      (forall i :: 0 <= i < |l| ==> IsWhitespace(l[i])) || !IsWhitespace(l[0])
    ensures NominalIndent(contents) == DEFAULT_INDENT
    ensures forall d :: d in LogicalIndents(contents) ==> d == 0
  {
    UnindentedLinesHaveEmptyIndents(Lines(contents));
    var ws, unit := WhitespaceIndents(contents), NominalIndent(contents);
    var r := LogicalIndents(contents);
    forall d | d in r ensures d == 0 {
      var k :| 0 <= k < |r| && r[k] == d;
      assert ws[k] in ws;
      assert |ws[k]| == 0;
    }
  }

  lemma UnindentedLinesHaveEmptyIndents(lines: seq<string>)
    requires forall l :: l in lines ==>
      (forall i :: 0 <= i < |l| ==> IsWhitespace(l[i])) || !IsWhitespace(l[0])
    ensures forall s :: s in IndentsOf(lines) ==> s == []
  {
    var ws := IndentsOf(lines);
    var idx := IndentedLineNumbers(lines);
    IndentsComeFromTheirLines(lines);
    forall k | 0 <= k < |ws| ensures ws[k] == [] {
      assert idx[k] < |lines| && LineIndent(lines[idx[k]]) == Some(ws[k]);
      var l := lines[idx[k]];
      assert l in lines;
      assert LineIndent(l) == Some(ws[k]);
      assert |ws[k]| < |l| && l[..|ws[k]|] == ws[k];
      assert !IsWhitespace(l[|ws[k]|]);
    }
  }

  // ---------------------------------------------------------------- score

  /**
   * The score: `ShortCircuitZero` is the 0.0 fixed at construction; `StdOf(d)` stands for
   * the standard deviation of the depths `d`, computed by the statistics library.
   */
  datatype Score = ShortCircuitZero | StdOf(depths: seq<nat>)

  /** `std`, with the guard of `initialize`. */
  function Std(contents: string, validEncoding: bool): (r: Score)
    ensures r.ShortCircuitZero? <==> !validEncoding || |Lines(contents)| < MIN_LINES
    ensures r.StdOf? ==> |r.depths| <= |Lines(contents)| && r.depths == LogicalIndents(contents)
  {
    if !validEncoding || |Lines(contents)| < MIN_LINES then ShortCircuitZero
    else StdOf(LogicalIndents(contents))
  }
}
