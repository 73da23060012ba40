/**
 * The refactor-diligence report: for the Ruby files a pull request changes, gather the
 * commits that touched them, ask the size history of every method over those commits,
 * and comment on each method whose history has more than TIMES_INCREASED_THRESHOLD
 * entries, at the location the newest commit gives it.
 *
 * The git log, the commit scanner and the method size history are functions the
 * repository value supplies; their implementations are not part of this model.
 */
module RefactorDiligence {
  import opened Wrappers
  import Seqs
  import Sorting

  const TIMES_INCREASED_THRESHOLD := 2

  type Path = string
  type MethodName = string
  type Location = string

  /** A commit as the git log reports it: its sha and its date in seconds. */
  datatype LogCommit = LogCommit(sha: string, date: int)

  /** What the commit scanner reports of one method; only `:loc` is used here. */
  datatype MethodStats = MethodStats(loc: Option<Location>)

  /** One entry of the size-history hash: a method and its recorded sizes. */
  datatype MethodHistory = MethodHistory(name: MethodName, sizes: seq<int>)

  datatype Repository = Repository(
    log: Path -> seq<LogCommit>,
    scan: (Option<LogCommit>, seq<Path>) -> map<MethodName, MethodStats>,
    sizeHistory: (seq<LogCommit>, seq<Path>) -> seq<MethodHistory>)

  datatype Comment = Comment(methodName: MethodName, timesIncreased: nat, location: Location, message: string)

  /** `KeyError` from a `fetch`: a scanned method without `:loc`, or a method with no location. */
  datatype ReportError = MissingLoc | NoLocation(name: MethodName)

  datatype Report = Report(repo: Repository, filesChanged: seq<Path>, methodLocations: map<MethodName, Location>)

  // ---------------------------------------------------------------- File.extname

  function StripTrailingSlashes(p: string): (r: string)
    ensures |r| <= |p| && r == p[..|r|]
    ensures r == [] || r[|r| - 1] != '/'
  {
    if p != [] && p[|p| - 1] == '/' then StripTrailingSlashes(p[..|p| - 1]) else p
  }

  /** The part of `p` after its last '/'. */
  function AfterLastSlash(p: string): (r: string)
    ensures forall i :: 0 <= i < |r| ==> r[i] != '/'
    ensures |r| <= |p| && r == p[|p| - |r|..]
  {
    if p == [] || p[|p| - 1] == '/' then []
    else AfterLastSlash(p[..|p| - 1]) + [p[|p| - 1]]
  }

  function DropLeadingDots(s: string): (r: string)
    ensures r == [] || r[0] != '.'
    ensures |r| <= |s| && r == s[|s| - |r|..]
  {
    if s != [] && s[0] == '.' then DropLeadingDots(s[1..]) else s
  }

  /** The position of the last '.' in `s`, if any. */
  function LastDot(s: string): (r: Option<nat>)
    ensures r.Some? ==> r.value < |s| && s[r.value] == '.' && forall i :: r.value < i < |s| ==> s[i] != '.'
    ensures r.None? ==> forall i :: 0 <= i < |s| ==> s[i] != '.'
  {
    if s == [] then None
    else if s[|s| - 1] == '.' then Some(|s| - 1)
    else LastDot(s[..|s| - 1])
  }

  /** The last component of a '/'-separated path, trailing slashes and leading dots removed. */
  function BaseName(path: string): string {
    DropLeadingDots(AfterLastSlash(StripTrailingSlashes(path)))
  }

  /** The text of `name` from its last dot on, or "" when it has none. */
  function ExtensionOf(name: string): string {
    match LastDot(name)
    case None => ""
    case Some(i) => name[i..]
  }

  /** `File.extname`. */
  function Extname(path: string): string {
    ExtensionOf(BaseName(path))
  }

  predicate IsRubyFile(path: string) {
    Extname(path) == ".rb"
  }

  lemma ExtensionIsRbIffSuffix(name: string)
    ensures ExtensionOf(name) == ".rb" <==> |name| >= 3 && name[|name| - 3..] == ".rb"
  {
    if |name| >= 3 && name[|name| - 3..] == ".rb" {
      var n := |name|;
      assert name[n - 3] == '.' && name[n - 2] == 'r' && name[n - 1] == 'b';
      var j := LastDot(name).value;
      assert j == n - 3;
    }
    if ExtensionOf(name) == ".rb" {
      var i := LastDot(name).value;
      assert name[i..] == ".rb";
      assert i == |name| - 3;
    }
  }

  /**
   * A path names a Ruby file exactly when its last component, past any leading dots,
   * ends in ".rb": "lib/a.rb" does, "lib/.rb" and "a.rb/x" do not.
   */
  lemma RubyFileIffSuffix(path: string)
    ensures var name := BaseName(path);
      IsRubyFile(path) <==> |name| >= 3 && name[|name| - 3..] == ".rb"
  {
    ExtensionIsRbIffSuffix(BaseName(path));
  }

  /** `ruby_files_changed`: the changed files with extension ".rb", in their original order. */
  function RubyFilesChanged(files: seq<Path>): (r: seq<Path>)
    ensures forall f :: f in r <==> f in files && Extname(f) == ".rb"
    ensures Seqs.IsSublist(r, files)
  {
    Seqs.Filter(files, IsRubyFile)
  }

  // ---------------------------------------------------------------- commits of interest

  /** The git logs of `files`, one after another in the order of the files. */
  function AllLogs(repo: Repository, files: seq<Path>): (r: seq<LogCommit>)
    ensures forall c :: c in r <==> exists f :: f in files && c in repo.log(f)
  {
    if files == [] then []
    else
      assert forall f :: f in files <==> f == files[0] || f in files[1..];
      repo.log(files[0]) + AllLogs(repo, files[1..])
  }

  function Sha(c: LogCommit): string {
    c.sha
  }

  function Date(c: LogCommit): int {
    c.date
  }

  /** Ruby's `uniq` by sha: keep a commit when its sha is not in `seen`, then add the sha. */
  function UniqBySha(s: seq<LogCommit>, seen: set<string>): (r: seq<LogCommit>)
    ensures forall c :: c in r ==> c in s && c.sha !in seen
  {
    if s == [] then []
    else if s[0].sha in seen then UniqBySha(s[1..], seen)
    else [s[0]] + UniqBySha(s[1..], seen + {s[0].sha})
  }

  /** The sha of one commit of `s` not already seen survives `uniq`. */
  lemma {:induction false} UniqByShaKeeps(s: seq<LogCommit>, seen: set<string>, c: LogCommit)
    requires c in s && c.sha !in seen
    ensures exists d :: d in UniqBySha(s, seen) && d.sha == c.sha
  {
    assert s == [s[0]] + s[1..];
    if s[0].sha in seen {
      assert c in s[1..];
      UniqByShaKeeps(s[1..], seen, c);
    } else if c.sha == s[0].sha {
      assert UniqBySha(s, seen)[0] == s[0];
    } else {
      var seen' := seen + {s[0].sha};
      assert c in s[1..];
      UniqByShaKeeps(s[1..], seen', c);
      var d :| d in UniqBySha(s[1..], seen') && d.sha == c.sha;
      assert UniqBySha(s, seen) == [s[0]] + UniqBySha(s[1..], seen');
    }
  }

  /** The first commit of each sha not already seen is the one `uniq` keeps. */
  lemma {:induction false} UniqByShaKeepsFirst(s: seq<LogCommit>, seen: set<string>, i: nat)
    requires i < |s| && s[i].sha !in seen
    requires forall j :: 0 <= j < i ==> s[j].sha != s[i].sha
    ensures s[i] in UniqBySha(s, seen)
  {
    if i > 0 {
      var seen' := if s[0].sha in seen then seen else seen + {s[0].sha};
      assert s[1..][i - 1] == s[i];
      UniqByShaKeepsFirst(s[1..], seen', i - 1);
    }
  }

  /** Every commit `uniq` keeps is the first of its sha in the input. */
  lemma {:induction false} UniqByShaKeptIsFirst(s: seq<LogCommit>, seen: set<string>, c: LogCommit)
    requires c in UniqBySha(s, seen)
    ensures exists i :: 0 <= i < |s| && s[i] == c && forall j :: 0 <= j < i ==> s[j].sha != c.sha
  {
    if c != s[0] || s[0].sha in seen {
      var seen' := if s[0].sha in seen then seen else seen + {s[0].sha};
      assert c in UniqBySha(s[1..], seen');
      UniqByShaKeptIsFirst(s[1..], seen', c);
      var i :| 0 <= i < |s[1..]| && s[1..][i] == c && forall j :: 0 <= j < i ==> s[1..][j].sha != c.sha;
      assert s[i + 1] == c;
      forall j | 0 <= j < i + 1 ensures s[j].sha != c.sha {
        if j > 0 {
          assert s[j] == s[1..][j - 1];
        }
      }
    } else {
      assert s[0] == c;
    }
  }

  /** After `uniq`, no two commits share a sha. */
  lemma {:induction false} UniqByShaDistinct(s: seq<LogCommit>, seen: set<string>)
    ensures Sorting.DistinctBy(UniqBySha(s, seen), Sha)
  {
    if s != [] {
      if s[0].sha in seen {
        UniqByShaDistinct(s[1..], seen);
      } else {
        var seen' := seen + {s[0].sha};
        var rest := UniqBySha(s[1..], seen');
        UniqByShaDistinct(s[1..], seen');
        var r := [s[0]] + rest;
        forall i, j | 0 <= i < j < |r| ensures Sha(r[i]) != Sha(r[j]) {
          if i == 0 {
            assert r[j] == rest[j - 1];
            assert rest[j - 1] in rest;
          } else {
            assert r[i] == rest[i - 1] && r[j] == rest[j - 1];
          }
        }
      }
    }
  }

  /** `commits_of_interest`: the commits of the logs of `rubyFiles`, once per sha, newest first. */
  function CommitsOfInterest(repo: Repository, rubyFiles: seq<Path>): (r: seq<LogCommit>)
    ensures Sorting.SortedDesc(r, Date)
    ensures Sorting.DistinctBy(r, Sha)
  {
    var unique := UniqBySha(AllLogs(repo, rubyFiles), {});
    UniqByShaDistinct(AllLogs(repo, rubyFiles), {});
    Sorting.SortKeepsDistinct(unique, Date, Sha);
    Sorting.SortDesc(unique, Date)
  }

  /** Sorting keeps exactly the commits `uniq` left. */
  lemma CommitsOfInterestAreUnique(repo: Repository, rubyFiles: seq<Path>)
    ensures forall c :: c in CommitsOfInterest(repo, rubyFiles) <==> c in UniqBySha(AllLogs(repo, rubyFiles), {})
  {
    var unique := UniqBySha(AllLogs(repo, rubyFiles), {});
    var r := CommitsOfInterest(repo, rubyFiles);
    assert multiset(r) == multiset(unique);
    forall c ensures c in r <==> c in unique {
      assert c in r <==> c in multiset(r);
      assert c in unique <==> c in multiset(unique);
    }
  }

  /** Every commit of interest comes from the log of one of the given files. */
  lemma CommitsOfInterestFromLogs(repo: Repository, rubyFiles: seq<Path>)
    ensures forall c :: c in CommitsOfInterest(repo, rubyFiles) ==> exists f :: f in rubyFiles && c in repo.log(f)
  {
    CommitsOfInterestAreUnique(repo, rubyFiles);
    var all := AllLogs(repo, rubyFiles);
    forall c | c in CommitsOfInterest(repo, rubyFiles) ensures exists f :: f in rubyFiles && c in repo.log(f) {
      assert c in UniqBySha(all, {});
      assert c in all;
    }
  }

  /** A commit of the log of one of the given files is represented by its sha. */
  lemma LogCommitOfInterest(repo: Repository, rubyFiles: seq<Path>, f: Path, c: LogCommit)
    requires f in rubyFiles && c in repo.log(f)
    ensures exists d :: d in CommitsOfInterest(repo, rubyFiles) && d.sha == c.sha
  {
    CommitsOfInterestAreUnique(repo, rubyFiles);
    var all := AllLogs(repo, rubyFiles);
    assert c in all;
    UniqByShaKeeps(all, {}, c);
    var d :| d in UniqBySha(all, {}) && d.sha == c.sha;
    assert d in CommitsOfInterest(repo, rubyFiles);
  }

  function First(commits: seq<LogCommit>): Option<LogCommit> {
    if commits == [] then None else Some(commits[0])
  }

  /** The scanned commit is a newest one of the commits of interest, and absent only when there are none. */
  lemma ScannedCommitIsNewest(repo: Repository, rubyFiles: seq<Path>)
    ensures var commits := CommitsOfInterest(repo, rubyFiles);
      First(commits).Some? <==> commits != []
    ensures var commits := CommitsOfInterest(repo, rubyFiles);
      First(commits).Some? ==> forall c :: c in commits ==> c.date <= First(commits).value.date
  {
    var commits := CommitsOfInterest(repo, rubyFiles);
    forall c | c in commits ensures commits[0].date >= c.date {
      var k :| 0 <= k < |commits| && commits[k] == c;
      if k > 0 {
        assert Date(commits[0]) >= Date(commits[k]);
      }
    }
  }

  // ---------------------------------------------------------------- the report

  /** The location of every scanned method; a method scanned without one is an error. */
  function MethodLocations(stats: map<MethodName, MethodStats>): (r: Result<map<MethodName, Location>, ReportError>)
    ensures r.Success? <==> forall m :: m in stats ==> stats[m].loc.Some?
    ensures r.Success? ==> r.value.Keys == stats.Keys && forall m :: m in stats ==> r.value[m] == stats[m].loc.value
    ensures r.Failure? ==> r.error == MissingLoc
  {
    if forall m :: m in stats ==> stats[m].loc.Some? then Success(map m | m in stats :: stats[m].loc.value)
    else Failure(MissingLoc)
  }

  /** `initialize`: the method locations come from scanning the newest commit of interest. */
  function NewReport(repo: Repository, filesChanged: seq<Path>): (r: Result<Report, ReportError>)
    ensures var rubyFiles := RubyFilesChanged(filesChanged);
      var stats := repo.scan(First(CommitsOfInterest(repo, rubyFiles)), rubyFiles);
      && (r.Success? <==> forall m :: m in stats ==> stats[m].loc.Some?)
      && (r.Success? ==> r.value.repo == repo && r.value.filesChanged == filesChanged &&
                         r.value.methodLocations.Keys == stats.Keys &&
                         forall m :: m in stats ==> r.value.methodLocations[m] == stats[m].loc.value)
  {
    var rubyFiles := RubyFilesChanged(filesChanged);
    var stats := repo.scan(First(CommitsOfInterest(repo, rubyFiles)), rubyFiles);
    match MethodLocations(stats)
    case Success(locations) => Success(Report(repo, filesChanged, locations))
    case Failure(e) => Failure(e)
  }

  predicate OverThreshold(h: MethodHistory) {
    |h.sizes| > TIMES_INCREASED_THRESHOLD
  }

  /** `methods_over_threshold`: the histories with more than two entries, in order. */
  function MethodsOverThreshold(histories: seq<MethodHistory>): (r: seq<MethodHistory>)
    ensures forall h :: h in r <==> h in histories && |h.sizes| > TIMES_INCREASED_THRESHOLD
    ensures Seqs.IsSublist(r, histories)
  {
    Seqs.Filter(histories, OverThreshold)
  }

  function DigitChar(d: nat): char
    requires d < 10
  {
    "0123456789"[d]
  }

  /** Ruby's `Integer#to_s` for naturals. */
  function NatToString(n: nat): (s: string)
    ensures s != [] && forall i :: 0 <= i < |s| ==> '0' <= s[i] <= '9'
  {
    if n < 10 then [DigitChar(n)] else NatToString(n / 10) + [DigitChar(n % 10)]
  }

  function DecimalValue(s: string): nat
    requires forall i :: 0 <= i < |s| ==> '0' <= s[i] <= '9'
  {
    if s == [] then 0 else 10 * DecimalValue(s[..|s| - 1]) + (s[|s| - 1] as int - '0' as int)
  }

  /** The decimal text of a count reads back as the count. */
  lemma {:induction false} NatToStringRoundTrip(n: nat)
    ensures DecimalValue(NatToString(n)) == n
  {
    var s := NatToString(n);
    if n >= 10 {
      NatToStringRoundTrip(n / 10);
      assert s[..|s| - 1] == NatToString(n / 10);
    }
  }

  function IntToString(i: int): string {
    if i < 0 then "-" + NatToString(-i) else NatToString(i)
  }

  function JoinSizes(sizes: seq<int>): string {
    if sizes == [] then ""
    else if |sizes| == 1 then IntToString(sizes[0])
    else IntToString(sizes[0]) + ", " + JoinSizes(sizes[1..])
  }

  /** `Array#inspect` of a list of integers: "[1, 2, 3]". */
  function InspectSizes(sizes: seq<int>): string {
    "[" + JoinSizes(sizes) + "]"
  }

  const PHRASE_BEFORE_COUNT := " has increased in size the last "
  const PHRASE_AFTER_COUNT := " times it has been modified - "

  function Message(name: MethodName, sizes: seq<int>): string {
    name + PHRASE_BEFORE_COUNT + NatToString(|sizes|) + PHRASE_AFTER_COUNT + InspectSizes(sizes)
  }

  /**
   * A message starts with the method's name and the fixed phrase, followed by digits
   * that read back as the number of recorded sizes; the rest is the second phrase and
   * then the sizes as a bracketed list.
   */
  lemma MessageEmbedsCount(name: MethodName, sizes: seq<int>)
    ensures var prefix := name + PHRASE_BEFORE_COUNT;
      var digits := NatToString(|sizes|);
      var m := Message(name, sizes);
      && |m| > |prefix| + |digits|
      && m[..|prefix|] == prefix
      && m[|prefix|..|prefix| + |digits|] == digits
      && DecimalValue(digits) == |sizes|
      && m[|prefix| + |digits|..] == PHRASE_AFTER_COUNT + InspectSizes(sizes)
      && m[|prefix| + |digits| + |PHRASE_AFTER_COUNT|] == '['
      && m[|m| - 1] == ']'
  {
    NatToStringRoundTrip(|sizes|);
    var prefix := name + PHRASE_BEFORE_COUNT;
    var digits := NatToString(|sizes|);
    var inspected := InspectSizes(sizes);
    var tail := PHRASE_AFTER_COUNT + inspected;
    assert Message(name, sizes) == prefix + digits + tail;
    ThreeParts(prefix, digits, tail);
    assert tail[|PHRASE_AFTER_COUNT|] == inspected[0] == '[';
    assert tail[|tail| - 1] == inspected[|inspected| - 1] == ']';
  }

  /** Where each part of a three-part concatenation sits. */
  lemma ThreeParts(a: string, b: string, c: string)
    ensures var m := a + b + c;
      && m[..|a|] == a
      && m[|a|..|a| + |b|] == b
      && m[|a| + |b|..] == c
      && (c != [] ==> m[|m| - 1] == c[|c| - 1])
  {
  }

  function CommentFor(h: MethodHistory, location: Location): Comment {
    Comment(h.name, |h.sizes|, location, Message(h.name, h.sizes))
  }

  /** The index of the first selected method without a location, if any. */
  function FirstMissing(selected: seq<MethodHistory>, locations: map<MethodName, Location>): (r: Option<nat>)
    ensures r.Some? ==> (r.value < |selected| && selected[r.value].name !in locations &&
                         forall j :: 0 <= j < r.value ==> selected[j].name in locations)
    ensures r.None? ==> forall j :: 0 <= j < |selected| ==> selected[j].name in locations
  {
    if selected == [] then None
    else if selected[0].name !in locations then Some(0)
    else match FirstMissing(selected[1..], locations)
      case None => None
      case Some(i) => Some(i + 1)
  }

  /**
   * `generate_comments`: one comment per selected method, in order; the location lookup
   * raises on the first method that has none.
   */
  function GenerateComments(selected: seq<MethodHistory>, locations: map<MethodName, Location>)
    : (r: Result<seq<Comment>, ReportError>)
    ensures r.Success? <==> forall h :: h in selected ==> h.name in locations
    ensures r.Failure? ==> exists i :: (0 <= i < |selected| && r.error == NoLocation(selected[i].name) &&
                                       selected[i].name !in locations &&
                                       forall j :: 0 <= j < i ==> selected[j].name in locations)
    ensures r.Success? ==> |r.value| == |selected| && forall i :: 0 <= i < |selected| ==>
      && r.value[i].methodName == selected[i].name
      && r.value[i].timesIncreased == |selected[i].sizes|
      && r.value[i].location == locations[selected[i].name]
      && r.value[i].message == Message(selected[i].name, selected[i].sizes)
  {
    match FirstMissing(selected, locations)
    case Some(i) => Failure(NoLocation(selected[i].name))
    case None =>
      Success(seq(|selected|, i requires 0 <= i < |selected| => CommentFor(selected[i], locations[selected[i].name])))
  }

  /**
   * `comments`: the comments generated for the methods whose history exceeds the
   * threshold, against the locations found when the report was built.
   */
  function Comments(report: Report): (r: Result<seq<Comment>, ReportError>)
    ensures r.Success? ==> forall c :: c in r.value ==> c.timesIncreased > TIMES_INCREASED_THRESHOLD
  {
    var rubyFiles := RubyFilesChanged(report.filesChanged);
    var histories := report.repo.sizeHistory(CommitsOfInterest(report.repo, rubyFiles), rubyFiles);
    var selected := MethodsOverThreshold(histories);
    var r := GenerateComments(selected, report.methodLocations);
    if r.Success? then
      assert forall i :: 0 <= i < |selected| ==> selected[i] in selected;
      r
    else r
  }

  function HistoriesOf(report: Report): seq<MethodHistory> {
    var rubyFiles := RubyFilesChanged(report.filesChanged);
    report.repo.sizeHistory(CommitsOfInterest(report.repo, rubyFiles), rubyFiles)
  }

  /** Every selected method gets a comment with its name, history size and location. */
  lemma GeneratedCoverSelected(selected: seq<MethodHistory>, locations: map<MethodName, Location>)
    requires GenerateComments(selected, locations).Success?
    ensures forall h :: h in selected ==>
      h.name in locations &&
      exists c :: c in GenerateComments(selected, locations).value && c.methodName == h.name &&
                  c.timesIncreased == |h.sizes| && c.location == locations[h.name]
  {
    var cs := GenerateComments(selected, locations).value;
    forall h | h in selected
      ensures exists c :: c in cs && c.methodName == h.name && c.timesIncreased == |h.sizes| &&
                          c.location == locations[h.name]
    {
      var i :| 0 <= i < |selected| && selected[i] == h;
      assert cs[i] in cs;
    }
  }

  /** Every comment belongs to a selected method and reports its history size. */
  lemma GeneratedOnlySelected(selected: seq<MethodHistory>, locations: map<MethodName, Location>)
    requires GenerateComments(selected, locations).Success?
    ensures forall c :: c in GenerateComments(selected, locations).value ==>
      exists h :: h in selected && c.methodName == h.name && c.timesIncreased == |h.sizes|
  {
    var cs := GenerateComments(selected, locations).value;
    forall c | c in cs ensures exists h :: h in selected && c.methodName == h.name && c.timesIncreased == |h.sizes| {
      var i :| 0 <= i < |cs| && cs[i] == c;
      assert selected[i] in selected;
    }
  }

  /**
   * The report comments on exactly the methods whose size history exceeds the threshold,
   * and fails exactly when one of them has no known location.
   */
  lemma CommentsExactlyOverThreshold(report: Report)
    ensures var hs := HistoriesOf(report);
      Comments(report).Success? <==> forall h :: h in hs && OverThreshold(h) ==> h.name in report.methodLocations
    ensures var hs := HistoriesOf(report);
      Comments(report).Success? ==> forall h :: h in hs && OverThreshold(h) ==>
        exists c :: c in Comments(report).value && c.methodName == h.name && c.timesIncreased == |h.sizes| &&
                    c.location == report.methodLocations[h.name]
    ensures var hs := HistoriesOf(report);
      Comments(report).Success? ==> forall c :: c in Comments(report).value ==>
        exists h :: h in hs && OverThreshold(h) && c.methodName == h.name && c.timesIncreased == |h.sizes|
  {
    var selected := MethodsOverThreshold(HistoriesOf(report));
    assert Comments(report) == GenerateComments(selected, report.methodLocations);
    if Comments(report).Success? {
      GeneratedCoverSelected(selected, report.methodLocations);
      GeneratedOnlySelected(selected, report.methodLocations);
    }
  }
}
