/**
 * The changeset store of the change-patterns analysis: walk the history from a head
 * commit, turn every non-merge commit into an entry {oid, changeset, timestamp}, merge
 * the new entries with the cached ones, order them newest first, drop the leading
 * entries newer than the head commit and store the result back in the cache.
 *
 * The repository is a value: commits by oid and the last commit. The commit walker is
 * an input, the sequence of commits it yields for "start at head, hide every cached
 * oid, sort by date".
 */
module ChangesetGenerator {
  import opened Wrappers
  import Seqs
  import Sorting

  type Oid = string
  type Path = string

  /** One delta of a commit's diff against its first parent. */
  datatype Delta = Delta(oldFile: Path, newFile: Path)

  datatype Commit = Commit(oid: Oid, parentCount: nat, firstParentDiff: seq<Delta>, authorTime: int)

  datatype Repo = Repo(commits: map<Oid, Commit>, lastCommit: Option<Oid>)

  /** A cache entry: the paths one commit changed and when it was authored. */
  datatype Entry = Entry(oid: Oid, changeset: seq<Path>, timestamp: int)

  datatype GeneratorError = NoLastCommit | UnknownCommit(oid: Oid)

  function CacheKey(ghPath: string): string {
    ghPath + "/changesets"
  }

  /** The head the walk starts from: the given one, or else the repository's last commit. */
  function ResolveHead(repo: Repo, head: Option<Oid>): (r: Result<Oid, GeneratorError>)
    ensures r.Success? <==> (head.Some? || repo.lastCommit.Some?) && head.GetOr(repo.lastCommit.GetOr("")) in repo.commits
    ensures r.Success? ==> r.value in repo.commits && (head.Some? ==> r.value == head.value)
    ensures head.None? && repo.lastCommit.Some? && r.Success? ==> r.value == repo.lastCommit.value
  {
    if head.None? && repo.lastCommit.None? then Failure(NoLastCommit)
    else
      var oid := if head.Some? then head.value else repo.lastCommit.value;
      if oid in repo.commits then Success(oid) else Failure(UnknownCommit(oid))
  }

  predicate IsNonMerge(c: Commit) {
    c.parentCount == 1
  }

  /** The new-file path of every delta of the diff against the first parent. */
  function CommitDiff(c: Commit): (paths: seq<Path>)
    ensures |paths| == |c.firstParentDiff|
    ensures forall i :: 0 <= i < |paths| ==> paths[i] == c.firstParentDiff[i].newFile
    decreases |c.firstParentDiff|
  {
    if c.firstParentDiff == [] then []
    else [c.firstParentDiff[0].newFile] + CommitDiff(c.(firstParentDiff := c.firstParentDiff[1..]))
  }

  function EntryOf(c: Commit): Entry {
    Entry(c.oid, CommitDiff(c), c.authorTime)
  }

  /** The entries the walk produces: one per non-merge commit, in walk order. */
  function CommitChangesets(walk: seq<Commit>): (r: seq<Entry>)
    ensures |r| <= |walk|
    ensures forall e :: e in r <==> exists c :: c in walk && IsNonMerge(c) && e == EntryOf(c)
  {
    if walk == [] then []
    else
      var rest := CommitChangesets(walk[1..]);
      assert forall c :: c in walk <==> c == walk[0] || c in walk[1..];
      if IsNonMerge(walk[0]) then [EntryOf(walk[0])] + rest else rest
  }

  /** Extending the walk by one commit extends the entries by at most that commit's entry. */
  lemma {:induction false} CommitChangesetsSnoc(walk: seq<Commit>, c: Commit)
    ensures CommitChangesets(walk + [c]) ==
            CommitChangesets(walk) + (if IsNonMerge(c) then [EntryOf(c)] else [])
  {
    if walk == [] {
      assert walk + [c] == [c];
    } else {
      assert (walk + [c])[1..] == walk[1..] + [c];
      CommitChangesetsSnoc(walk[1..], c);
    }
  }

  /** `generate_commit_changesets`: the accumulating loop over the walker. */
  method GenerateCommitChangesets(walk: seq<Commit>) returns (entries: seq<Entry>)
    ensures entries == CommitChangesets(walk)
  {
    entries := [];
    var i := 0;
    while i < |walk|
      invariant 0 <= i <= |walk|
      invariant entries == CommitChangesets(walk[..i])
    {
      var c := walk[i];
      assert walk[..i + 1] == walk[..i] + [c];
      CommitChangesetsSnoc(walk[..i], c);
      if c.parentCount == 1 {
        entries := entries + [Entry(c.oid, CommitDiff(c), c.authorTime)];
      }
      i := i + 1;
    }
    assert walk[..|walk|] == walk;
  }

  predicate HasChanges(e: Entry) {
    e.changeset != []
  }

  /** The walk's entries with empty changesets rejected. */
  function NewEntries(walk: seq<Commit>): (r: seq<Entry>)
    ensures forall e :: e in r <==> e.changeset != [] && exists c :: c in walk && IsNonMerge(c) && e == EntryOf(c)
  {
    Seqs.Filter(CommitChangesets(walk), HasChanges)
  }

  /** `commits_in_cache`: the oids the walker is told to hide. */
  function CommitsInCache(cache: seq<Entry>): (oids: seq<Oid>)
    ensures |oids| == |cache|
    ensures forall i :: 0 <= i < |oids| ==> oids[i] == cache[i].oid
    ensures forall e :: e in cache ==> e.oid in oids
  {
    if cache == [] then [] else [cache[0].oid] + CommitsInCache(cache[1..])
  }

  /** The walker honours `hide`: it yields no commit whose oid was hidden. */
  ghost predicate HonoursHide(walk: seq<Commit>, hidden: seq<Oid>) {
    forall c :: c in walk ==> c.oid !in hidden
  }

  /** A walk that honours `hide` never repeats a cached commit. */
  lemma NewEntriesAvoidCache(cache: seq<Entry>, walk: seq<Commit>)
    requires HonoursHide(walk, CommitsInCache(cache))
    ensures forall e, f :: e in NewEntries(walk) && f in cache ==> e.oid != f.oid
  {
    forall e, f | e in NewEntries(walk) && f in cache ensures e.oid != f.oid {
      var c :| c in walk && IsNonMerge(c) && e == EntryOf(c);
    }
  }

  function Timestamp(e: Entry): int {
    e.timestamp
  }

  ghost predicate NewestFirst(s: seq<Entry>) {
    Sorting.SortedDesc(s, Timestamp)
  }

  /** Remove the leading entries authored after `cutoff`; the first one not newer stops it. */
  function DropTooNew(s: seq<Entry>, cutoff: int): (r: seq<Entry>)
    ensures |r| <= |s| && r == s[|s| - |r|..]
    ensures forall i :: 0 <= i < |s| - |r| ==> s[i].timestamp > cutoff
    ensures r != [] ==> r[0].timestamp <= cutoff
  {
    if s == [] || s[0].timestamp <= cutoff then s else DropTooNew(s[1..], cutoff)
  }

  function NotNewerThan(cutoff: int): Entry -> bool {
    (e: Entry) => e.timestamp <= cutoff
  }

  /** On a newest-first list, dropping the leading too-new run removes exactly the too-new entries. */
  lemma {:induction false} DropTooNewOnSorted(s: seq<Entry>, cutoff: int)
    requires NewestFirst(s)
    ensures DropTooNew(s, cutoff) == Seqs.Filter(s, NotNewerThan(cutoff))
  {
    if s != [] {
      if s[0].timestamp <= cutoff {
        forall e | e in s ensures NotNewerThan(cutoff)(e) {
          var k :| 0 <= k < |s| && s[k] == e;
        }
        Seqs.FilterAll(s, NotNewerThan(cutoff));
      } else {
        DropTooNewOnSorted(s[1..], cutoff);
      }
    }
  }

  /** The merged cache: sorted newest first, then cut at the head commit's author time. */
  function Merge(combined: seq<Entry>, cutoff: int): seq<Entry> {
    DropTooNew(Sorting.SortDesc(combined, Timestamp), cutoff)
  }

  lemma SuffixNewestFirst(s: seq<Entry>, n: nat)
    requires NewestFirst(s) && n <= |s|
    ensures NewestFirst(s[n..])
  {
    forall i, j | 0 <= i < j < |s[n..]| ensures Timestamp(s[n..][i]) >= Timestamp(s[n..][j]) {
      assert s[n..][i] == s[n + i] && s[n..][j] == s[n + j];
    }
  }

  lemma HeadBoundsNewestFirst(r: seq<Entry>, cutoff: int)
    requires NewestFirst(r) && (r != [] ==> r[0].timestamp <= cutoff)
    ensures forall e :: e in r ==> e.timestamp <= cutoff
  {
    forall e | e in r ensures e.timestamp <= cutoff {
      var k :| 0 <= k < |r| && r[k] == e;
      assert k == 0 || Timestamp(r[0]) >= Timestamp(r[k]);
    }
  }

  /** The merged list is newest first and holds nothing newer than the cutoff. */
  lemma MergeSortedAndBounded(combined: seq<Entry>, cutoff: int)
    ensures NewestFirst(Merge(combined, cutoff))
    ensures forall e :: e in Merge(combined, cutoff) ==> e.timestamp <= cutoff
  {
    var sorted := Sorting.SortDesc(combined, Timestamp);
    var r := Merge(combined, cutoff);
    SuffixNewestFirst(sorted, |sorted| - |r|);
    HeadBoundsNewestFirst(r, cutoff);
  }

  /**
   * The merged list keeps exactly the combined entries not newer than the cutoff, each
   * as often as it occurs: only the order of equal timestamps is left open.
   */
  lemma MergeKeepsNotNewer(combined: seq<Entry>, cutoff: int)
    ensures multiset(Merge(combined, cutoff)) == multiset(Seqs.Filter(combined, NotNewerThan(cutoff)))
  {
    var sorted := Sorting.SortDesc(combined, Timestamp);
    DropTooNewOnSorted(sorted, cutoff);
    Seqs.FilterPermutation(sorted, combined, NotNewerThan(cutoff));
  }

  /**
   * Walking again when the walk brings nothing new leaves the stored list unchanged, up
   * to the order of entries with equal timestamps.
   */
  lemma MergeIdempotent(combined: seq<Entry>, walk: seq<Commit>, cutoff: int)
    requires NewEntries(walk) == []
    ensures var stored := Merge(combined, cutoff);
      && multiset(Merge(stored + NewEntries(walk), cutoff)) == multiset(stored)
      && NewestFirst(Merge(stored + NewEntries(walk), cutoff))
  {
    var stored := Merge(combined, cutoff);
    assert stored + NewEntries(walk) == stored;
    MergeSortedAndBounded(combined, cutoff);
    MergeSortedAndBounded(stored, cutoff);
    MergeKeepsNotNewer(stored, cutoff);
    Seqs.FilterAll(stored, NotNewerThan(cutoff));
  }

  function OidOf(e: Entry): Oid {
    e.oid
  }

  /** The walker yields each commit at most once. */
  ghost predicate DistinctCommits(walk: seq<Commit>) {
    forall i, j :: 0 <= i < j < |walk| ==> walk[i].oid != walk[j].oid
  }

  lemma ConsKeepsOidsDistinct(e: Entry, rest: seq<Entry>)
    requires Sorting.DistinctBy(rest, OidOf)
    requires forall f :: f in rest ==> f.oid != e.oid
    ensures Sorting.DistinctBy([e] + rest, OidOf)
  {
    var r := [e] + rest;
    forall i, j | 0 <= i < j < |r| ensures OidOf(r[i]) != OidOf(r[j]) {
      assert r[j] == rest[j - 1] && rest[j - 1] in rest;
      if i > 0 {
        assert r[i] == rest[i - 1];
      }
    }
  }

  /** A walk that yields each commit once produces at most one entry per oid. */
  lemma {:induction false} CommitChangesetsDistinct(walk: seq<Commit>)
    requires DistinctCommits(walk)
    ensures Sorting.DistinctBy(CommitChangesets(walk), OidOf)
  {
    if walk != [] {
      var tail := walk[1..];
      forall i, j | 0 <= i < j < |tail| ensures tail[i].oid != tail[j].oid {
        assert tail[i] == walk[i + 1] && tail[j] == walk[j + 1];
      }
      CommitChangesetsDistinct(tail);
      var rest := CommitChangesets(tail);
      if IsNonMerge(walk[0]) {
        forall f | f in rest ensures f.oid != walk[0].oid {
          var c :| c in tail && IsNonMerge(c) && f == EntryOf(c);
          var k :| 0 <= k < |tail| && tail[k] == c;
          assert c == walk[k + 1];
        }
        ConsKeepsOidsDistinct(EntryOf(walk[0]), rest);
      }
    }
  }

  lemma {:induction false} FilterKeepsOidsDistinct(s: seq<Entry>, p: Entry -> bool)
    requires Sorting.DistinctBy(s, OidOf)
    ensures Sorting.DistinctBy(Seqs.Filter(s, p), OidOf)
  {
    if s != [] {
      var tail := s[1..];
      forall i, j | 0 <= i < j < |tail| ensures OidOf(tail[i]) != OidOf(tail[j]) {
        assert tail[i] == s[i + 1] && tail[j] == s[j + 1];
      }
      FilterKeepsOidsDistinct(tail, p);
      if p(s[0]) {
        forall f | f in Seqs.Filter(tail, p) ensures f.oid != s[0].oid {
          var k :| 0 <= k < |tail| && tail[k] == f;
          assert f == s[k + 1];
        }
        ConsKeepsOidsDistinct(s[0], Seqs.Filter(tail, p));
      }
    }
  }

  lemma AppendKeepsOidsDistinct(a: seq<Entry>, b: seq<Entry>)
    requires Sorting.DistinctBy(a, OidOf) && Sorting.DistinctBy(b, OidOf)
    requires forall e, f :: e in b && f in a ==> e.oid != f.oid
    ensures Sorting.DistinctBy(a + b, OidOf)
  {
    var r := a + b;
    forall i, j | 0 <= i < j < |r| ensures OidOf(r[i]) != OidOf(r[j]) {
      if j < |a| {
        assert r[i] == a[i] && r[j] == a[j];
      } else if i < |a| {
        assert r[i] == a[i] && a[i] in a;
        assert r[j] == b[j - |a|] && b[j - |a|] in b;
      } else {
        assert r[i] == b[i - |a|] && r[j] == b[j - |a|];
      }
    }
  }

  lemma SuffixKeepsOidsDistinct(s: seq<Entry>, n: nat)
    requires Sorting.DistinctBy(s, OidOf) && n <= |s|
    ensures Sorting.DistinctBy(s[n..], OidOf)
  {
    forall i, j | 0 <= i < j < |s[n..]| ensures OidOf(s[n..][i]) != OidOf(s[n..][j]) {
      assert s[n..][i] == s[n + i] && s[n..][j] == s[n + j];
    }
  }

  /**
   * The stored list holds at most one entry per commit: when the cached list does, and
   * the walker yields each commit once and honours `hide`, the merge does too.
   */
  lemma MergeKeepsOidsDistinct(cache: seq<Entry>, walk: seq<Commit>, cutoff: int)
    requires Sorting.DistinctBy(cache, OidOf)
    requires DistinctCommits(walk) && HonoursHide(walk, CommitsInCache(cache))
    ensures Sorting.DistinctBy(Merge(cache + NewEntries(walk), cutoff), OidOf)
  {
    var added := NewEntries(walk);
    CommitChangesetsDistinct(walk);
    FilterKeepsOidsDistinct(CommitChangesets(walk), HasChanges);
    NewEntriesAvoidCache(cache, walk);
    AppendKeepsOidsDistinct(cache, added);
    var sorted := Sorting.SortDesc(cache + added, Timestamp);
    Sorting.SortKeepsDistinct(cache + added, Timestamp, OidOf);
    SuffixKeepsOidsDistinct(sorted, |sorted| - |Merge(cache + added, cutoff)|);
  }

  function ChangesetsOf(entries: seq<Entry>): (r: seq<seq<Path>>)
    ensures |r| == |entries|
    ensures forall i :: 0 <= i < |r| ==> r[i] == entries[i].changeset
  {
    if entries == [] then [] else [entries[0].changeset] + ChangesetsOf(entries[1..])
  }

  ghost predicate Mentions(entries: seq<Entry>, p: Path) {
    exists k :: 0 <= k < |entries| && p in entries[k].changeset
  }

  /** Copy the merged list into an array, intern its paths, and read the changesets back. */
  method InternedChangesets(merged: seq<Entry>) returns (r: seq<seq<Path>>)
    ensures r == ChangesetsOf(merged)
  {
    var a := new Entry[|merged|](i requires 0 <= i < |merged| => merged[i]);
    assert a[..] == merged;
    var _ := Immute(a);
    r := ChangesetsOf(a[..]);
  }

  /**
   * `immute`: replace each entry's changeset, in place, by the shared copy of every path
   * recorded in `allFiles`. Strings are values here, so sharing is invisible: the entries
   * are unchanged and `allFiles` maps every path mentioned to itself.
   */
  method Immute(a: array<Entry>) returns (allFiles: map<Path, Path>)
    modifies a
    ensures a[..] == old(a[..])
    ensures forall p :: p in allFiles <==> Mentions(a[..], p)
    ensures forall p :: p in allFiles ==> allFiles[p] == p
  {
    allFiles := map[];
    var i := 0;
    while i < a.Length
      invariant 0 <= i <= a.Length
      invariant a[..] == old(a[..])
      invariant forall p :: p in allFiles <==> Mentions(a[..i], p)
      invariant forall p :: p in allFiles ==> allFiles[p] == p
    {
      var items := a[i].changeset;
      var interned: seq<Path> := [];
      var j := 0;
      while j < |items|
        invariant 0 <= j <= |items|
        invariant interned == items[..j]
        invariant forall p :: p in allFiles <==> Mentions(a[..i], p) || p in items[..j]
        invariant forall p :: p in allFiles ==> allFiles[p] == p
      {
        var item := items[j];
        if item !in allFiles {
          allFiles := allFiles[item := item];
        }
        interned := interned + [allFiles[item]];
        assert items[..j + 1] == items[..j] + [item];
        j := j + 1;
      }
      assert items[..|items|] == items;
      a[i] := a[i].(changeset := interned);
      forall p ensures Mentions(a[..i + 1], p) <==> Mentions(a[..i], p) || p in items {
        if p in items {
          assert p in a[..i + 1][i].changeset;
        }
        if Mentions(a[..i + 1], p) {
          var k :| 0 <= k < i + 1 && p in a[..i + 1][k].changeset;
          if k < i {
            assert p in a[..i][k].changeset;
          }
        }
        if Mentions(a[..i], p) {
          var k :| 0 <= k < i && p in a[..i][k].changeset;
          assert p in a[..i + 1][k].changeset;
        }
      }
      i := i + 1;
    }
    assert a[..a.Length] == a[..];
  }

  /** The external key-value cache, holding changeset lists by key. */
  class Cache {
    var store: map<string, seq<Entry>>

    constructor(store: map<string, seq<Entry>>)
      ensures this.store == store
    {
      this.store := store;
    }

    function Get(key: string): (r: Option<seq<Entry>>)
      reads this
      ensures r.Some? <==> key in store
      ensures r.Some? ==> r.value == store[key]
    {
      if key in store then Some(store[key]) else None
    }

    method Store(key: string, value: seq<Entry>)
      modifies this
      ensures store == old(store)[key := value]
    {
      store := store[key := value];
    }
  }

  class ChangesetGenerator {
    const ghPath: string
    const head: Oid
    /** The head commit's author time: no stored entry may be newer. */
    const cutoff: int
    const cache: Cache
    /** The cached list, loaded once; the update appends the new entries to it. */
    var changesetCache: seq<Entry>
    /** `@changesets`, the memoised result. */
    var memo: Option<seq<seq<Path>>>

    /** A cache miss reads as an empty list. */
    constructor(ghPath: string, head: Oid, cutoff: int, cache: Cache)
      ensures this.ghPath == ghPath && this.head == head && this.cutoff == cutoff && this.cache == cache
      ensures changesetCache == cache.Get(CacheKey(ghPath)).GetOr([])
      ensures memo == None
    {
      this.ghPath := ghPath;
      this.head := head;
      this.cutoff := cutoff;
      this.cache := cache;
      changesetCache := cache.Get(CacheKey(ghPath)).GetOr([]);
      memo := None;
    }

    /** `initialize`: resolve the head and read its author time; an unknown head raises. */
    static method Create(repo: Repo, ghPath: string, head: Option<Oid>, cache: Cache)
      returns (r: Result<ChangesetGenerator, GeneratorError>)
      ensures r.Success? <==> ResolveHead(repo, head).Success?
      ensures r.Failure? ==> r.error == ResolveHead(repo, head).error
      ensures r.Success? ==>
        var g := r.value;
        var oid := ResolveHead(repo, head).value;
        fresh(g) && g.ghPath == ghPath && g.head == oid && g.cutoff == repo.commits[oid].authorTime &&
        g.cache == cache && g.changesetCache == cache.Get(CacheKey(ghPath)).GetOr([]) && g.memo == None
    {
      var resolved := ResolveHead(repo, head);
      if resolved.Failure? {
        return Failure(resolved.error);
      }
      var oid := resolved.value;
      var g := new ChangesetGenerator(ghPath, oid, repo.commits[oid].authorTime, cache);
      r := Success(g);
    }

    /** `fetch_and_update_cache`: walk, drop empty changesets, merge, cut, store. */
    method FetchAndUpdateCache(walk: seq<Commit>) returns (merged: seq<Entry>)
      modifies this`changesetCache, cache
      ensures changesetCache == old(changesetCache) + NewEntries(walk)
      ensures merged == Merge(changesetCache, cutoff)
      ensures cache.store == old(cache.store)[CacheKey(ghPath) := merged]
    {
      var generated := GenerateCommitChangesets(walk);
      var added := Seqs.Filter(generated, HasChanges);
      changesetCache := changesetCache + added;
      merged := DropTooNew(Sorting.SortDesc(changesetCache, Timestamp), cutoff);
      cache.Store(CacheKey(ghPath), merged);
    }

    /**
     * `changesets`: the paths of every stored entry, newest first. The first call walks
     * and updates the cache; later calls return the memoised list and touch nothing.
     */
    method Changesets(walk: seq<Commit>) returns (r: seq<seq<Path>>)
      modifies this, cache
      ensures old(memo).Some? ==>
        r == old(memo).value && unchanged(this) && cache.store == old(cache.store)
      ensures old(memo).None? ==>
        var merged := Merge(old(changesetCache) + NewEntries(walk), cutoff);
        && r == ChangesetsOf(merged)
        && memo == Some(r)
        && changesetCache == old(changesetCache) + NewEntries(walk)
        && cache.store == old(cache.store)[CacheKey(ghPath) := merged]
    {
      if memo.Some? {
        return memo.value;
      }
      var merged := FetchAndUpdateCache(walk);
      r := InternedChangesets(merged);
      memo := Some(r);
    }
  }
}
