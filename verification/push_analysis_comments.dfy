/**
 * The job that publishes a pull analysis's comments to GitHub at most once.
 *
 * A comment is held back when another analysis of the same project and pull already
 * has a comment with the same (report, index) key. The rest are added to a comment
 * generator, pushed in one go, and the analysis is flagged `pushed_to_github`, so that
 * a later run of the job for the same analysis does nothing.
 *
 * The database table of pull analyses, the GitHub pull request that receives the
 * comments and the job's own `destroyed` flag are the state here.
 */
module PushAnalysisComments {
  import opened Wrappers
  import Seqs

  /** A stored analysis comment; only these four fields are read by the job. */
  datatype Comment = Comment(report: string, index: string, message: string, location: string)

  /** The two fields that identify a comment across analyses of a pull. */
  datatype Key = Key(report: string, index: string)

  function KeyOf(c: Comment): Key {
    Key(c.report, c.index)
  }

  datatype PullAnalysis = PullAnalysis(id: nat, project: nat, pull: nat, comments: seq<Comment>, pushedToGithub: bool)

  /** What the comment generator sends to GitHub for one comment. */
  datatype Note = Note(message: string, location: string)

  /** Each table row is stored under its own id. */
  ghost predicate KeyedById(rows: map<nat, PullAnalysis>) {
    forall k :: k in rows ==> rows[k].id == k
  }

  /** `existing_analyses`: the other analyses of the same project and pull. */
  function ExistingAnalyses(rows: map<nat, PullAnalysis>, current: PullAnalysis): (r: set<PullAnalysis>)
    ensures forall a :: a in r <==>
      a in rows.Values && a.project == current.project && a.pull == current.pull && a.id != current.id
  {
    set a | a in rows.Values && a.project == current.project && a.pull == current.pull && a.id != current.id
  }

  /** `existing_comments`: the keys of every comment of the given analyses. */
  function ExistingComments(analyses: set<PullAnalysis>): (r: set<Key>)
    ensures forall k :: k in r <==> exists a, c :: a in analyses && c in a.comments && KeyOf(c) == k
  {
    set a, c | a in analyses && c in a.comments :: KeyOf(c)
  }

  function NotExisting(existing: set<Key>): Comment -> bool {
    (c: Comment) => KeyOf(c) !in existing
  }

  /** `pending_comments`: the comments whose key is not among the existing ones, in order. */
  function PendingComments(comments: seq<Comment>, existing: set<Key>): (r: seq<Comment>)
    ensures forall c :: c in r <==> c in comments && KeyOf(c) !in existing
    ensures Seqs.IsSublist(r, comments)
  {
    Seqs.Filter(comments, NotExisting(existing))
  }

  function PendingFor(rows: map<nat, PullAnalysis>, current: PullAnalysis): seq<Comment> {
    PendingComments(current.comments, ExistingComments(ExistingAnalyses(rows, current)))
  }

  /** Some other analysis of the same project and pull has a comment with the key of `c`. */
  ghost predicate SeenElsewhere(rows: map<nat, PullAnalysis>, current: PullAnalysis, c: Comment) {
    exists a, d :: a in rows.Values && a.project == current.project && a.pull == current.pull &&
      a.id != current.id && d in a.comments && d.report == c.report && d.index == c.index
  }

  /**
   * A comment of the analysis is pending exactly when no other analysis of the same
   * project and pull has a comment with the same report and the same index; a match on
   * the report alone or on the index alone does not hold it back.
   */
  lemma PendingIffNotSeenElsewhere(rows: map<nat, PullAnalysis>, current: PullAnalysis, c: Comment)
    ensures c in PendingFor(rows, current) <==> c in current.comments && !SeenElsewhere(rows, current, c)
  {
    var others := ExistingAnalyses(rows, current);
    if SeenElsewhere(rows, current, c) {
      var a, d :| a in rows.Values && a.project == current.project && a.pull == current.pull &&
        a.id != current.id && d in a.comments && d.report == c.report && d.index == c.index;
      assert a in others && KeyOf(d) == KeyOf(c);
    }
  }

  /** With no other analysis of the same pull, every comment of the analysis is pending. */
  lemma NothingElsewhereAllPending(rows: map<nat, PullAnalysis>, current: PullAnalysis)
    requires forall a :: a in rows.Values && a.project == current.project && a.pull == current.pull ==> a.id == current.id
    ensures PendingFor(rows, current) == current.comments
  {
    assert ExistingAnalyses(rows, current) == {};
    assert ExistingComments({}) == {};
    Seqs.FilterAll(current.comments, NotExisting({}));
  }

  /**
   * The analysis's own row never holds its comments back: replacing it in the table, or
   * removing it, leaves its pending comments as they were.
   */
  lemma OwnRowIrrelevant(rows: map<nat, PullAnalysis>, current: PullAnalysis, updated: PullAnalysis)
    requires KeyedById(rows) && updated.id == current.id
    ensures PendingFor(rows[current.id := updated], current) == PendingFor(rows - {current.id}, current)
  {
    var withRow := rows[current.id := updated];
    var without := rows - {current.id};
    forall a ensures a in ExistingAnalyses(withRow, current) <==> a in ExistingAnalyses(without, current) {
      if a in withRow.Values && a.id != current.id {
        var k :| k in withRow && withRow[k] == a;
        assert k != current.id;
        assert without[k] == a;
      }
      if a in without.Values {
        var k :| k in without && without[k] == a;
        assert withRow[k] == a;
      }
    }
    assert ExistingAnalyses(withRow, current) == ExistingAnalyses(without, current);
  }

  function NotesOf(comments: seq<Comment>): (r: seq<Note>)
    ensures |r| == |comments|
    ensures forall i :: 0 <= i < |r| ==> r[i] == Note(comments[i].message, comments[i].location)
  {
    if comments == [] then [] else [Note(comments[0].message, comments[0].location)] + NotesOf(comments[1..])
  }

  datatype RunResult = NotFound | AlreadyPushed | Pushed

  /** Everything the job reads and writes: the table, the pull request on GitHub, and its own flag. */
  datatype JobState = JobState(rows: map<nat, PullAnalysis>, posted: seq<Note>, pushes: nat, destroyed: bool)

  datatype Transition = Transition(state: JobState, result: RunResult)

  /**
   * One run of the job for analysis `id`: a missing analysis raises and changes nothing;
   * an analysis already pushed only destroys the job; otherwise the pending comments are
   * posted in order with one push, the analysis is flagged and the job destroyed.
   */
  function Step(s: JobState, id: nat): Transition {
    if id !in s.rows then Transition(s, NotFound)
    else
      var a := s.rows[id];
      if a.pushedToGithub then Transition(s.(destroyed := true), AlreadyPushed)
      else
        Transition(JobState(s.rows[id := a.(pushedToGithub := true)],
                            s.posted + NotesOf(PendingFor(s.rows, a)),
                            s.pushes + 1,
                            true),
                   Pushed)
  }

  /**
   * A run changes nothing in the table but the analysis's own flag, which only a push
   * sets; the analysis keeps its comments, project and pull. It posts only notes of the
   * analysis's comments that no other analysis of the pull has, pushes at most once, and
   * leaves the table keyed by id.
   */
  lemma StepFrame(s: JobState, id: nat)
    requires KeyedById(s.rows)
    ensures var t := Step(s, id);
      && KeyedById(t.state.rows)
      && t.state.rows.Keys == s.rows.Keys
      && (forall k :: k in s.rows && k != id ==> t.state.rows[k] == s.rows[k])
      && (t.result == Pushed <==> id in s.rows && !s.rows[id].pushedToGithub)
      && (t.result != Pushed ==> t.state.rows == s.rows && t.state.posted == s.posted && t.state.pushes == s.pushes)
      && (t.result == Pushed ==>
            && t.state.pushes == s.pushes + 1
            && t.state.rows[id] == s.rows[id].(pushedToGithub := true)
            && t.state.posted[..|s.posted|] == s.posted
            && forall n :: n in t.state.posted[|s.posted|..] ==>
                 exists c :: c in s.rows[id].comments && !SeenElsewhere(s.rows, s.rows[id], c) &&
                   n == Note(c.message, c.location))
  {
    var t := Step(s, id);
    if t.result == Pushed {
      var a := s.rows[id];
      var pending := PendingFor(s.rows, a);
      assert t.state.posted[|s.posted|..] == NotesOf(pending);
      forall n | n in t.state.posted[|s.posted|..]
        ensures exists c :: c in a.comments && !SeenElsewhere(s.rows, a, c) && n == Note(c.message, c.location)
      {
        var i :| 0 <= i < |pending| && NotesOf(pending)[i] == n;
        PendingIffNotSeenElsewhere(s.rows, a, pending[i]);
      }
    }
  }

  /**
   * Running the job again for the same analysis does nothing: after a run that found
   * the analysis, a second run reports it already pushed and leaves the state as it is.
   */
  lemma {:induction false} StepIdempotent(s: JobState, id: nat)
    ensures var t := Step(s, id);
      t.result != NotFound ==> Step(t.state, id) == Transition(t.state, AlreadyPushed)
    ensures var t := Step(s, id);
      t.result == NotFound ==> Step(t.state, id) == t
  {
    var t := Step(s, id);
    if t.result != NotFound {
      assert t.state.rows[id].pushedToGithub;
      assert t.state.destroyed;
      assert t.state.(destroyed := true) == t.state;
    }
  }

  /**
   * Two analyses of the same pull that share a comment key each hold that comment back
   * while the other exists, whichever runs first: neither posts it.
   */
  lemma SharedKeyHeldBackByBoth(s: JobState, id1: nat, id2: nat, c1: Comment, c2: Comment)
    requires KeyedById(s.rows)
    requires id1 in s.rows && id2 in s.rows && id1 != id2
    requires s.rows[id1].project == s.rows[id2].project && s.rows[id1].pull == s.rows[id2].pull
    requires c1 in s.rows[id1].comments && c2 in s.rows[id2].comments && KeyOf(c1) == KeyOf(c2)
    ensures c1 !in PendingFor(s.rows, s.rows[id1])
    ensures var after := Step(s, id1).state;
      id2 in after.rows && c2 !in PendingFor(after.rows, after.rows[id2])
  {
    var a1 := s.rows[id1];
    var a2 := s.rows[id2];
    assert a2 in s.rows.Values;
    PendingIffNotSeenElsewhere(s.rows, a1, c1);
    var after := Step(s, id1).state;
    StepFrame(s, id1);
    var b1 := after.rows[id1];
    assert b1 in after.rows.Values && b1.comments == a1.comments;
    assert after.rows[id2] == a2;
    PendingIffNotSeenElsewhere(after.rows, a2, c2);
  }

  // ---------------------------------------------------------------- state

  /** The `pull_analyses` table. */
  class AnalysisTable {
    var rows: map<nat, PullAnalysis>

    ghost predicate Valid()
      reads this
    {
      KeyedById(rows)
    }

    constructor(rows: map<nat, PullAnalysis>)
      requires KeyedById(rows)
      ensures this.rows == rows && Valid()
    {
      this.rows := rows;
    }

    /** `PullAnalysis.find`, which raises when there is no such row. */
    function Find(id: nat): (r: Option<PullAnalysis>)
      reads this
      ensures r.Some? <==> id in rows
      ensures r.Some? ==> r.value == rows[id]
    {
      if id in rows then Some(rows[id]) else None
    }

    /** Flag the row as pushed to GitHub, leaving every other field and row alone. */
    method MarkPushed(id: nat)
      requires Valid() && id in rows
      modifies this
      ensures rows == old(rows)[id := old(rows)[id].(pushedToGithub := true)]
      ensures Valid()
    {
      rows := rows[id := rows[id].(pushedToGithub := true)];
    }
  }

  /** The pull request on GitHub: the notes posted to it and the number of pushes. */
  class GithubPull {
    var posted: seq<Note>
    var pushes: nat

    constructor()
      ensures posted == [] && pushes == 0
    {
      posted := [];
      pushes := 0;
    }
  }

  /** `Github::CommentGenerator`: collects comments, then posts them all with one push. */
  class CommentGenerator {
    const pull: GithubPull
    var added: seq<Note>

    constructor(pull: GithubPull)
      ensures this.pull == pull && added == []
    {
      this.pull := pull;
      added := [];
    }

    method AddComment(message: string, location: string)
      modifies this
      ensures added == old(added) + [Note(message, location)]
    {
      added := added + [Note(message, location)];
    }

    method Push()
      modifies pull
      ensures pull.posted == old(pull.posted) + added
      ensures pull.pushes == old(pull.pushes) + 1
    {
      pull.posted := pull.posted + added;
      pull.pushes := pull.pushes + 1;
    }
  }

  class PushAnalysisCommentsJob {
    var destroyed: bool

    constructor()
      ensures !destroyed
    {
      destroyed := false;
    }

    /** `push_comments_to_github`: add every pending comment in order, then push once. */
    static method PushCommentsToGithub(generator: CommentGenerator, pending: seq<Comment>)
      requires generator.added == []
      modifies generator, generator.pull
      ensures generator.pull.posted == old(generator.pull.posted) + NotesOf(pending)
      ensures generator.pull.pushes == old(generator.pull.pushes) + 1
    {
      var i := 0;
      while i < |pending|
        invariant 0 <= i <= |pending|
        invariant generator.added == NotesOf(pending[..i])
        invariant generator.pull.posted == old(generator.pull.posted)
        invariant generator.pull.pushes == old(generator.pull.pushes)
      {
        generator.AddComment(pending[i].message, pending[i].location);
        assert pending[..i + 1] == pending[..i] + [pending[i]];
        NotesOfSnoc(pending[..i], pending[i]);
        i := i + 1;
      }
      assert pending[..i] == pending;
      generator.Push();
    }

    /** `run`: the job for one pull analysis, as `Step` describes it. */
    method Run(table: AnalysisTable, id: nat, github: GithubPull) returns (r: RunResult)
      requires table.Valid()
      modifies this, table, github
      ensures table.Valid()
      ensures var t := Step(JobState(old(table.rows), old(github.posted), old(github.pushes), old(destroyed)), id);
        && r == t.result
        && table.rows == t.state.rows
        && github.posted == t.state.posted
        && github.pushes == t.state.pushes
        && destroyed == t.state.destroyed
    {
      var found := table.Find(id);
      if found.None? {
        return NotFound;
      }
      var analysis := found.value;
      var generator := new CommentGenerator(github);
      if analysis.pushedToGithub {
        destroyed := true;
        return AlreadyPushed;
      }
      var pending := PendingFor(table.rows, analysis);
      PushCommentsToGithub(generator, pending);
      table.MarkPushed(id);
      destroyed := true;
      r := Pushed;
    }
  }

  lemma NotesOfSnoc(cs: seq<Comment>, c: Comment)
    ensures NotesOf(cs + [c]) == NotesOf(cs) + [Note(c.message, c.location)]
  {
  }

  /** Running the job twice for one analysis posts what the first run posts, and nothing more. */
  method RunTwice(table: AnalysisTable, id: nat, github: GithubPull) returns (first: RunResult, second: RunResult)
    requires table.Valid()
    modifies table, github
    ensures first != NotFound ==> second == AlreadyPushed
    ensures var t := Step(JobState(old(table.rows), old(github.posted), old(github.pushes), false), id);
      table.rows == t.state.rows && github.posted == t.state.posted && github.pushes == t.state.pushes
  {
    var job1 := new PushAnalysisCommentsJob();
    first := job1.Run(table, id, github);
    var job2 := new PushAnalysisCommentsJob();
    second := job2.Run(table, id, github);
    StepIdempotent(JobState(old(table.rows), old(github.posted), old(github.pushes), false), id);
  }
}
