# diggit analysis core in Dafny

diggit comments on GitHub pull requests with the findings of several analyses of the
repository's history. This project models four pieces of its own logic and proves what
they promise:

- **Changeset store** (`ChangesetGenerator`, `changeset_generator.dfy`). Walk the history
  from the head commit and turn every commit with exactly one parent into an entry
  `{oid, changeset, timestamp}`. Drop entries with empty changesets and append the rest
  to the cached list. Sort newest first, drop the leading entries newer than the head
  commit's author time, and store the result under `"<gh_path>/changesets"`. Then intern
  the path strings. The accumulating loop, the in-place interning over an array and the
  generator's cached list and memo are imperative. The merge is a pure function, with
  lemmas for sortedness, the cutoff bound, what survives the cutoff and idempotence.
- **Whitespace indentation analysis** (`WhitespaceAnalysis`, `whitespace_analysis.dfy`).
  Split a file into lines and take each line's leading run of spaces or of tabs, when a
  non-whitespace character follows it. The nominal indent is the most frequent non-empty
  run, `" "` by default. Each line's depth is the number of non-overlapping units in its
  run. Files under 10 lines, or with an invalid encoding, score zero without analysis.
- **Refactor-diligence report** (`RefactorDiligence`, `refactor_diligence.dfy`). Keep the
  changed files whose `File.extname` is `".rb"`. Collect the commits of their logs once
  per sha, newest first. Take method locations from a scan of the newest commit. Comment
  on every method whose size history has more than 2 entries.
- **Push-analysis-comments job** (`PushAnalysisComments`, `push_analysis_comments.dfy`).
  Hold back every comment whose `(report, index)` key already appears in another analysis
  of the same project and pull. Post the rest in order with one push, flag the analysis
  `pushed_to_github` and destroy the job. A second run does nothing. The job is a
  class over a table, a GitHub pull and a comment generator. Its `Run` is proved
  against the pure transition `Step`, whose properties are lemmas.

`wrappers.dfy` (Option, Result), `seqs.dfy` (an order-preserving filter) and
`sorting.dfy` (sort by a key, largest first) are shared by the four modules.

Git, the cache service, the database and GitHub are inputs or small state objects. A
commit walk is the sequence of commits the walker yields. The git log, the commit
scanner and the method size history are functions carried by the repository value.

A comment's `times_increased` is the number of entries in the method's size history
(`refactor_diligence/report.rb:30`), and the threshold is compared with that same number
(`report.rb:40`). It does not count the increases between entries, despite its name.
The model counts entries in the same way (`RefactorDiligence.MethodsOverThreshold`).

Two analyses of the same pull that share a comment key each hold that comment back
while the other exists, whichever job runs first. Existing analyses are not filtered by
`pushed_to_github`. `PushAnalysisComments.SharedKeyHeldBackByBoth` states this.

## Model

| member | source | states |
|---|---|---|
| ChangesetGenerator.ResolveHead | lib/diggit/analysis/change_patterns/changeset_generator.rb:19-20 | the head is the given oid, else the repository's last commit; resolving fails exactly when there is neither or the oid is not a known commit |
| ChangesetGenerator.ChangesetGenerator.Create | lib/diggit/analysis/change_patterns/changeset_generator.rb:16-24 | construction fails exactly when the head cannot be resolved; otherwise the cutoff is the head commit's author time and the cached list is the one stored under `<gh_path>/changesets`, empty on a miss |
| ChangesetGenerator.ChangesetGenerator.constructor | lib/diggit/analysis/change_patterns/changeset_generator.rb:23 | a cache miss reads as an empty list; nothing is memoised yet |
| ChangesetGenerator.Cache.Get | lib/diggit/analysis/change_patterns/changeset_generator.rb:23 | a lookup finds a value exactly when the key is stored, and then the stored value |
| ChangesetGenerator.Cache.Store | lib/diggit/analysis/change_patterns/changeset_generator.rb:67 | storing sets that one key and leaves every other key as it was |
| ChangesetGenerator.CommitDiff | lib/diggit/analysis/change_patterns/changeset_generator.rb:91-93 | one path per delta of the first-parent diff, its new-file path, in delta order |
| ChangesetGenerator.CommitChangesets | lib/diggit/analysis/change_patterns/changeset_generator.rb:79-89 | an entry is produced exactly for each walked commit with one parent, recording its oid, diff paths and author time; merge and root commits produce none |
| ChangesetGenerator.CommitChangesetsSnoc | lib/diggit/analysis/change_patterns/changeset_generator.rb:80-88 | one more walked commit appends its entry when it has one parent and nothing otherwise |
| ChangesetGenerator.GenerateCommitChangesets | lib/diggit/analysis/change_patterns/changeset_generator.rb:79-89 | the accumulating loop returns exactly the entries of the walk, in walk order |
| ChangesetGenerator.NewEntries | lib/diggit/analysis/change_patterns/changeset_generator.rb:58-59 | the new entries are exactly the one-parent commits' entries whose changeset is not empty |
| ChangesetGenerator.CommitsInCache | lib/diggit/analysis/change_patterns/changeset_generator.rb:95-97 | the oids of the cached entries, one per entry and in the same order, so every cached entry's oid is hidden |
| ChangesetGenerator.NewEntriesAvoidCache | lib/diggit/analysis/change_patterns/changeset_generator.rb:95-106 | when the walker honours `hide`, no new entry repeats the oid of a cached entry |
| ChangesetGenerator.MergeKeepsOidsDistinct | lib/diggit/analysis/change_patterns/changeset_generator.rb:56-69 | the stored list holds at most one entry per commit oid, provided the cached list did and the walker yields each commit once and honours `hide` |
| ChangesetGenerator.DropTooNew | lib/diggit/analysis/change_patterns/changeset_generator.rb:65 | the result is a suffix of the input; every dropped entry is newer than the cutoff and the first kept one is not |
| ChangesetGenerator.DropTooNewOnSorted | lib/diggit/analysis/change_patterns/changeset_generator.rb:63-65 | on a newest-first list, dropping the leading too-new run keeps exactly the entries not newer than the cutoff, in order |
| ChangesetGenerator.MergeSortedAndBounded | lib/diggit/analysis/change_patterns/changeset_generator.rb:63-65 | the merged list is ordered by timestamp, newest first, and no entry is newer than the head's author time |
| ChangesetGenerator.MergeKeepsNotNewer | lib/diggit/analysis/change_patterns/changeset_generator.rb:63-65 | the merged list is a permutation of the cached and new entries whose timestamp is at most the cutoff, so every such entry survives |
| ChangesetGenerator.MergeIdempotent | lib/diggit/analysis/change_patterns/changeset_generator.rb:56-69 | merging the stored list again with no new entries gives back the same entries, still newest first |
| ChangesetGenerator.Immute | lib/diggit/analysis/change_patterns/changeset_generator.rb:46-53 | interning in place leaves every entry and changeset equal in value; the table holds exactly the paths mentioned, each mapped to itself |
| ChangesetGenerator.ChangesetGenerator.FetchAndUpdateCache | lib/diggit/analysis/change_patterns/changeset_generator.rb:56-69 | the cached list grows by the new entries; the returned list is their merge, and exactly that list is stored under `<gh_path>/changesets` |
| ChangesetGenerator.InternedChangesets | lib/diggit/analysis/change_patterns/changeset_generator.rb:36 | interning the merged list in an array and mapping each entry to its changeset gives exactly the merged list's changesets, in order |
| ChangesetGenerator.ChangesetGenerator.Changesets | lib/diggit/analysis/change_patterns/changeset_generator.rb:34-38 | the first call returns the changesets of the merged list and stores that list; a later call returns the memoised value and changes nothing |
| Sorting.HeadIsLargest | lib/diggit/analysis/change_patterns/changeset_generator.rb:64 | in a list sorted largest first, the first element's key is at least every other key |
| Sorting.SortDesc | lib/diggit/analysis/change_patterns/changeset_generator.rb:64 | `sort_by` on a negated key: the result is ordered largest key first and is a permutation of the input |
| Sorting.SortKeepsDistinct | lib/diggit/analysis/refactor_diligence/report.rb:49-50 | sorting a list whose elements have distinct identities keeps them distinct |
| Seqs.Filter | lib/diggit/analysis/change_patterns/changeset_generator.rb:58-59 | `select`/`reject`: the kept elements are exactly those satisfying the predicate, in their original order |
| Seqs.FilterMultiplicity | lib/diggit/analysis/complexity/whitespace_analysis.rb:23 | filtering keeps each satisfying element as often as it occurs and drops the others |
| WhitespaceAnalysis.LinesRoundTrip | lib/diggit/analysis/complexity/whitespace_analysis.rb:43 | `String#lines` loses nothing: joining the lines gives back the contents |
| WhitespaceAnalysis.LinesShape | lib/diggit/analysis/complexity/whitespace_analysis.rb:43 | every line is non-empty, has no inner newline, and every line but the last ends with one |
| WhitespaceAnalysis.LineIndent | lib/diggit/analysis/complexity/whitespace_analysis.rb:44 | a matched indent is a prefix of the line, all spaces or all tabs, followed by a non-whitespace character |
| WhitespaceAnalysis.LineIndentIsUniformLeadingWhitespace | lib/diggit/analysis/complexity/whitespace_analysis.rb:44-45 | a line has an indent exactly when it has a non-whitespace character and its leading whitespace does not mix spaces and tabs; the indent is that whole leading whitespace, "" for a line starting with non-whitespace |
| WhitespaceAnalysis.IndentsOf | lib/diggit/analysis/complexity/whitespace_analysis.rb:43-45 | at most one indent per line, each all spaces or all tabs |
| WhitespaceAnalysis.IndentsComeFromTheirLines | lib/diggit/analysis/complexity/whitespace_analysis.rb:43-45 | the k-th indent is the indent of the line it is attributed to |
| WhitespaceAnalysis.IndentedLineNumbersIncrease | lib/diggit/analysis/complexity/whitespace_analysis.rb:43-45 | indents are listed in strictly increasing line order |
| WhitespaceAnalysis.IndentedLinesAllCounted | lib/diggit/analysis/complexity/whitespace_analysis.rb:43-45 | every line that has an indent contributes one |
| WhitespaceAnalysis.WhitespaceIndents | lib/diggit/analysis/complexity/whitespace_analysis.rb:42-46 | no more indents than lines, each all spaces or all tabs |
| WhitespaceAnalysis.Mode | lib/diggit/analysis/complexity/whitespace_analysis.rb:23 | the mode is absent exactly for an empty list, and is otherwise an element occurring at least as often as any other |
| WhitespaceAnalysis.NominalIndent | lib/diggit/analysis/complexity/whitespace_analysis.rb:21-24 | the nominal indent is non-empty and uniform; it is " " when no line has a non-empty indent, and otherwise a most frequent non-empty indent |
| WhitespaceAnalysis.ScanCountUniform | lib/diggit/analysis/complexity/whitespace_analysis.rb:38 | scanning a run of one character for a unit of that character counts length div unit length; a unit of the other character counts 0 |
| WhitespaceAnalysis.Units | lib/diggit/analysis/complexity/whitespace_analysis.rb:37-38 | one count per indent, the number of non-overlapping units scanned in it |
| WhitespaceAnalysis.LogicalIndents | lib/diggit/analysis/complexity/whitespace_analysis.rb:36-39 | one depth per indent: its length div the unit's length when made of the unit's character, else 0 (tabs under a space unit give 0) |
| WhitespaceAnalysis.UnindentedIsFlat | lib/diggit/analysis/complexity/whitespace_analysis.rb:15-16 | a file with no indented line has nominal indent " " and all depths 0 |
| WhitespaceAnalysis.UnindentedLinesHaveEmptyIndents | lib/diggit/analysis/complexity/whitespace_analysis.rb:44-45 | lines that are blank or start with non-whitespace yield only empty indents |
| WhitespaceAnalysis.Std | lib/diggit/analysis/complexity/whitespace_analysis.rb:8-19 | the score is the fixed zero exactly when the encoding is invalid or there are fewer than 10 lines; otherwise it is taken over the logical indents |
| RefactorDiligence.ExtensionIsRbIffSuffix | lib/diggit/analysis/refactor_diligence/report.rb:55 | the extension of a name is ".rb" exactly when the name ends in ".rb" |
| RefactorDiligence.RubyFileIffSuffix | lib/diggit/analysis/refactor_diligence/report.rb:55 | `File.extname(path) == '.rb'` exactly when the last path component, past its leading dots, ends in ".rb" |
| RefactorDiligence.RubyFilesChanged | lib/diggit/analysis/refactor_diligence/report.rb:53-56 | the considered files are exactly the changed files with extension ".rb", in their original order |
| RefactorDiligence.AllLogs | lib/diggit/analysis/refactor_diligence/report.rb:46-48 | the flattened logs hold exactly the commits of some considered file's log |
| RefactorDiligence.UniqBySha | lib/diggit/analysis/refactor_diligence/report.rb:49 | `uniq` keeps only commits of the input whose sha was not seen before |
| RefactorDiligence.UniqByShaKeeps | lib/diggit/analysis/refactor_diligence/report.rb:49 | the sha of every input commit not seen before survives `uniq` |
| RefactorDiligence.UniqByShaKeepsFirst | lib/diggit/analysis/refactor_diligence/report.rb:49 | of the commits sharing a sha, the first one in log order is kept |
| RefactorDiligence.UniqByShaKeptIsFirst | lib/diggit/analysis/refactor_diligence/report.rb:49 | every kept commit is the first commit of its sha in the input |
| RefactorDiligence.UniqByShaDistinct | lib/diggit/analysis/refactor_diligence/report.rb:49 | after `uniq` no two commits share a sha |
| RefactorDiligence.CommitsOfInterest | lib/diggit/analysis/refactor_diligence/report.rb:45-51 | the commits of interest are ordered newest first and hold each sha once |
| RefactorDiligence.CommitsOfInterestAreUnique | lib/diggit/analysis/refactor_diligence/report.rb:49-50 | sorting keeps exactly the commits that `uniq` left |
| RefactorDiligence.CommitsOfInterestFromLogs | lib/diggit/analysis/refactor_diligence/report.rb:45-51 | every commit of interest comes from the log of a considered file |
| RefactorDiligence.LogCommitOfInterest | lib/diggit/analysis/refactor_diligence/report.rb:45-51 | any commit of a considered file's log is represented among the commits of interest by its sha |
| RefactorDiligence.ScannedCommitIsNewest | lib/diggit/analysis/refactor_diligence/report.rb:14-15 | the scanned commit is absent only when there are no commits of interest, and is otherwise one with the latest date |
| RefactorDiligence.MethodLocations | lib/diggit/analysis/refactor_diligence/report.rb:16 | locations exist exactly when every scanned method has a `:loc`, and then map each scanned method to it; otherwise the lookup raises |
| RefactorDiligence.NewReport | lib/diggit/analysis/refactor_diligence/report.rb:11-17 | building a report succeeds exactly when every method found by scanning the newest commit of interest has a location, and then records those locations |
| RefactorDiligence.MethodsOverThreshold | lib/diggit/analysis/refactor_diligence/report.rb:37-41 | a history is selected exactly when it has more than 2 entries; order is kept |
| RefactorDiligence.NatToStringRoundTrip | lib/diggit/analysis/refactor_diligence/report.rb:33 | the decimal text of the count reads back as the count |
| RefactorDiligence.MessageEmbedsCount | lib/diggit/analysis/refactor_diligence/report.rb:32-33 | a message starts with the method name and the fixed phrase, then digits that read back as the history size; the rest is " times it has been modified - " and the history as a bracketed list |
| RefactorDiligence.FirstMissing | lib/diggit/analysis/refactor_diligence/report.rb:31 | finds the first selected method without a location, or reports that all have one |
| RefactorDiligence.GenerateComments | lib/diggit/analysis/refactor_diligence/report.rb:27-35 | generation succeeds exactly when every selected method has a location, yielding one comment per method in order with its name, history size, location and message; otherwise it fails on the first method without one |
| RefactorDiligence.Comments | lib/diggit/analysis/refactor_diligence/report.rb:19-21 | every comment reports more than 2 increases |
| RefactorDiligence.CommentsExactlyOverThreshold | lib/diggit/analysis/refactor_diligence/report.rb:27-41 | the report comments on exactly the methods whose history exceeds the threshold, at their scanned location, and fails exactly when one of them has no location |
| PushAnalysisComments.ExistingAnalyses | lib/diggit/jobs/push_analysis_comments.rb:56-60 | the existing analyses are exactly the other rows of the same project and pull, excluding the current id |
| PushAnalysisComments.ExistingComments | lib/diggit/jobs/push_analysis_comments.rb:50-54 | the existing keys are exactly the `(report, index)` pairs of the existing analyses' comments |
| PushAnalysisComments.PendingComments | lib/diggit/jobs/push_analysis_comments.rb:44-48 | the pending comments are the order-preserving sublist of comments whose key is not existing |
| PushAnalysisComments.PendingIffNotSeenElsewhere | lib/diggit/jobs/push_analysis_comments.rb:44-60 | a comment is pending exactly when no other analysis of the same project and pull has a comment with the same report and the same index; matching on one of the two does not hold it back |
| PushAnalysisComments.NothingElsewhereAllPending | lib/diggit/jobs/push_analysis_comments.rb:56-60 | with no other analysis of the pull, every comment is pending |
| PushAnalysisComments.OwnRowIrrelevant | lib/diggit/jobs/push_analysis_comments.rb:59 | the analysis's own row never holds back its comments: replacing or removing it changes nothing pending |
| PushAnalysisComments.StepFrame | lib/diggit/jobs/push_analysis_comments.rb:14-29 | a run changes no table row except the analysis's own flag, which it sets only on a push; the analysis keeps its comments, project and pull. It pushes exactly when the analysis exists and was not pushed, and then posts only notes of its comments that no other analysis of the pull has, after the earlier posts |
| PushAnalysisComments.StepIdempotent | lib/diggit/jobs/push_analysis_comments.rb:19-27 | after a run that found the analysis, a second run reports it already pushed and changes nothing |
| PushAnalysisComments.SharedKeyHeldBackByBoth | lib/diggit/jobs/push_analysis_comments.rb:44-60 | two analyses of one pull sharing a key each hold that comment back, before and after the other's run |
| PushAnalysisComments.AnalysisTable.Find | lib/diggit/jobs/push_analysis_comments.rb:15 | a lookup finds the row exactly when the id is in the table |
| PushAnalysisComments.AnalysisTable.MarkPushed | lib/diggit/jobs/push_analysis_comments.rb:26 | only the row's `pushed_to_github` flag changes, to true |
| PushAnalysisComments.CommentGenerator.AddComment | lib/diggit/jobs/push_analysis_comments.rb:38 | a comment's message and location are appended to the generator |
| PushAnalysisComments.CommentGenerator.Push | lib/diggit/jobs/push_analysis_comments.rb:41 | pushing posts every added note after the earlier posts and counts one push |
| PushAnalysisComments.PushAnalysisCommentsJob.PushCommentsToGithub | lib/diggit/jobs/push_analysis_comments.rb:36-42 | every pending comment is added in order, then posted with exactly one push |
| PushAnalysisComments.PushAnalysisCommentsJob.Run | lib/diggit/jobs/push_analysis_comments.rb:14-29 | the table, the pull's posts and pushes, the job's flag and the result are those of `Step` |
| PushAnalysisComments.RunTwice | lib/diggit/jobs/push_analysis_comments.rb:19-27 | running the job twice for one analysis leaves what one run leaves, and the second run reports it already pushed |

## Left out

- Rugged: the repository handle, the walker, diffs and `repo.close` are foreign library calls. A walk is the sequence of commits the walker yields, and "the walker honours `hide`" is a hypothesis of `ChangesetGenerator.NewEntriesAvoidCache`. The walker's date order is not modelled, because the merge re-sorts.
- `Services::Cache` is an external store, modelled as a `Cache` object over a map. Concurrent writers are not modelled.
- Logging (`info`) everywhere.
- ChangesetGenerator.ChangesetGenerator.Changesets: ties between equal timestamps are broken the way the model's insertion sort breaks them. Ruby's `sort_by` leaves that order open, so the lemmas about the merge use only "sorted and a permutation".
- ChangesetGenerator.Immute: strings are values here, so the shared, frozen string objects of the source cannot be observed. Only value equality and the table's contents are stated.
- WhitespaceAnalysis.Std: the standard deviation is floating point, computed by the DescriptiveStatistics library. The model keeps the zero short-circuit and the depths it is computed over.
- WhitespaceAnalysis.Mode: the library's tie-break between equally frequent indents is not visible. The contract states only "a most frequent" one.
- `String#valid_encoding?` is a boolean input of `WhitespaceAnalysis.Std`. There is no byte-level encoding model.
- The memoisation of `std`, `nominal_indent`, `logical_indents` and `whitespace_indents`, and of the report's `comments`, `methods_over_threshold`, `commits_of_interest` and `ruby_files_changed`, is not modelled as state. These are functions here, so evaluating one twice gives the same value by construction.
- `CommitScanner`, `MethodSizeHistory` and the git log are not part of this model. They are functions carried by `RefactorDiligence.Repository`.
- RefactorDiligence.MethodsOverThreshold: the size histories are a sequence. A method name that appears twice is not merged the way the source's hash (`to_h`) would merge it.
- RefactorDiligence.Extname: the Windows alternative separator and drive letters of `File.extname` are not modelled.
- ActiveRecord: `PullAnalysis.find` raising is the `NotFound` result, with no state change. A failing push inside the transaction would roll back; the model's push never fails.
- The Que job lifecycle is reduced to the job's `destroyed` flag.
- The GitHub client and the `CommentGenerator`'s own batching are reduced to a pull that records posted notes and counts pushes. The project's `gh_path` and the pull number given to the generator are not modelled.
- Not part of this model: the analysis pipeline, the change-patterns and complexity reports, the itemset miners, the pull-analysis job, the webhook route, the rake tasks and the JavaScript client. Their implementations are not among the modelled files.
