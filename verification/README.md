# Reviewers by blame — a Dafny model of the reviewer ranking

This project models the core of the Gerrit plugin *reviewers-by-blame*: the task
that runs for a new patch set, walks every edited old-side line of every
modified or deleted file, asks `git blame` (at the commit's first parent) who
last touched that line, maps the author's e-mail address to Gerrit accounts,
counts one point per line for each active account that is not the change owner,
and proposes the `maxReviewers` accounts with the greatest counts as reviewers.

The collaborators of the Java class (the identity resolver `Emails`, the
`AccountCache`, JGit's blame engine, `String.matches`, the diff engine) are
fields of one immutable `Types.Task` value, so a run is a function of its task:

- `emails`: e-mail to account ids, `None` when the lookup throws `IOException`;
- `accounts`: account id to the cached `Account(id, active)`, or `None`;
- `blame`: old path to a line-to-author-e-mail function, `None` when blame fails;
- `matches`: whether a path matches the ignore expression;
- `diff`: the diff entries in iteration order, `None` when the diff is not available.

Modules:

- `Wrappers` — `Option`.
- `Types` — accounts, change kinds, edits, file diff entries, the task.
- `Aggregation` — `getReviewersForPatch`: the line walk as the source performs
  it (`CreditId`, `CreditIds`, `CreditRange`, `CreditEdits`), an independent
  count of what each account is owed (`Hits`, `RangeWeight`, `EditsWeight`),
  and lemmas proving the walk computes that count.
- `Selection` — `findTopReviewers`: a relational top-K specification (`IsTopK`)
  and a selection method that meets it for any tie-break; `Min`.
- `Orchestration` — `computeBlame`, the per-file gates, the `putAll` merge of
  the per-file maps, and `run`.
- `Scenarios` — small concrete changes run through the model.

`Run` returns `None` when nothing is submitted (diff unavailable, a root or
merge commit, or an identity lookup failing with an I/O error, which escapes
`run` as a `RuntimeException`) and `Some(s)` for the set `s` handed to
`addReviewers`, possibly empty.

## Behaviour as written

The model follows the code where one might expect otherwise:

- The weights of different files are not added. `reviewers.putAll(...)` replaces
  an account's count with the count of the later file, so an account's merged
  weight is the weight in the last credited file that holds it
  (`Orchestration.MergeLastWins`, `Scenarios.LaterFileOverwrites`: 2 lines in
  one file and 3 in the next give 3, not 5).
- An I/O failure while resolving any visited line's author aborts the whole
  run; it is not skipped per line.
- Among equal weights the choice is left open, as Guava's `greatestOf` leaves
  it; the model does not fix a tie-break.
- For a root or merge commit and for an unavailable diff nothing is submitted
  at all (`None`), rather than an empty reviewer set.

## Model

| member | source | states |
|---|---|---|
| Aggregation.CreditIdsCounts | src/main/java/com/googlesource/gerrit/plugins/reviewersbyblame/ReviewersByBlame.java:198-206 | processing the ids of one line adds, to each account, exactly the number of those ids the cache maps to it when it is active and not the owner, and leaves every stored count at least 1 |
| Aggregation.CreditRangeCounts | src/main/java/com/googlesource/gerrit/plugins/reviewersbyblame/ReviewersByBlame.java:194-212 | walking lines [beginA, endA) of one edit succeeds exactly when every line's author resolves, and then adds each account's per-line hits summed over the range |
| Aggregation.CreditEditsCounts | src/main/java/com/googlesource/gerrit/plugins/reviewersbyblame/ReviewersByBlame.java:193-213 | walking all edits succeeds exactly when every visited line resolves, and then adds each account's hits summed over all edits |
| Aggregation.GetReviewersForPatch | src/main/java/com/googlesource/gerrit/plugins/reviewersbyblame/ReviewersByBlame.java:191-215 | the per-file map is absent exactly when some visited line's lookup throws; otherwise its keys are the accounts with a positive count, each value is that count (at least 1), and every key is active and not the owner |
| Aggregation.UnqualifiedOwedNothing | src/main/java/com/googlesource/gerrit/plugins/reviewersbyblame/ReviewersByBlame.java:202 | an inactive account or the owner's account is owed nothing by any file, whatever the blame says |
| Aggregation.HitsOfDistinctIds | src/main/java/com/googlesource/gerrit/plugins/reviewersbyblame/ReviewersByBlame.java:197-204 | with a cache that answers with the account of the id asked and a duplicate-free id set, one line credits an account at most once: exactly when its id is among the line author's ids and it is cached, active and not the owner |
| Aggregation.WeightCountsLines | src/main/java/com/googlesource/gerrit/plugins/reviewersbyblame/ReviewersByBlame.java:191-206 | under the same conditions a file's weight for an account is the number of (edit, line) pairs with beginA <= line < endA whose author resolves to that account's id |
| Selection.SelectTop | src/main/java/com/googlesource/gerrit/plugins/reviewersbyblame/ReviewersByBlame.java:166-177 | the chosen entries are keys of the map, there are min(k, size of the map) of them, and none weighs less than any entry left out |
| Selection.Heaviest | src/main/java/com/googlesource/gerrit/plugins/reviewersbyblame/ReviewersByBlame.java:169-177 | the entry picked next is one of the remaining entries and no remaining entry weighs more |
| Selection.FindTopReviewers | src/main/java/com/googlesource/gerrit/plugins/reviewersbyblame/ReviewersByBlame.java:166-182 | the result is the id set of some valid top-maxReviewers choice, lies within the ids of the map's keys, and has min(maxReviewers, size of the map) elements when no two keys share an id |
| Orchestration.UnblamedNeverContributes | src/main/java/com/googlesource/gerrit/plugins/reviewersbyblame/ReviewersByBlame.java:225-247 | an added file (no blame) and a file whose blame at the parent fails (null result) can be removed from the diff without changing the merged weights: neither contributes, and the run goes on with the other files |
| Orchestration.VisitFile | src/main/java/com/googlesource/gerrit/plugins/reviewersbyblame/ReviewersByBlame.java:124-131 | a file is skipped exactly when it is neither modified nor deleted, its new path (or "") matches a non-empty ignore expression, or blame is absent; it aborts exactly when it passes those gates and some visited line does not resolve; a credited file's weights are its line counts, all at least 1 and only for active non-owner accounts |
| Orchestration.MergeAborts | src/main/java/com/googlesource/gerrit/plugins/reviewersbyblame/ReviewersByBlame.java:123-131 | the file loop yields no map exactly when some diff entry aborts |
| Orchestration.MergeKeys | src/main/java/com/googlesource/gerrit/plugins/reviewersbyblame/ReviewersByBlame.java:123-131 | the merged key set is the union of the running map's keys and every credited file's keys |
| Orchestration.MergePositive | src/main/java/com/googlesource/gerrit/plugins/reviewersbyblame/ReviewersByBlame.java:123-131 | merging credited files into a map without zero weights gives a map without zero weights |
| Orchestration.MergeLastWins | src/main/java/com/googlesource/gerrit/plugins/reviewersbyblame/ReviewersByBlame.java:130 | an account's merged weight is its weight in the last credited file that holds it, not a sum; an account no file holds keeps its running value |
| Orchestration.SkippedFileIrrelevant | src/main/java/com/googlesource/gerrit/plugins/reviewersbyblame/ReviewersByBlame.java:125-127 | removing a skipped entry (an added file, an ignored path, failed blame, another kind) from the diff leaves the merged result unchanged |
| Orchestration.Run | src/main/java/com/googlesource/gerrit/plugins/reviewersbyblame/ReviewersByBlame.java:107-135 | nothing is submitted exactly when the diff is unavailable, the parent count is not 1, or some entry aborts; otherwise the submitted set is a valid top-maxReviewers choice of the merged map with min(maxReviewers, size of the map) ids, never holds the owner, and holds only ids of active credited accounts |
| Scenarios.LaterFileOverwrites | src/main/java/com/googlesource/gerrit/plugins/reviewersbyblame/ReviewersByBlame.java:130 | an author of 2 edited lines in one file and 3 in the next ends with weight 3 |
| Scenarios.OwnerIsNotCredited | src/main/java/com/googlesource/gerrit/plugins/reviewersbyblame/ReviewersByBlame.java:202 | the owner, author of 5 of 7 edited lines, gets no weight; the other author gets 2 |
| Scenarios.OwnerIsNeverSuggested | src/main/java/com/googlesource/gerrit/plugins/reviewersbyblame/ReviewersByBlame.java:133-134 | on that change with one reviewer wanted, the run submits exactly the other author |

## Left out

- `addReviewers` and the REST call it makes (lines 143-156): output only; its failures are swallowed, so `Run` returns the set it would be given.
- Logging, the Guice factory and constructor (lines 72-104), and scheduling as a `Runnable`: plumbing.
- JGit's `BlameCommand`/`BlameResult`: the blame engine is an oracle; a line index outside the blamed file, for which `getSourceCommit` gives no commit, is not modelled (blame is total on line indices).
- The diff engine `listModifiedFilesAgainstParent` with its base and options: an input sequence of entries in map iteration order, or unavailable.
- Java regular expressions: `matches` is an uninterpreted predicate; an invalid expression, which would throw, is not modelled.
- `Emails` and `AccountCache` internals; of an `Account` only the id and the active flag are kept, so two cached records with the same id and flag are the same key. Since every key of the merged map is active, no two keys share an id, and `Run` always submits min(maxReviewers, size of the map) ids. With full records, a cache reload during a run could leave two keys with one id, and the submitted id set would then be smaller; `FindTopReviewers` states its size only for keys with distinct ids for this reason.
- Exceptions other than the identity lookup's `IOException` (for example unchecked ones thrown by the account cache).
- Entries of other kinds (renamed, copied, rewritten) are never blamed, so only modified and deleted entries are assumed to carry an old path, as the diff engine guarantees.
- A negative `maxReviewers`, for which Guava's `greatestOf` throws: the model takes it as a natural number.
- The `int` overflow of the comparator at line 174 and of `Integer` counts: counts are unbounded naturals.
- Deterministic re-running is not stated separately: every function of the model is deterministic, and `Run` differs between runs only in the tie-break.
