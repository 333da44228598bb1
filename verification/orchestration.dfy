/**
 The run of the task for one change: the whole-change gates, the per-file
 gates, the blame call, the merge of the per-file weights into one map, and
 the top-K selection whose result is handed to the review system.
 */
module Orchestration {
  import opened Wrappers
  import opened Types
  import opened Aggregation
  import opened Selection

  /**
   What the diff engine guarantees for the entries the run blames: a modified
   or deleted file has an old path.
   */
  predicate HasOldPath(f: FileDiff)
  {
    KindEligible(f) ==> f.oldPath.Some?
  }

  ghost predicate WellFormedFiles(files: seq<FileDiff>)
  {
    forall k :: 0 <= k < |files| ==> HasOldPath(files[k])
  }

  /**
   Blame of the file's old path at the parent; None for an added file or a
   failure. Every entry that is not an addition has an old path.
   */
  function ComputeBlame(t: Task, f: FileDiff): Option<Blame>
    requires f.kind == Added || f.oldPath.Some?
  {
    if f.kind == Added then None else t.blame(f.oldPath.value)
  }

  /** Only modified and deleted files are blamed. */
  predicate KindEligible(f: FileDiff)
  {
    f.kind == Modified || f.kind == Deleted
  }

  /** The new path, or the empty string when there is none (a deleted file). */
  function PathOrEmpty(p: Option<string>): string
  {
    match p
    case None => ""
    case Some(s) => s
  }

  /** An empty ignore expression ignores nothing; otherwise the new path must not match it. */
  predicate NotIgnored(t: Task, f: FileDiff)
  {
    |t.ignoreFileRegEx| == 0 || !t.matches(PathOrEmpty(f.newPath), t.ignoreFileRegEx)
  }

  /** What visiting one diff entry does to the run. */
  datatype FileOutcome = Skipped | Aborted | Credited(weights: Weights)

  /** Visit one diff entry: gates, blame, and the per-file weights. */
  function VisitFile(t: Task, f: FileDiff): (r: FileOutcome)
    requires HasOldPath(f)
    ensures r.Skipped? <==> !KindEligible(f) || !NotIgnored(t, f) || ComputeBlame(t, f).None?
    ensures r.Skipped? <==> !KindEligible(f) || !NotIgnored(t, f) || t.blame(f.oldPath.value).None?
    ensures r.Aborted? <==>
      KindEligible(f) && NotIgnored(t, f) && ComputeBlame(t, f).Some?
      && !EditsResolve(t, ComputeBlame(t, f).value, f.edits)
    ensures r.Credited? ==>
      && KindEligible(f)
      && ComputeBlame(t, f).Some?
      && forall a :: Get(r.weights, a) == EditsWeight(t, ComputeBlame(t, f).value, f.edits, a)
    ensures r.Credited? ==> forall a :: a in r.weights ==> r.weights[a] >= 1 && Qualifies(t.owner, a)
  {
    if KindEligible(f) && NotIgnored(t, f) then
      match ComputeBlame(t, f)
      case None => Skipped
      case Some(lines) =>
        match GetReviewersForPatch(t, f.edits, lines)
        case None => Aborted
        case Some(w) => Credited(w)
    else
      Skipped
  }

  /** The weights an entry leaves in the map: none unless it is credited. */
  function FileWeights(t: Task, f: FileDiff): Weights
    requires HasOldPath(f)
  {
    match VisitFile(t, f)
    case Credited(w) => w
    case _ => map[]
  }

  /**
   The file loop: each credited file's weights are put into the running map,
   replacing the value of any account already there; None once a file aborts.
   */
  function MergeFiles(t: Task, files: seq<FileDiff>, acc: Weights): Option<Weights>
    requires WellFormedFiles(files)
    decreases |files|
  {
    if files == [] then Some(acc)
    else
      match VisitFile(t, files[0])
      case Skipped => MergeFiles(t, files[1..], acc)
      case Aborted => None
      case Credited(w) => MergeFiles(t, files[1..], acc + w)
  }

  /** Some entry aborts the run. */
  ghost predicate SomeFileAborts(t: Task, files: seq<FileDiff>)
    requires WellFormedFiles(files)
  {
    exists j :: 0 <= j < |files| && VisitFile(t, files[j]).Aborted?
  }

  /** No entry after the j-th leaves a weight for `a`. */
  ghost predicate LastHolder(t: Task, files: seq<FileDiff>, a: Account, j: int)
    requires WellFormedFiles(files)
  {
    forall j' :: 0 <= j' < |files| && j < j' ==> a !in FileWeights(t, files[j'])
  }

  lemma {:induction false} MergeAborts(t: Task, files: seq<FileDiff>, acc: Weights)
    requires WellFormedFiles(files)
    ensures MergeFiles(t, files, acc).None? <==> SomeFileAborts(t, files)
    decreases |files|
  {
    if files != [] {
      assert forall j :: 1 <= j < |files| ==> files[1..][j - 1] == files[j];
      match VisitFile(t, files[0])
      case Skipped =>
        MergeAborts(t, files[1..], acc);
      case Aborted =>
      case Credited(w) =>
        MergeAborts(t, files[1..], acc + w);
    }
  }

  /** Past a file that does not abort, the loop goes on with its weights put into the map. */
  lemma MergeStep(t: Task, files: seq<FileDiff>, acc: Weights)
    requires WellFormedFiles(files) && files != []
    requires !VisitFile(t, files[0]).Aborted?
    ensures MergeFiles(t, files, acc) == MergeFiles(t, files[1..], acc + FileWeights(t, files[0]))
  {
    if VisitFile(t, files[0]).Skipped? {
      assert acc + FileWeights(t, files[0]) == acc;
    }
  }

  /** Some credited entry of `files` holds a weight for `a`. */
  ghost predicate HeldBySomeFile(t: Task, files: seq<FileDiff>, a: Account)
    requires WellFormedFiles(files)
  {
    exists j :: 0 <= j < |files| && a in FileWeights(t, files[j])
  }

  lemma HeldBySomeFileSplit(t: Task, files: seq<FileDiff>, a: Account)
    requires WellFormedFiles(files) && files != []
    ensures HeldBySomeFile(t, files, a) <==>
      a in FileWeights(t, files[0]) || HeldBySomeFile(t, files[1..], a)
  {
    var rest := files[1..];
    if HeldBySomeFile(t, files, a) {
      var j :| 0 <= j < |files| && a in FileWeights(t, files[j]);
      if j > 0 {
        assert rest[j - 1] == files[j];
      }
    }
    if HeldBySomeFile(t, rest, a) {
      var j :| 0 <= j < |rest| && a in FileWeights(t, rest[j]);
      assert files[j + 1] == rest[j];
    }
  }

  /** The merged keys are the keys of the running map and of every credited file. */
  lemma {:induction false} MergeKeys(t: Task, files: seq<FileDiff>, acc: Weights)
    requires WellFormedFiles(files)
    requires MergeFiles(t, files, acc).Some?
    ensures forall a :: a in MergeFiles(t, files, acc).value <==> a in acc || HeldBySomeFile(t, files, a)
    decreases |files|
  {
    if files != [] {
      var acc' := acc + FileWeights(t, files[0]);
      MergeStep(t, files, acc);
      MergeKeys(t, files[1..], acc');
      forall a
        ensures HeldBySomeFile(t, files, a) <==> a in FileWeights(t, files[0]) || HeldBySomeFile(t, files[1..], a)
      {
        HeldBySomeFileSplit(t, files, a);
      }
    }
  }

  /** Merging keeps every weight at least 1. */
  lemma {:induction false} MergePositive(t: Task, files: seq<FileDiff>, acc: Weights)
    requires WellFormedFiles(files)
    requires MergeFiles(t, files, acc).Some? && Positive(acc)
    ensures Positive(MergeFiles(t, files, acc).value)
    decreases |files|
  {
    if files != [] {
      var acc' := acc + FileWeights(t, files[0]);
      MergeStep(t, files, acc);
      assert Positive(acc');
      MergePositive(t, files[1..], acc');
    }
  }

  /**
   The merged weight of an account is the one of the last credited file that
   holds it; only accounts no credited file holds keep their running value.
   Weights of different files are not added.
   */
  lemma {:induction false} MergeLastWins(t: Task, files: seq<FileDiff>, acc: Weights)
    requires WellFormedFiles(files)
    requires MergeFiles(t, files, acc).Some?
    ensures forall a, j :: 0 <= j < |files| && a in FileWeights(t, files[j]) && LastHolder(t, files, a, j) ==>
      a in MergeFiles(t, files, acc).value && MergeFiles(t, files, acc).value[a] == FileWeights(t, files[j])[a]
    ensures forall a :: a in acc && LastHolder(t, files, a, -1) ==>
      a in MergeFiles(t, files, acc).value && MergeFiles(t, files, acc).value[a] == acc[a]
    decreases |files|
  {
    if files != [] {
      var rest := files[1..];
      var acc' := acc + FileWeights(t, files[0]);
      MergeStep(t, files, acc);
      MergeLastWins(t, rest, acc');
      var r := MergeFiles(t, files, acc).value;
      forall a, j | 0 <= j < |files| && a in FileWeights(t, files[j]) && LastHolder(t, files, a, j)
        ensures a in r && r[a] == FileWeights(t, files[j])[a]
      {
        if j == 0 {
          assert LastHolder(t, rest, a, -1) by {
            forall j' | -1 < j' < |rest|
              ensures a !in FileWeights(t, rest[j'])
            {
              assert rest[j'] == files[j' + 1];
            }
          }
        } else {
          assert rest[j - 1] == files[j];
          assert LastHolder(t, rest, a, j - 1) by {
            forall j' | j - 1 < j' < |rest|
              ensures a !in FileWeights(t, rest[j'])
            {
              assert rest[j'] == files[j' + 1];
            }
          }
        }
      }
      forall a | a in acc && LastHolder(t, files, a, -1)
        ensures a in r && r[a] == acc[a]
      {
        assert a !in FileWeights(t, files[0]);
        assert LastHolder(t, rest, a, -1) by {
          forall j' | -1 < j' < |rest|
            ensures a !in FileWeights(t, rest[j'])
          {
            assert rest[j'] == files[j' + 1];
          }
        }
      }
    }
  }

  /**
   An entry that is skipped (an added file, an ignored path, a file whose
   blame fails, or any other kind) can be dropped from the diff without
   changing the merged result.
   */
  lemma {:induction false} SkippedFileIrrelevant(t: Task, files: seq<FileDiff>, j: nat, acc: Weights)
    requires WellFormedFiles(files)
    requires j < |files| && VisitFile(t, files[j]).Skipped?
    ensures WellFormedFiles(files[..j] + files[j + 1..])
    ensures MergeFiles(t, files[..j] + files[j + 1..], acc) == MergeFiles(t, files, acc)
    decreases j
  {
    var dropped := files[..j] + files[j + 1..];
    assert forall k :: 0 <= k < |dropped| ==> dropped[k] == if k < j then files[k] else files[k + 1];
    if j == 0 {
      assert dropped == files[1..];
    } else {
      var rest := files[1..];
      assert dropped[0] == files[0];
      assert dropped[1..] == rest[..j - 1] + rest[j..];
      match VisitFile(t, files[0])
      case Skipped =>
        SkippedFileIrrelevant(t, rest, j - 1, acc);
      case Aborted =>
      case Credited(w) =>
        SkippedFileIrrelevant(t, rest, j - 1, acc + w);
    }
  }

  /**
   An added file, and a file whose blame fails, can be dropped from the diff
   without changing the merged result: neither contributes any weight.
   */
  lemma UnblamedNeverContributes(t: Task, files: seq<FileDiff>, j: nat, acc: Weights)
    requires WellFormedFiles(files) && j < |files|
    requires files[j].kind == Added || t.blame(PathOrEmpty(files[j].oldPath)).None?
    ensures WellFormedFiles(files[..j] + files[j + 1..])
    ensures MergeFiles(t, files[..j] + files[j + 1..], acc) == MergeFiles(t, files, acc)
  {
    SkippedFileIrrelevant(t, files, j, acc);
  }

  /** The merged weight map of the whole change. */
  function Merged(t: Task): Option<Weights>
    requires t.diff.Some? && WellFormedFiles(t.diff.value)
  {
    MergeFiles(t, t.diff.value, map[])
  }

  /**
   The whole run. None: nothing is submitted, because the diff is not
   available, the commit is a root or a merge, or resolving an author fails.
   Some(s): s is submitted as the reviewer set, possibly empty.
   */
  method Run(t: Task) returns (r: Option<set<AccountId>>)
    requires t.diff.Some? ==> WellFormedFiles(t.diff.value)
    ensures r.None? <==> t.diff.None? || t.parentCount != 1 || SomeFileAborts(t, t.diff.value)
    ensures r.Some? ==>
      && Merged(t).Some?
      && (exists sel :: IsTopK(Merged(t).value, t.maxReviewers, sel) && r.value == IdsOf(sel))
      && |r.value| == Min(t.maxReviewers, |Merged(t).value|)
    ensures r.Some? ==> t.owner !in r.value
    ensures r.Some? ==> forall id :: id in r.value ==>
      exists a :: a in Merged(t).value && a.id == id && a.active
  {
    if t.diff.None? {
      return None;
    }
    if t.parentCount != 1 {
      return None;
    }
    var files := t.diff.value;
    MergeAborts(t, files, map[]);
    var merged := MergeFiles(t, files, map[]);
    if merged.None? {
      return None;
    }
    MergeKeys(t, files, map[]);
    var reviewers := merged.value;
    assert forall a :: a in reviewers ==> Qualifies(t.owner, a);
    var top := FindTopReviewers(reviewers, t.maxReviewers);
    r := Some(top);
  }
}
