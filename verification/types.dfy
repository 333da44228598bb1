/**
 The data the reviewer-ranking task works on: the diff entries of one patch set,
 the accounts of the review system, and the collaborators the task consults.
 Every collaborator (identity resolver, account cache, blame engine, regular
 expression matcher, diff engine) is an input of the task, so that the whole run
 is a function of its `Task`.
 */
module Types {
  import opened Wrappers

  /** The numeric value of an `Account.Id`. */
  type AccountId = int

  /** An author e-mail address, as the blame engine reports it. */
  type Email = string

  /**
   An account record as the account cache returns it. Only the fields the
   ranking reads are kept: the id it was created under and the active flag.
   */
  datatype Account = Account(id: AccountId, active: bool)

  /** The kinds a file diff entry can have. */
  datatype ChangeKind = Added | Modified | Deleted | Renamed | Copied | Rewrite

  /**
   One edit of a file: the old-side half-open line range [beginA, endA) that was
   replaced or removed, and the new-side range [beginB, endB), which the
   ranking does not read.
   */
  datatype Edit = Edit(beginA: nat, endA: nat, beginB: nat, endB: nat)

  /** One file of the diff between the patch set and its parent. */
  datatype FileDiff = FileDiff(
    oldPath: Option<string>,
    newPath: Option<string>,
    kind: ChangeKind,
    edits: seq<Edit>)

  /** Per-line attribution of one file: old-side line index to author e-mail. */
  type Blame = nat -> Email

  /**
   One run of the reviewer-ranking task, with everything it consults.
   - emails: the ids the identity resolver maps an e-mail address to, in the
     order their set is iterated; None when the lookup fails with an I/O error.
   - accounts: the account cache; None when no account is stored under the id.
   - blame: the blame engine at the commit's first parent, by old path; None
     when blame fails.
   - matches: whether a path matches a regular expression.
   - diff: the diff entries in iteration order; None when the diff is not
     available.
   */
  datatype Task = Task(
    emails: Email -> Option<seq<AccountId>>,
    accounts: AccountId -> Option<Account>,
    blame: string -> Option<Blame>,
    matches: (string, string) -> bool,
    diff: Option<seq<FileDiff>>,
    parentCount: nat,
    owner: AccountId,
    maxReviewers: nat,
    ignoreFileRegEx: string)
}
