/**
 Per-file reviewer weights: the walk over the old-side lines of every edit,
 the identity fan-out of each line's author, and the count kept per account
 (`getReviewersForPatch`).

 The walk itself (CreditId, CreditIds, CreditRange, CreditEdits) follows the
 loops of the source one step at a time. Hits, RangeWeight and EditsWeight are
 the independent reference: how many (line, id) pairs credit an account. The
 lemmas connect the two.
 */
module Aggregation {
  import opened Wrappers
  import opened Types

  /** Weight per account, as the source keeps it in a hash map. */
  type Weights = map<Account, nat>

  /** The weight of `a` in `m`, with an absent key read as 0. */
  function Get(m: Weights, a: Account): nat
  {
    if a in m then m[a] else 0
  }

  /** No account is stored with weight 0. */
  ghost predicate Positive(m: Weights)
  {
    forall a :: a in m ==> m[a] >= 1
  }

  /** An account the change may be credited to: active and not the owner. */
  predicate Qualifies(owner: AccountId, a: Account)
  {
    a.active && a.id != owner
  }

  // ---------------------------------------------------------------------------
  // The walk, as the source performs it
  // ---------------------------------------------------------------------------

  /** One id of a line's fan-out: look it up and count the account it names. */
  function CreditId(t: Task, m: Weights, id: AccountId): Weights
  {
    match t.accounts(id)
    case None => m
    case Some(a) => if Qualifies(t.owner, a) then m[a := Get(m, a) + 1] else m
  }

  /** All ids one author e-mail resolves to, first to last. */
  function CreditIds(t: Task, m: Weights, ids: seq<AccountId>): Weights
    decreases |ids|
  {
    if ids == [] then m else CreditIds(t, CreditId(t, m, ids[0]), ids[1..])
  }

  /**
   Old-side lines i, i+1, ..., end-1 of one edit; None as soon as a line's
   author cannot be resolved, which aborts the whole walk.
   */
  function CreditRange(t: Task, lines: Blame, m: Weights, i: nat, end: nat): Option<Weights>
    decreases end - i
  {
    if i >= end then Some(m)
    else
      match t.emails(lines(i))
      case None => None
      case Some(ids) => CreditRange(t, lines, CreditIds(t, m, ids), i + 1, end)
  }

  /** Every edit of the file, in order. */
  function CreditEdits(t: Task, lines: Blame, m: Weights, edits: seq<Edit>): Option<Weights>
    decreases |edits|
  {
    if edits == [] then Some(m)
    else
      match CreditRange(t, lines, m, edits[0].beginA, edits[0].endA)
      case None => None
      case Some(m') => CreditEdits(t, lines, m', edits[1..])
  }

  // ---------------------------------------------------------------------------
  // The reference: what each account is owed
  // ---------------------------------------------------------------------------

  /** The ids line i's author resolves to; none when resolution fails. */
  function IdsAt(t: Task, lines: Blame, i: nat): seq<AccountId>
  {
    match t.emails(lines(i))
    case None => []
    case Some(ids) => ids
  }

  /** The author of line i can be resolved. */
  predicate Resolves(t: Task, lines: Blame, i: nat)
  {
    t.emails(lines(i)).Some?
  }

  /** How many of `ids` the account cache maps to `a`, when `a` qualifies. */
  function Hits(t: Task, ids: seq<AccountId>, a: Account): nat
    decreases |ids|
  {
    if ids == [] then 0
    else (if t.accounts(ids[0]) == Some(a) && Qualifies(t.owner, a) then 1 else 0)
         + Hits(t, ids[1..], a)
  }

  /** The hits of `a` summed over old-side lines lo, ..., hi-1. */
  function RangeWeight(t: Task, lines: Blame, lo: nat, hi: nat, a: Account): nat
    decreases hi - lo
  {
    if lo >= hi then 0 else Hits(t, IdsAt(t, lines, lo), a) + RangeWeight(t, lines, lo + 1, hi, a)
  }

  /** The hits of `a` summed over every line of every edit. */
  function EditsWeight(t: Task, lines: Blame, edits: seq<Edit>, a: Account): nat
    decreases |edits|
  {
    if edits == [] then 0
    else RangeWeight(t, lines, edits[0].beginA, edits[0].endA, a) + EditsWeight(t, lines, edits[1..], a)
  }

  /** Every old-side line in [lo, hi) has a resolvable author. */
  ghost predicate RangeResolves(t: Task, lines: Blame, lo: nat, hi: nat)
  {
    forall i: nat :: lo <= i < hi ==> Resolves(t, lines, i)
  }

  /** Every line of every edit has a resolvable author. */
  ghost predicate EditsResolve(t: Task, lines: Blame, edits: seq<Edit>)
  {
    forall k :: 0 <= k < |edits| ==> RangeResolves(t, lines, edits[k].beginA, edits[k].endA)
  }

  // ---------------------------------------------------------------------------
  // The walk computes the reference
  // ---------------------------------------------------------------------------

  lemma {:induction false} CreditIdsCounts(t: Task, m: Weights, ids: seq<AccountId>)
    requires Positive(m)
    ensures Positive(CreditIds(t, m, ids))
    ensures forall a :: Get(CreditIds(t, m, ids), a) == Get(m, a) + Hits(t, ids, a)
    decreases |ids|
  {
    if ids != [] {
      var m' := CreditId(t, m, ids[0]);
      assert Positive(m');
      assert forall a :: (Get(m', a) ==
        Get(m, a) + if t.accounts(ids[0]) == Some(a) && Qualifies(t.owner, a) then 1 else 0);
      CreditIdsCounts(t, m', ids[1..]);
    }
  }

  lemma {:induction false} CreditRangeCounts(t: Task, lines: Blame, m: Weights, lo: nat, hi: nat)
    requires Positive(m)
    ensures CreditRange(t, lines, m, lo, hi).Some? <==> RangeResolves(t, lines, lo, hi)
    ensures CreditRange(t, lines, m, lo, hi).Some? ==>
      && Positive(CreditRange(t, lines, m, lo, hi).value)
      && forall a :: Get(CreditRange(t, lines, m, lo, hi).value, a) == Get(m, a) + RangeWeight(t, lines, lo, hi, a)
    decreases hi - lo
  {
    if lo < hi {
      match t.emails(lines(lo))
      case None =>
        assert !Resolves(t, lines, lo);
      case Some(ids) =>
        var m' := CreditIds(t, m, ids);
        CreditIdsCounts(t, m, ids);
        CreditRangeCounts(t, lines, m', lo + 1, hi);
        assert RangeResolves(t, lines, lo, hi) <==> RangeResolves(t, lines, lo + 1, hi);
    }
  }

  lemma {:induction false} CreditEditsCounts(t: Task, lines: Blame, m: Weights, edits: seq<Edit>)
    requires Positive(m)
    ensures CreditEdits(t, lines, m, edits).Some? <==> EditsResolve(t, lines, edits)
    ensures CreditEdits(t, lines, m, edits).Some? ==>
      && Positive(CreditEdits(t, lines, m, edits).value)
      && forall a :: Get(CreditEdits(t, lines, m, edits).value, a) == Get(m, a) + EditsWeight(t, lines, edits, a)
    decreases |edits|
  {
    if edits != [] {
      var e := edits[0];
      CreditRangeCounts(t, lines, m, e.beginA, e.endA);
      assert EditsResolve(t, lines, edits) <==>
        RangeResolves(t, lines, e.beginA, e.endA) && EditsResolve(t, lines, edits[1..]) by {
        forall k | 0 <= k < |edits| - 1
          ensures edits[1..][k] == edits[k + 1]
        {
        }
      }
      match CreditRange(t, lines, m, e.beginA, e.endA)
      case None =>
      case Some(m') =>
        CreditEditsCounts(t, lines, m', edits[1..]);
    }
  }

  // ---------------------------------------------------------------------------
  // Who can be credited
  // ---------------------------------------------------------------------------

  lemma {:induction false} HitsNeedQualifying(t: Task, ids: seq<AccountId>, a: Account)
    requires !Qualifies(t.owner, a)
    ensures Hits(t, ids, a) == 0
    decreases |ids|
  {
    if ids != [] {
      HitsNeedQualifying(t, ids[1..], a);
    }
  }

  lemma {:induction false} RangeWeightNeedsQualifying(t: Task, lines: Blame, lo: nat, hi: nat, a: Account)
    requires !Qualifies(t.owner, a)
    ensures RangeWeight(t, lines, lo, hi, a) == 0
    decreases hi - lo
  {
    if lo < hi {
      HitsNeedQualifying(t, IdsAt(t, lines, lo), a);
      RangeWeightNeedsQualifying(t, lines, lo + 1, hi, a);
    }
  }

  /** The owner and inactive accounts are owed nothing, whatever the blame says. */
  lemma {:induction false} UnqualifiedOwedNothing(t: Task, lines: Blame, edits: seq<Edit>, a: Account)
    requires !Qualifies(t.owner, a)
    ensures EditsWeight(t, lines, edits, a) == 0
    decreases |edits|
  {
    if edits != [] {
      RangeWeightNeedsQualifying(t, lines, edits[0].beginA, edits[0].endA, a);
      UnqualifiedOwedNothing(t, lines, edits[1..], a);
    }
  }

  // ---------------------------------------------------------------------------
  // getReviewersForPatch
  // ---------------------------------------------------------------------------

  /**
   The weights one file contributes, or None when resolving some visited
   line's author fails with an I/O error. Each present key is a qualifying
   account and its value is the number of (line, id) pairs that credit it.
   */
  function GetReviewersForPatch(t: Task, edits: seq<Edit>, lines: Blame): (r: Option<Weights>)
    ensures r.Some? <==> EditsResolve(t, lines, edits)
    ensures r.Some? ==> forall a :: Get(r.value, a) == EditsWeight(t, lines, edits, a)
    ensures r.Some? ==> forall a :: a in r.value <==> EditsWeight(t, lines, edits, a) > 0
    ensures r.Some? ==> forall a :: a in r.value ==> r.value[a] >= 1 && Qualifies(t.owner, a)
  {
    CreditEditsCounts(t, lines, map[], edits);
    var r := CreditEdits(t, lines, map[], edits);
    assert r.Some? ==> forall a :: a in r.value ==> Qualifies(t.owner, a) by {
      if r.Some? {
        forall a | a in r.value
          ensures Qualifies(t.owner, a)
        {
          if !Qualifies(t.owner, a) {
            UnqualifiedOwedNothing(t, lines, edits, a);
          }
        }
      }
    }
    r
  }

  // ---------------------------------------------------------------------------
  // With a consistent cache, a weight is a count of lines
  // ---------------------------------------------------------------------------

  /** The cache returns the account stored under the id it was asked for. */
  ghost predicate CacheConsistent(t: Task)
  {
    forall id :: t.accounts(id).Some? ==> t.accounts(id).value.id == id
  }

  ghost predicate Distinct(ids: seq<AccountId>)
  {
    forall j, k :: 0 <= j < k < |ids| ==> ids[j] != ids[k]
  }

  /** Each resolved id collection is a set: no id twice. */
  ghost predicate ResolverGivesSets(t: Task)
  {
    forall e :: t.emails(e).Some? ==> Distinct(t.emails(e).value)
  }

  /** Line i credits `a`: a's id is among its author's ids, a is cached and qualifies. */
  predicate Credits(t: Task, lines: Blame, i: nat, a: Account)
  {
    a.id in IdsAt(t, lines, i) && t.accounts(a.id) == Some(a) && Qualifies(t.owner, a)
  }

  function CreditedLinesIn(t: Task, lines: Blame, lo: nat, hi: nat, a: Account): nat
    decreases hi - lo
  {
    if lo >= hi then 0
    else (if Credits(t, lines, lo, a) then 1 else 0) + CreditedLinesIn(t, lines, lo + 1, hi, a)
  }

  /** The number of (edit, line) pairs whose line credits `a`. */
  function CreditedLines(t: Task, lines: Blame, edits: seq<Edit>, a: Account): nat
    decreases |edits|
  {
    if edits == [] then 0
    else CreditedLinesIn(t, lines, edits[0].beginA, edits[0].endA, a) + CreditedLines(t, lines, edits[1..], a)
  }

  lemma {:induction false} HitsOfDistinctIds(t: Task, ids: seq<AccountId>, a: Account)
    requires CacheConsistent(t) && Distinct(ids)
    ensures Hits(t, ids, a) == if a.id in ids && t.accounts(a.id) == Some(a) && Qualifies(t.owner, a) then 1 else 0
    decreases |ids|
  {
    if ids != [] {
      assert Distinct(ids[1..]);
      HitsOfDistinctIds(t, ids[1..], a);
      if t.accounts(ids[0]) == Some(a) {
        assert ids[0] == a.id;
        assert a.id !in ids[1..];
      }
      assert a.id in ids <==> a.id == ids[0] || a.id in ids[1..];
    }
  }

  lemma {:induction false} RangeWeightCountsLines(t: Task, lines: Blame, lo: nat, hi: nat, a: Account)
    requires CacheConsistent(t) && ResolverGivesSets(t)
    ensures RangeWeight(t, lines, lo, hi, a) == CreditedLinesIn(t, lines, lo, hi, a)
    decreases hi - lo
  {
    if lo < hi {
      HitsOfDistinctIds(t, IdsAt(t, lines, lo), a);
      RangeWeightCountsLines(t, lines, lo + 1, hi, a);
    }
  }

  /**
   When the cache is keyed consistently and every resolution is a set, the
   weight of `a` in a file is the number of old-side edited lines whose author
   resolves to a's id.
   */
  lemma {:induction false} WeightCountsLines(t: Task, lines: Blame, edits: seq<Edit>, a: Account)
    requires CacheConsistent(t) && ResolverGivesSets(t)
    ensures EditsWeight(t, lines, edits, a) == CreditedLines(t, lines, edits, a)
    decreases |edits|
  {
    if edits != [] {
      RangeWeightCountsLines(t, lines, edits[0].beginA, edits[0].endA, a);
      WeightCountsLines(t, lines, edits[1..], a);
    }
  }
}
