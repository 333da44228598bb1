/**
 Top-K selection (`findTopReviewers`): keep the `maxReviewers` entries of the
 weight map with the greatest weights and report their account ids. The
 source leaves the choice among equal weights to the ordering library, so the
 selection is specified relationally: any choice that is a valid top K is
 allowed.
 */
module Selection {
  import opened Wrappers
  import opened Types

  function Min(a: nat, b: nat): nat
  {
    if a <= b then a else b
  }

  /** `sel` is a valid choice of the k heaviest keys of `m`. */
  ghost predicate IsTopK<K>(m: map<K, nat>, k: nat, sel: set<K>)
  {
    && sel <= m.Keys
    && |sel| == Min(k, |m|)
    && forall a, b :: a in sel && b in m && b !in sel ==> m[b] <= m[a]
  }

  /** The ids of a set of accounts. */
  function IdsOf(accounts: set<Account>): set<AccountId>
  {
    set a | a in accounts :: a.id
  }

  /** No two accounts of the set share an id. */
  ghost predicate IdsInjective(accounts: set<Account>)
  {
    forall a, b :: a in accounts && b in accounts && a.id == b.id ==> a == b
  }

  lemma {:induction false} InjectiveIdsSize(accounts: set<Account>)
    requires IdsInjective(accounts)
    ensures |IdsOf(accounts)| == |accounts|
    decreases |accounts|
  {
    if accounts != {} {
      var x :| x in accounts;
      var rest := accounts - {x};
      InjectiveIdsSize(rest);
      assert IdsOf(accounts) == IdsOf(rest) + {x.id};
      assert x.id !in IdsOf(rest);
    }
  }

  /** A key of `s` whose weight no other key of `s` exceeds. */
  method Heaviest<K>(m: map<K, nat>, s: set<K>) returns (best: K)
    requires s != {} && s <= m.Keys
    ensures best in s
    ensures forall b :: b in s ==> m[b] <= m[best]
  {
    best :| best in s;
    var todo := s - {best};
    while todo != {}
      invariant todo <= s && best in s
      invariant forall b :: b in s && b !in todo ==> m[b] <= m[best]
      decreases todo
    {
      var x :| x in todo;
      if m[x] > m[best] {
        best := x;
      }
      todo := todo - {x};
    }
  }

  /** The k heaviest keys of `m`, ties broken by an arbitrary choice. */
  method SelectTop<K>(m: map<K, nat>, k: nat) returns (sel: set<K>)
    ensures IsTopK(m, k, sel)
  {
    sel := {};
    var rest := m.Keys;
    while |sel| < k && rest != {}
      invariant sel !! rest && sel + rest == m.Keys
      invariant |sel| <= k
      invariant forall a, b :: a in sel && b in rest ==> m[b] <= m[a]
      decreases rest
    {
      var best := Heaviest(m, rest);
      sel := sel + {best};
      rest := rest - {best};
    }
    assert |m.Keys| == |sel| + |rest|;
  }

  /**
   The ids of a valid top-`maxReviewers` choice of the weight map; as many ids
   as chosen entries when no two keys share an id.
   */
  method FindTopReviewers(reviewers: map<Account, nat>, maxReviewers: nat) returns (top: set<AccountId>)
    ensures exists sel :: IsTopK(reviewers, maxReviewers, sel) && top == IdsOf(sel)
    ensures top <= IdsOf(reviewers.Keys)
    ensures IdsInjective(reviewers.Keys) ==> |top| == Min(maxReviewers, |reviewers|)
  {
    var entries := SelectTop(reviewers, maxReviewers);
    top := IdsOf(entries);
    if IdsInjective(reviewers.Keys) {
      InjectiveIdsSize(entries);
    }
  }
}
