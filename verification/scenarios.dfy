/**
 Concrete runs of the model on small changes.
 */
module Scenarios {
  import opened Wrappers
  import opened Types
  import opened Aggregation
  import opened Orchestration

  const Alice := Account(1, true)
  const Bob := Account(2, true)

  /** Every line of every file was last touched by one author. */
  function Everyone(author: Email): Blame
  {
    (i: nat) => author
  }

  function AliceAndBobTask(files: seq<FileDiff>, owner: AccountId): Task
  {
    Task(
      (e: Email) => if e == "alice" then Some([1]) else if e == "bob" then Some([2]) else Some([]),
      (id: AccountId) => if id == 1 then Some(Alice) else if id == 2 then Some(Bob) else None,
      (p: string) =>
        if p == "a" then Some(Everyone("alice"))
        else if p == "b" then Some((i: nat) => if i < 4 then "bob" else "alice")
        else Some(OwnerBlame()),
      (p: string, re: string) => false,
      Some(files), 1, owner, 1, "")
  }

  lemma EmptyUnion(m: Weights)
    ensures map[] + m == m
  {
  }

  lemma SingletonOverwrite(a: Account, x: nat, y: nat)
    ensures map[a := x] + map[a := y] == map[a := y]
  {
  }

  const FileA := FileDiff(Some("a"), Some("a"), Modified, [Edit(0, 2, 0, 2)])
  const FileB := FileDiff(Some("b"), Some("b"), Modified, [Edit(4, 7, 4, 6)])

  /** Alice wrote both edited lines of file "a". */
  lemma FileACreditsTwo(t: Task)
    requires t == AliceAndBobTask([FileA, FileB], 0)
    ensures VisitFile(t, FileA) == Credited(map[Alice := 2])
  {
    var la := Everyone("alice");
    var one := map[Alice := 1];
    var two := map[Alice := 2];
    assert ComputeBlame(t, FileA) == Some(la);
    assert CreditIds(t, map[], [1]) == one;
    assert CreditIds(t, one, [1]) == two;
    assert CreditRange(t, la, one, 1, 2) == Some(two);
    assert CreditRange(t, la, map[], 0, 2) == Some(two);
  }

  /** Alice wrote the three edited old-side lines 4, 5 and 6 of file "b". */
  lemma FileBCreditsThree(t: Task)
    requires t == AliceAndBobTask([FileA, FileB], 0)
    ensures VisitFile(t, FileB) == Credited(map[Alice := 3])
  {
    var lb := (i: nat) => if i < 4 then "bob" else "alice";
    var one := map[Alice := 1];
    var two := map[Alice := 2];
    var three := map[Alice := 3];
    assert ComputeBlame(t, FileB) == Some(lb);
    assert CreditIds(t, map[], [1]) == one;
    assert CreditIds(t, one, [1]) == two;
    assert CreditIds(t, two, [1]) == three;
    assert CreditRange(t, lb, two, 6, 7) == Some(three);
    assert CreditRange(t, lb, one, 5, 7) == Some(three);
    assert CreditRange(t, lb, map[], 4, 7) == Some(three);
  }

  /**
   Alice wrote the two edited lines of file "a" and the three edited lines
   of file "b"; her merged weight is 3, the count of the later file, not 5.
   */
  lemma LaterFileOverwrites(t: Task)
    requires t == AliceAndBobTask([FileA, FileB], 0)
    ensures Merged(t) == Some(map[Alice := 3])
  {
    var two := map[Alice := 2];
    var three := map[Alice := 3];
    FileACreditsTwo(t);
    FileBCreditsThree(t);
    assert [FileA, FileB][1..] == [FileB];
    EmptyUnion(two);
    assert MergeFiles(t, [FileA, FileB], map[]) == MergeFiles(t, [FileB], two);
    SingletonOverwrite(Alice, 2, 3);
    assert MergeFiles(t, [FileB], two) == MergeFiles(t, [], three);
  }

  function OwnerTask(): Task
  {
    AliceAndBobTask([FileC], Alice.id)
  }

  const FileC := FileDiff(Some("c"), Some("c"), Modified, [Edit(0, 7, 0, 1)])

  /** The owner's lines of file "c". */
  function OwnerBlame(): Blame
  {
    (i: nat) => if i < 2 then "bob" else "alice"
  }

  /** Lines 2 to 6 of file "c" are Alice's and credit nobody, as she owns the change. */
  lemma OwnerLinesCreditNothing(t: Task)
    requires t == OwnerTask()
    ensures CreditRange(t, OwnerBlame(), map[Bob := 2], 2, 7) == Some(map[Bob := 2])
  {
    var lc := OwnerBlame();
    var bob2 := map[Bob := 2];
    assert CreditIds(t, bob2, [1]) == bob2;
    assert CreditRange(t, lc, bob2, 6, 7) == Some(bob2);
    assert CreditRange(t, lc, bob2, 5, 7) == Some(bob2);
    assert CreditRange(t, lc, bob2, 4, 7) == Some(bob2);
    assert CreditRange(t, lc, bob2, 3, 7) == Some(bob2);
  }

  /**
   Alice owns the change and wrote five of its seven edited lines, Bob the
   other two: only Bob is credited.
   */
  lemma OwnerIsNotCredited(t: Task)
    requires t == OwnerTask()
    ensures Merged(t) == Some(map[Bob := 2])
  {
    var bob := map[Bob := 1];
    var bob2 := map[Bob := 2];
    var lc := OwnerBlame();
    assert ComputeBlame(t, FileC) == Some(lc);
    assert CreditIds(t, map[], [2]) == bob;
    assert CreditIds(t, bob, [2]) == bob2;
    OwnerLinesCreditNothing(t);
    assert CreditRange(t, lc, bob, 1, 7) == Some(bob2);
    assert CreditRange(t, lc, map[], 0, 7) == Some(bob2);
    assert VisitFile(t, FileC) == Credited(bob2);
    EmptyUnion(bob2);
  }

  /**
   The same change, run with one reviewer wanted: Bob is suggested although
   the owner has the greater count.
   */
  method OwnerIsNeverSuggested() returns (r: Option<set<AccountId>>)
    ensures r == Some({Bob.id})
  {
    var t := OwnerTask();
    var m := map[Bob := 2];
    OwnerIsNotCredited(t);
    assert !VisitFile(t, t.diff.value[0]).Aborted?;
    assert Merged(t).value == m && m.Keys == {Bob};
    r := Run(t);
    assert r.Some?;
    forall id | id in r.value
      ensures id == Bob.id
    {
      var a :| a in m && a.id == id;
    }
    assert |r.value| == 1;
    var x :| x in r.value;
    assert r.value == {x};
  }
}
