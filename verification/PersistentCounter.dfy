/** The generated counter program: find-or-create nested inside the transaction that increments. */
module PersistentCounter {
  import opened PmemPool
  import opened PersistentLib

  const ROOT: Oid := 1

  /** The pool of the counter: slot null and nothing else, or slot `c` and its one-word block. */
  ghost predicate Counts(h: Heap, c: Oid, v: int) {
    if c == NULL then h == map[ROOT := [NULL]] && v == 0
    else c != ROOT && h == map[ROOT := [c], c := [v]]
  }

  /** One run: creation, if needed, and increment become durable together. */
  method Run(p: Pool, ghost c: Oid, ghost v: int) returns (printed: int, c': Oid)
    requires p.Valid() && p.st.depth == 0 && Counts(Live(p.st), c, v)
    modifies p
    ensures p.Valid() && p.st.depth == 0 && Counts(Live(p.st), c', v + 1) && printed == v + 1
    ensures c' != NULL && (c != NULL ==> c' == c)
    ensures p.images == old(p.images) + [Live(p.st)]
  {
    Quiet(p.st);
    ghost var h := Live(p.st);
    p.Begin();
    var counter := GetOrCreate(p, ROOT, 0, [Logged(0)]);
    assert Words([Logged(0)]) == [0];
    assert Live(p.st)[ROOT] == [counter];
    assert Live(p.st) == map[ROOT := [counter], counter := [v]];
    var ok := p.Store(counter, 0, p.Read(counter, 0) + 1);
    assert Live(p.st)[counter] == [v + 1];
    assert Live(p.st) == map[ROOT := [counter], counter := [v + 1]];
    p.End();
    Quiet(p.st);
    c' := counter;
    printed := p.Read(counter, 0);
    assert h != Live(p.st);
  }

  /** How a run ends: the process dies before its commit, or after it. */
  datatype Ending = Died | Committed

  function Commits(runs: seq<Ending>): nat {
    if runs == [] then 0 else Commits(runs[..|runs| - 1]) + (if runs[|runs| - 1].Committed? then 1 else 0)
  }

  lemma {:induction false} CommitsCount(runs: seq<Ending>)
    ensures Commits(runs) == multiset(runs)[Ending.Committed]
  {
    if runs != [] {
      CommitsCount(runs[..|runs| - 1]);
      assert runs == runs[..|runs| - 1] + [runs[|runs| - 1]];
    }
  }

  /** Over any history of completed and crashed runs the counter is the number of committed increments,
      and the object, once created, is never replaced. */
  method History(runs: seq<Ending>) returns (h: Heap, objects: seq<Oid>)
    ensures |objects| == |runs| + 1
    ensures Counts(h, objects[|runs|], Commits(runs))
    ensures forall i, j :: 0 <= i <= j <= |runs| && objects[i] != NULL ==> objects[j] == objects[i]
  {
    h := map[ROOT := [NULL]];
    objects := [NULL];
    for r := 0 to |runs|
      invariant |objects| == r + 1
      invariant Counts(h, objects[r], Commits(runs[..r]))
      invariant forall i, j :: 0 <= i <= j <= r && objects[i] != NULL ==> objects[j] == objects[i]
    {
      assert runs[..r + 1][..r] == runs[..r];
      var p := new Pool(h);
      var printed, c := Run(p, objects[r], Commits(runs[..r]));
      assert p.images[0] == h;
      if runs[r].Died? {
        h := p.images[0];
        objects := objects + [objects[r]];
      } else {
        h := p.images[1];
        objects := objects + [c];
      }
    }
    assert runs[..|runs|] == runs;
  }
}
