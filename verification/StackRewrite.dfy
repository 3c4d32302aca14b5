/** The generated stack answers every sequence of calls as the user's stack does, also across any
    number of crashes, and its pool never holds an orphaned block. */
module StackRewrite {
  import opened PmemPool
  import opened PersistentLib
  import PersistentStack
  import opened UserStack
  import opened Crashes

  /** The root object: one slot for the stack. */
  const ROOT: Oid := 1
  const NEW_POOL: Heap := map[ROOT := [NULL]]

  /** The pool holds the root, the stack in its slot and its nodes, and nothing else. */
  ghost predicate Rooted(h: Heap, s: Oid, ids: seq<Oid>, vals: seq<int>) {
    && NULL !in h && ROOT in h && h[ROOT] == [s] && s != NULL && s != ROOT && ROOT !in ids
    && PersistentStack.StackAt(h, s, ids, vals)
    && (forall o :: o in h ==> o == ROOT || o == s || o in ids)
  }

  /** The root slot holds `s`, a persistent stack with these values. */
  ghost predicate Shows(h: Heap, s: Oid, vals: seq<int>) {
    exists ids :: Rooted(h, s, ids, vals)
  }

  /** The heap is the state after some prefix of the calls. */
  ghost predicate ShowsPrefix(h: Heap, s: Oid, vals: seq<int>, calls: seq<Call>) {
    exists j :: 0 <= j <= |calls| && Shows(h, s, Replay(vals, calls[..j]))
  }

  method Serve(p: Pool, s: Oid, c: Call, ghost vals: seq<int>) returns (r: Reply)
    requires p.Valid() && p.st.depth == 0 && Shows(Live(p.st), s, vals)
    modifies p
    ensures p.Valid() && p.st.depth == 0 && Shows(Live(p.st), s, UserStack.Next(vals, c))
    ensures r == Answer(vals, c)
    ensures p.images == Record(old(p.images), Live(p.st))
  {
    ghost var h := Live(p.st);
    ghost var ids :| Rooted(h, s, ids, vals);
    match c {
      case Push(v) =>
        ghost var n := PersistentStack.Push(p, s, v);
        PersistentStack.PushKeepsStack(h, s, ids, vals, n, v);
        assert Rooted(Live(p.st), s, [n] + ids, [v] + vals);
        r := Done;
      case Pop =>
        var v := PersistentStack.Pop(p, s, ids, vals);
        if vals != [] {
          PersistentStack.PopKeepsStack(h, s, ids, vals);
          assert Rooted(Live(p.st), s, ids[1..], vals[1..]);
        }
        r := Value(v);
      case IsEmpty =>
        var b := PersistentStack.IsEmpty(p, s);
        r := Flag(b);
      case Print =>
        var out := PersistentStack.Print(p, s, ids, vals);
        r := Listing(out);
    }
    Quiet(p.st);
  }

  method ServeAll(p: Pool, s: Oid, calls: seq<Call>, ghost vals: seq<int>) returns (rs: seq<Reply>)
    requires p.Valid() && p.st.depth == 0 && Shows(Live(p.st), s, vals)
    modifies p
    ensures p.Valid() && p.st.depth == 0 && Shows(Live(p.st), s, Replay(vals, calls))
    ensures rs == Answers(vals, calls)
    ensures old(p.images) <= p.images
    ensures forall k :: |old(p.images)| <= k < |p.images| ==> ShowsPrefix(p.images[k], s, vals, calls)
  {
    hide Shows;
    rs := [];
    for i := 0 to |calls|
      invariant p.Valid() && p.st.depth == 0 && Shows(Live(p.st), s, Replay(vals, calls[..i]))
      invariant rs == Answers(vals, calls[..i])
      invariant old(p.images) <= p.images
      invariant forall k :: |old(p.images)| <= k < |p.images| ==> ShowsPrefix(p.images[k], s, vals, calls)
    {
      ReplayMore(vals, calls, i);
      var r := Serve(p, s, calls[i], Replay(vals, calls[..i]));
      assert ShowsPrefix(Live(p.st), s, vals, calls);
      rs := rs + [r];
    }
    assert calls[..|calls|] == calls;
  }

  /** `pmem_get_or_create` on the root slot of a new pool or of one whose stack exists. */
  method Open(p: Pool, ghost s0: Oid, ghost vals: seq<int>) returns (s: Oid)
    requires p.Valid() && p.st.depth == 0
    requires (Live(p.st) == NEW_POOL && vals == []) || Shows(Live(p.st), s0, vals)
    modifies p
    ensures p.Valid() && p.st.depth == 0 && Shows(Live(p.st), s, vals)
    ensures p.images == Record(old(p.images), Live(p.st))
    ensures old(Live(p.st)) != NEW_POOL ==> s == s0 && p.st == old(p.st)
  {
    ghost var h := Live(p.st);
    s := GetOrCreate(p, ROOT, 0, CONTAINER);
    ContainerWords();
    Quiet(p.st);
    if h == NEW_POOL {
      assert Rooted(Live(p.st), s, [], []);
    }
  }

  /** A new pool, or one whose root slot holds `s`, showing these. */
  ghost predicate IsPool(h: Heap, s: Oid, vals: seq<int>) {
    (h == NEW_POOL && vals == []) || Shows(h, s, vals)
  }

  /** A process that opens the pool and serves its calls until it ends or dies. */
  datatype Process = Process(calls: seq<Call>, crash: Crash)

  /** One process: the pool file that it leaves, and the answers of the calls that returned. */
  method RunProcess(h: Heap, c: Process, ghost s0: Oid, ghost vals: seq<int>)
    returns (h': Heap, s: Oid, rs: seq<Reply>, seen: nat)
    requires IsPool(h, s0, vals)
    ensures Survive(c.crash, |c.calls|, seen) && IsPool(h', s, Replay(vals, c.calls[..seen]))
    ensures rs == Answers(vals, c.calls[..Returned(c.crash, |c.calls|)])
  {
    hide Shows;
    NotNull(h, s0, vals);
    assert c.calls[..0] == [];
    var p := new Pool(h);
    s := Open(p, s0, vals);
    var k := Returned(c.crash, |c.calls|);
    if c.crash.InOpen? {
      h' := p.images[if c.crash.point == 0 then 0 else |p.images| - 1];
      assert h' == h || h' == Live(p.st);
      return h', s, [], 0;
    }
    rs := ServeAll(p, s, c.calls[..k], vals);
    Quiet(p.st);
    h', seen := Live(p.st), k;
    if k < |c.calls| && c.crash.point > 0 {
      ReplayMore(vals, c.calls, k);
      var _ := Serve(p, s, c.calls[k], Replay(vals, c.calls[..k]));
      h', seen := p.images[|p.images| - 1], k + 1;
    }
  }

  /** The calls that survive in the pool, process after process. */
  function Survivors(cs: seq<Process>, seen: seq<nat>): seq<Call>
    requires |seen| == |cs| && forall i :: 0 <= i < |cs| ==> seen[i] <= |cs[i].calls|
    decreases |cs|
  {
    if cs == [] then []
    else
      var n := |cs| - 1;
      Survivors(cs[..n], seen[..n]) + cs[n].calls[..seen[n]]
  }

  /** Process i kept its returned calls, and answered as a user stack that saw exactly the survivors before it. */
  ghost predicate Served(cs: seq<Process>, seen: seq<nat>, answers: seq<seq<Reply>>, i: nat)
    requires i < |cs| && i < |seen| && i < |answers|
    requires forall j :: 0 <= j < i ==> seen[j] <= |cs[j].calls|
  {
    && Survive(cs[i].crash, |cs[i].calls|, seen[i])
    && answers[i] == Answers(Replay([], Survivors(cs[..i], seen[..i])), cs[i].calls[..Returned(cs[i].crash, |cs[i].calls|)])
  }

  /** Any number of processes over one pool file, each ending or dying anywhere. */
  method History(cs: seq<Process>) returns (h: Heap, answers: seq<seq<Reply>>, seen: seq<nat>)
    ensures |answers| == |seen| == |cs|
    ensures forall i :: 0 <= i < |cs| ==> seen[i] <= |cs[i].calls|
    ensures forall i :: 0 <= i < |cs| ==> Served(cs, seen, answers, i)
    ensures exists s :: IsPool(h, s, Replay([], Survivors(cs, seen)))
  {
    hide IsPool, Survive, Survivors;
    h, answers, seen := NEW_POOL, [], [];
    var s := NULL;
    ghost var vals: seq<int> := [];
    Nobody(h, s);
    assert cs[..0] == [];
    for i := 0 to |cs|
      invariant |answers| == |seen| == i
      invariant forall j :: 0 <= j < i ==> seen[j] <= |cs[j].calls|
      invariant forall j :: 0 <= j < i ==> Served(cs, seen, answers, j)
      invariant vals == Replay([], Survivors(cs[..i], seen)) && IsPool(h, s, vals)
    {
      var rs, n;
      ghost var before, after := seen, answers;
      h, s, rs, n := RunProcess(h, cs[i], s, vals);
      SurviveBound(cs[i].crash, |cs[i].calls|, n);
      OneMore(cs[..i + 1], seen, n);
      assert cs[..i + 1][..i] == cs[..i];
      ReplayConcat([], Survivors(cs[..i], seen), cs[i].calls[..n]);
      seen, answers := seen + [n], answers + [rs];
      forall j | 0 <= j <= i ensures Served(cs, seen, answers, j) {
        assert seen[..j] == before[..j];
        if j < i {
          assert Served(cs, before, after, j);
        }
      }
      vals := Replay(vals, cs[i].calls[..n]);
    }
    assert cs[..|cs|] == cs;
  }

  lemma Nobody(h: Heap, s: Oid)
    requires h == NEW_POOL
    ensures IsPool(h, s, []) && Survivors([], []) == []
  {
  }

  lemma OneMore(cs: seq<Process>, seen: seq<nat>, n: nat)
    requires |cs| == |seen| + 1 && (forall i :: 0 <= i < |seen| ==> seen[i] <= |cs[i].calls|) && n <= |cs[|seen|].calls|
    ensures Survivors(cs, seen + [n]) == Survivors(cs[..|seen|], seen) + cs[|seen|].calls[..n]
  {
    assert (seen + [n])[..|seen|] == seen;
  }

  /** The simplest history: one process dies, the next one ends. */
  method CrashAndReopen(calls: seq<Call>, crash: Crash, later: seq<Call>) returns (rs: seq<Reply>, seen: nat)
    ensures crash.InOpen? ==> seen == 0
    ensures crash.InCall? && crash.k < |calls| ==> crash.k <= seen <= crash.k + 1
    ensures crash.Never? ==> seen == |calls|
    ensures seen <= |calls|
    ensures rs == Answers(Replay([], calls[..seen]), later)
  {
    var cs := [Process(calls, crash), Process(later, Never)];
    var h, answers, ns := History(cs);
    assert Served(cs, ns, answers, 0) && Served(cs, ns, answers, 1);
    rs, seen := answers[1], ns[0];
    assert later[..|later|] == later && cs[..1][..0] == [] && ns[..1][..0] == [];
    assert Survivors(cs[..1], ns[..1]) == calls[..seen];
  }

  lemma NotNull(h: Heap, s: Oid, vals: seq<int>)
    requires IsPool(h, s, vals)
    ensures NULL !in h && (h == NEW_POOL ==> vals == [])
  {
  }
}
