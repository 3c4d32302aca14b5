/** The generated bucket answers every sequence of calls as the user's bucket does, also across any
    number of crashes, and its pool never holds an orphaned block. */
module BucketRewrite {
  import opened PmemPool
  import opened PersistentLib
  import S = PmemString
  import U = UserBucket
  import B = PersistentBucket
  import opened Crashes

  /** The root object: one slot for the bucket. */
  const ROOT: Oid := 1
  const NEW_POOL: Heap := map[ROOT := [NULL]]

  predicate AllText(calls: seq<U.Call>) {
    forall i :: 0 <= i < |calls| ==> S.IsText(calls[i].word)
  }

  /** The pool holds the root, the bucket in its slot, its nodes and their keys, and nothing else. */
  ghost predicate Rooted(h: Heap, b: Oid, q: B.Parts, es: seq<U.Entry>) {
    && NULL !in h && ROOT in h && h[ROOT] == [b] && b != NULL && b != ROOT
    && ROOT !in q.nodes && ROOT !in q.texts
    && B.BucketAt(h, b, q, es)
    && (forall o :: o in h ==> o == ROOT || o == b || o in q.nodes || o in q.texts)
  }

  ghost predicate Shows(h: Heap, b: Oid, es: seq<U.Entry>) {
    exists q :: Rooted(h, b, q, es)
  }

  ghost predicate ShowsPrefix(h: Heap, b: Oid, es: seq<U.Entry>, calls: seq<U.Call>) {
    exists j :: 0 <= j <= |calls| && Shows(h, b, U.Replay(es, calls[..j]))
  }

  lemma AddRooted(h: Heap, b: Oid, q: B.Parts, es: seq<U.Entry>, n: Oid, t: Oid, w: seq<Word>)
    requires Rooted(h, b, q, es) && n != NULL && n !in h && t != NULL && t !in h && t != n && S.IsText(w)
    ensures Rooted(B.AddHeap(h, b, n, t, w), b, B.Parts([n] + q.nodes, [t] + q.texts), [U.Entry(w, 1)] + es)
  {
    B.AddKeepsBucket(h, b, q, es, n, t, w);
    hide B.BucketAt;
    assert b in h && |h[b]| == 2;
    var q' := B.Parts([n] + q.nodes, [t] + q.texts);
    forall o | o in B.AddHeap(h, b, n, t, w) ensures o == ROOT || o == b || o in q'.nodes || o in q'.texts {
      if o == n {
        assert q'.nodes[0] == n;
      } else if o == t {
        assert q'.texts[0] == t;
      }
    }
  }

  lemma BumpRooted(h: Heap, b: Oid, q: B.Parts, es: seq<U.Entry>, k: nat)
    requires Rooted(h, b, q, es) && k < |es|
    ensures InBounds(h, q.nodes[k], B.COUNT)
    ensures Rooted(Poke(h, q.nodes[k], B.COUNT, es[k].count + 1), b, q, es[k := U.Entry(es[k].word, es[k].count + 1)])
  {
    B.BumpKeepsBucket(h, b, q, es, k);
  }

  method Serve(p: Pool, b: Oid, c: U.Call, ghost es: seq<U.Entry>) returns (r: int)
    requires p.Valid() && p.st.depth == 0 && Shows(Live(p.st), b, es) && S.IsText(c.word)
    modifies p
    ensures p.Valid() && p.st.depth == 0 && Shows(Live(p.st), b, U.Next(es, c))
    ensures c.GetCount? ==> r == U.Count(es, c.word)
    ensures p.images == Record(old(p.images), Live(p.st))
  {
    ghost var h := Live(p.st);
    ghost var q :| Rooted(h, b, q, es);
    r := 0;
    if c.Insert? {
      ghost var n, t := B.Insert(p, b, c.word, q, es);
      ghost var i := U.Find(es, c.word);
      if i < |es| {
        BumpRooted(h, b, q, es, i);
      } else {
        AddRooted(h, b, q, es, n, t, c.word);
      }
    } else {
      r := B.GetCount(p, b, c.word, q, es);
    }
    Quiet(p.st);
  }

  method ServeAll(p: Pool, b: Oid, calls: seq<U.Call>, ghost es: seq<U.Entry>) returns (rs: seq<int>)
    requires p.Valid() && p.st.depth == 0 && Shows(Live(p.st), b, es) && AllText(calls)
    modifies p
    ensures p.Valid() && p.st.depth == 0 && Shows(Live(p.st), b, U.Replay(es, calls))
    ensures rs == U.Answers(es, calls)
    ensures old(p.images) <= p.images
    ensures forall k :: |old(p.images)| <= k < |p.images| ==> ShowsPrefix(p.images[k], b, es, calls)
  {
    hide Shows;
    rs := [];
    for i := 0 to |calls|
      invariant p.Valid() && p.st.depth == 0 && Shows(Live(p.st), b, U.Replay(es, calls[..i]))
      invariant rs == U.Answers(es, calls[..i])
      invariant old(p.images) <= p.images
      invariant forall k :: |old(p.images)| <= k < |p.images| ==> ShowsPrefix(p.images[k], b, es, calls)
    {
      U.ReplayMore(es, calls, i);
      var r := Serve(p, b, calls[i], U.Replay(es, calls[..i]));
      assert ShowsPrefix(Live(p.st), b, es, calls);
      if calls[i].GetCount? {
        rs := rs + [r];
      }
    }
    assert calls[..|calls|] == calls;
  }

  /** `pmem_get_or_create<persistent<Bucket>>` on the root slot. */
  method Open(p: Pool, ghost b0: Oid, ghost es: seq<U.Entry>) returns (b: Oid)
    requires p.Valid() && p.st.depth == 0
    requires (Live(p.st) == NEW_POOL && es == []) || Shows(Live(p.st), b0, es)
    modifies p
    ensures p.Valid() && p.st.depth == 0 && Shows(Live(p.st), b, es)
    ensures p.images == Record(old(p.images), Live(p.st))
    ensures old(Live(p.st)) != NEW_POOL ==> b == b0 && p.st == old(p.st)
  {
    ghost var h := Live(p.st);
    b := GetOrCreate(p, ROOT, 0, CONTAINER);
    ContainerWords();
    Quiet(p.st);
    if h == NEW_POOL {
      assert Live(p.st)[ROOT] == [b];
      assert Rooted(Live(p.st), b, B.Parts([], []), []);
    }
  }

  /** A new pool, or one whose root slot holds `b`, showing these. */
  ghost predicate IsPool(h: Heap, b: Oid, es: seq<U.Entry>) {
    (h == NEW_POOL && es == []) || Shows(h, b, es)
  }

  /** A process that opens the pool and serves its calls until it ends or dies. */
  datatype Process = Process(calls: seq<U.Call>, crash: Crash)

  /** One process: the pool file that it leaves, and the answers of the calls that returned. */
  method RunProcess(h: Heap, c: Process, ghost b0: Oid, ghost es: seq<U.Entry>)
    returns (h': Heap, b: Oid, rs: seq<int>, seen: nat)
    requires IsPool(h, b0, es) && AllText(c.calls)
    ensures Survive(c.crash, |c.calls|, seen) && IsPool(h', b, U.Replay(es, c.calls[..seen]))
    ensures rs == U.Answers(es, c.calls[..Returned(c.crash, |c.calls|)])
  {
    hide Shows;
    NotNull(h, b0, es);
    assert c.calls[..0] == [];
    var p := new Pool(h);
    b := Open(p, b0, es);
    var k := Returned(c.crash, |c.calls|);
    if c.crash.InOpen? {
      h' := p.images[if c.crash.point == 0 then 0 else |p.images| - 1];
      assert h' == h || h' == Live(p.st);
      return h', b, [], 0;
    }
    rs := ServeAll(p, b, c.calls[..k], es);
    Quiet(p.st);
    h', seen := Live(p.st), k;
    if k < |c.calls| && c.crash.point > 0 {
      U.ReplayMore(es, c.calls, k);
      var _ := Serve(p, b, c.calls[k], U.Replay(es, c.calls[..k]));
      h', seen := p.images[|p.images| - 1], k + 1;
    }
  }

  /** The calls that survive in the pool, process after process. */
  function Survivors(cs: seq<Process>, seen: seq<nat>): seq<U.Call>
    requires |seen| == |cs| && forall i :: 0 <= i < |cs| ==> seen[i] <= |cs[i].calls|
    decreases |cs|
  {
    if cs == [] then []
    else
      var n := |cs| - 1;
      Survivors(cs[..n], seen[..n]) + cs[n].calls[..seen[n]]
  }

  /** Process i kept its returned calls, and answered as a user bucket that saw exactly the survivors before it. */
  ghost predicate Served(cs: seq<Process>, seen: seq<nat>, answers: seq<seq<int>>, i: nat)
    requires i < |cs| && i < |seen| && i < |answers|
    requires forall j :: 0 <= j < i ==> seen[j] <= |cs[j].calls|
  {
    && Survive(cs[i].crash, |cs[i].calls|, seen[i])
    && answers[i] == U.Answers(U.Replay([], Survivors(cs[..i], seen[..i])), cs[i].calls[..Returned(cs[i].crash, |cs[i].calls|)])
  }

  /** Any number of processes over one pool file, each ending or dying anywhere. */
  method History(cs: seq<Process>) returns (h: Heap, answers: seq<seq<int>>, seen: seq<nat>)
    requires forall i :: 0 <= i < |cs| ==> AllText(cs[i].calls)
    ensures |answers| == |seen| == |cs|
    ensures forall i :: 0 <= i < |cs| ==> seen[i] <= |cs[i].calls|
    ensures forall i :: 0 <= i < |cs| ==> Served(cs, seen, answers, i)
    ensures exists b :: IsPool(h, b, U.Replay([], Survivors(cs, seen)))
  {
    hide IsPool, Survive, Survivors;
    h, answers, seen := NEW_POOL, [], [];
    var b := NULL;
    ghost var es: seq<U.Entry> := [];
    Nobody(h, b);
    assert cs[..0] == [];
    for i := 0 to |cs|
      invariant |answers| == |seen| == i
      invariant forall j :: 0 <= j < i ==> seen[j] <= |cs[j].calls|
      invariant forall j :: 0 <= j < i ==> Served(cs, seen, answers, j)
      invariant es == U.Replay([], Survivors(cs[..i], seen)) && IsPool(h, b, es)
    {
      var rs, n;
      ghost var before, after := seen, answers;
      h, b, rs, n := RunProcess(h, cs[i], b, es);
      SurviveBound(cs[i].crash, |cs[i].calls|, n);
      OneMore(cs[..i + 1], seen, n);
      assert cs[..i + 1][..i] == cs[..i];
      U.ReplayConcat([], Survivors(cs[..i], seen), cs[i].calls[..n]);
      seen, answers := seen + [n], answers + [rs];
      forall j | 0 <= j <= i ensures Served(cs, seen, answers, j) {
        assert seen[..j] == before[..j];
        if j < i {
          assert Served(cs, before, after, j);
        }
      }
      es := U.Replay(es, cs[i].calls[..n]);
    }
    assert cs[..|cs|] == cs;
  }

  lemma Nobody(h: Heap, b: Oid)
    requires h == NEW_POOL
    ensures IsPool(h, b, []) && Survivors([], []) == []
  {
  }

  lemma OneMore(cs: seq<Process>, seen: seq<nat>, n: nat)
    requires |cs| == |seen| + 1 && (forall i :: 0 <= i < |seen| ==> seen[i] <= |cs[i].calls|) && n <= |cs[|seen|].calls|
    ensures Survivors(cs, seen + [n]) == Survivors(cs[..|seen|], seen) + cs[|seen|].calls[..n]
  {
    assert (seen + [n])[..|seen|] == seen;
  }

  /** The simplest history: one process dies, the next one ends. */
  method CrashAndReopen(calls: seq<U.Call>, crash: Crash, later: seq<U.Call>) returns (rs: seq<int>, seen: nat)
    requires AllText(calls) && AllText(later)
    ensures crash.InOpen? ==> seen == 0
    ensures crash.InCall? && crash.k < |calls| ==> crash.k <= seen <= crash.k + 1
    ensures crash.Never? ==> seen == |calls|
    ensures seen <= |calls|
    ensures rs == U.Answers(U.Replay([], calls[..seen]), later)
  {
    var cs := [Process(calls, crash), Process(later, Never)];
    var h, answers, ns := History(cs);
    assert Served(cs, ns, answers, 0) && Served(cs, ns, answers, 1);
    rs, seen := answers[1], ns[0];
    assert later[..|later|] == later && cs[..1][..0] == [] && ns[..1][..0] == [];
    assert Survivors(cs[..1], ns[..1]) == calls[..seen];
  }

  lemma NotNull(h: Heap, b: Oid, es: seq<U.Entry>)
    requires IsPool(h, b, es)
    ensures NULL !in h && (h == NEW_POOL ==> es == [])
  {
  }
}
