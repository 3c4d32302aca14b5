/** The `persistent<Node>` and `persistent<Stack>` specialisations that the tool generates
    from the user's Node and Stack, working on blocks of the pool. */
module PersistentStack {
  import opened PmemPool
  import opened PersistentLib

  // persistent<Node> is the block [value, next]; persistent<Stack> is the block [top, size].
  const VALUE := 0
  const NEXT := 1
  const TOP := 0
  const SIZE := 1

  /** Block `s` is a stack whose nodes are the blocks `ids`, top first, holding `vals`. */
  ghost predicate StackAt(h: Heap, s: Oid, ids: seq<Oid>, vals: seq<int>) {
    && |ids| == |vals|
    && s in h && h[s] == [Follow(ids, 0), |vals|]
    && (forall i :: 0 <= i < |ids| ==>
                      ids[i] != NULL && ids[i] != s && ids[i] in h && h[ids[i]] == [vals[i], Follow(ids, i + 1)])
    && (forall i, j :: 0 <= i < j < |ids| ==> ids[i] != ids[j])
  }

  ghost function PushHeap(h: Heap, s: Oid, n: Oid, v: int): Heap
    requires s in h && |h[s]| == 2
  {
    h[n := [v, h[s][TOP]]][s := [n, h[s][SIZE] + 1]]
  }

  ghost function PopHeap(h: Heap, s: Oid): Heap
    requires s in h && |h[s]| == 2 && h[s][TOP] in h && |h[h[s][TOP]]| == 2
  {
    h[s := [h[h[s][TOP]][NEXT], h[s][SIZE] - 1]] - {h[s][TOP]}
  }

  lemma PushKeepsStack(h: Heap, s: Oid, ids: seq<Oid>, vals: seq<int>, n: Oid, v: int)
    requires StackAt(h, s, ids, vals) && n != NULL && n !in h
    ensures StackAt(PushHeap(h, s, n, v), s, [n] + ids, [v] + vals)
  {
    var h', ids' := PushHeap(h, s, n, v), [n] + ids;
    assert Follow(ids', 1) == Follow(ids, 0);
    forall i | 0 <= i < |ids'|
      ensures ids'[i] != NULL && ids'[i] != s && ids'[i] in h' && h'[ids'[i]] == [([v] + vals)[i], Follow(ids', i + 1)]
    {
      if i > 0 {
        assert ids'[i] == ids[i - 1] && Follow(ids', i + 1) == Follow(ids, i);
      }
    }
  }

  lemma PopKeepsStack(h: Heap, s: Oid, ids: seq<Oid>, vals: seq<int>)
    requires StackAt(h, s, ids, vals) && vals != []
    ensures StackAt(PopHeap(h, s), s, ids[1..], vals[1..])
  {
    var h', ids' := PopHeap(h, s), ids[1..];
    assert h[ids[0]] == [vals[0], Follow(ids, 1)];
    forall i | 0 <= i < |ids'|
      ensures ids'[i] != NULL && ids'[i] != s && ids'[i] in h' && h'[ids'[i]] == [vals[1..][i], Follow(ids', i + 1)]
    {
      assert ids'[i] == ids[i + 1] && Follow(ids', i + 1) == Follow(ids, i + 2);
      assert ids[0] != ids[i + 1];
    }
  }

  /** A stack reads only its own block and its nodes. */
  lemma StackFrame(h: Heap, g: Heap, s: Oid, ids: seq<Oid>, vals: seq<int>)
    requires StackAt(h, s, ids, vals)
    requires s in g && g[s] == h[s]
    requires forall i :: 0 <= i < |ids| ==> ids[i] in g && g[ids[i]] == h[ids[i]]
    ensures StackAt(g, s, ids, vals)
  {
  }

  /** `new persistent<Node>(v)` inside a transaction: the value is stored through the log, the null
      link is plain initialisation of a block that rollback would discard. */
  method NewNode(p: Pool, v: int) returns (n: Oid)
    requires p.Valid() && p.st.depth > 0
    modifies p
    ensures n != NULL && n !in old(Live(p.st))
    ensures Pending(old(p.st), p.st, old(Live(p.st))[n := [v, NULL]])
    ensures p.Valid() && p.images == old(p.images)
  {
    n := Construct(p, [Logged(v), Plain(NULL)]);
    assert Words([Logged(v), Plain(NULL)]) == [v, NULL];
    p.Begin();
    p.End();
  }

  /** `persistent<Stack>::push`: one transaction that allocates, initialises and links a node. */
  method Push(p: Pool, s: Oid, v: int) returns (ghost n: Oid)
    requires p.Valid() && s in Live(p.st) && |Live(p.st)[s]| == 2
    modifies p
    ensures n != NULL && n !in old(Live(p.st))
    ensures Committed(old(p.st), p.st, PushHeap(old(Live(p.st)), s, n, v))
    ensures p.Valid() && p.images == Record(old(p.images), Recover(p.st))
  {
    ghost var h := Live(p.st);
    p.Begin();
    var node := NewNode(p, v);
    var ok := p.Store(node, NEXT, p.Read(s, TOP));
    ok := p.Store(s, TOP, node);
    ok := p.Store(s, SIZE, p.Read(s, SIZE) + 1);
    n := node;
    assert Live(p.st) == PushHeap(h, s, n, v) by {
      assert Live(p.st)[n] == [v, h[s][TOP]];
      assert Live(p.st)[s] == [n, h[s][SIZE] + 1];
    }
    p.End();
  }

  /** `persistent<Stack>::pop`: one transaction; 0 on the empty stack, which it leaves alone. */
  method Pop(p: Pool, s: Oid, ghost ids: seq<Oid>, ghost vals: seq<int>) returns (v: int)
    requires p.Valid() && StackAt(Live(p.st), s, ids, vals)
    modifies p
    ensures v == if vals == [] then 0 else vals[0]
    ensures Committed(old(p.st), p.st, if vals == [] then old(Live(p.st)) else PopHeap(old(Live(p.st)), s))
    ensures p.Valid() && p.images == Record(old(p.images), Recover(p.st))
  {
    ghost var h := Live(p.st);
    p.Begin();
    var top := p.Read(s, TOP);
    if top == NULL {
      v := 0;
    } else {
      assert top == ids[0];
      v := p.Read(top, VALUE);
      var ok := p.Store(s, TOP, p.Read(top, NEXT));
      ok := p.Store(s, SIZE, p.Read(s, SIZE) - 1);
      p.Free(top);
      assert Live(p.st) == PopHeap(h, s) by {
        assert Live(p.st)[s] == [h[top][NEXT], h[s][SIZE] - 1];
      }
    }
    p.End();
  }

  method IsEmpty(p: Pool, s: Oid) returns (empty: bool)
    requires p.Valid() && s in Live(p.st) && |Live(p.st)[s]| == 2
    modifies p
    ensures empty <==> old(Live(p.st))[s][SIZE] == 0
    ensures Committed(old(p.st), p.st, old(Live(p.st)))
    ensures p.Valid() && p.images == Record(old(p.images), Recover(p.st))
  {
    p.Begin();
    empty := p.Read(s, SIZE) == 0;
    p.End();
  }

  /** `persistent<Stack>::print`, returning what it would write. */
  method Print(p: Pool, s: Oid, ghost ids: seq<Oid>, ghost vals: seq<int>) returns (out: seq<int>)
    requires p.Valid() && StackAt(Live(p.st), s, ids, vals)
    modifies p
    ensures out == vals
    ensures Committed(old(p.st), p.st, old(Live(p.st)))
    ensures p.Valid() && p.images == Record(old(p.images), Recover(p.st))
  {
    p.Begin();
    var cur := p.Read(s, TOP);
    out := [];
    ghost var i := 0;
    while cur != NULL
      invariant 0 <= i <= |ids|
      invariant cur == Follow(ids, i)
      invariant out == vals[..i]
      decreases |ids| - i
    {
      assert cur == ids[i];
      out := out + [p.Read(cur, VALUE)];
      cur := p.Read(cur, NEXT);
      i := i + 1;
    }
    assert i == |ids|;
    p.End();
  }
}
