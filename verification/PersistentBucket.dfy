/** The generated `persistent<Node>` with its `pmem_string` key and the generated `persistent<Bucket>`. */
module PersistentBucket {
  import opened PmemPool
  import opened PersistentLib
  import S = PmemString
  import U = UserBucket

  // persistent<Node> is [key.data, key.size, count, next]; persistent<Bucket> is [head, size].
  const KEY := 0
  const COUNT := 2
  const NEXT := 3
  const HEAD := 0
  const SIZE := 1

  /** The members of a node as their default constructors leave them: key, count and next. */
  const MEMBERS: seq<Field> := [Plain(NULL), Plain(0), Logged(0), Plain(NULL)]

  /** The blocks of a bucket: nodes, and the payloads of their keys. */
  datatype Parts = Parts(nodes: seq<Oid>, texts: seq<Oid>)

  ghost predicate NodeAt(h: Heap, b: Oid, q: Parts, es: seq<U.Entry>, i: nat)
    requires i < |q.nodes| == |q.texts| == |es|
  {
    && q.nodes[i] != NULL && q.nodes[i] != b && q.texts[i] != NULL && q.texts[i] != b
    && q.nodes[i] in h && q.texts[i] in h
    && h[q.nodes[i]] == [q.texts[i], |es[i].word|, es[i].count, Follow(q.nodes, i + 1)]
    && h[q.texts[i]] == es[i].word + [0]
    && S.IsText(es[i].word)
  }

  /** Block `b` is a bucket with these entries. */
  ghost predicate BucketAt(h: Heap, b: Oid, q: Parts, es: seq<U.Entry>) {
    && |q.nodes| == |q.texts| == |es|
    && b in h && h[b] == [Follow(q.nodes, 0), |es|]
    && (forall i :: 0 <= i < |es| ==> NodeAt(h, b, q, es, i))
    && (forall i, j :: 0 <= i < j < |es| ==> q.nodes[i] != q.nodes[j])
    && (forall i, j :: 0 <= i < |es| && 0 <= j < |es| ==> q.nodes[i] != q.texts[j])
  }

  ghost function AddHeap(h: Heap, b: Oid, n: Oid, t: Oid, w: seq<Word>): Heap
    requires b in h && |h[b]| == 2
  {
    h[n := [t, |w|, 1, h[b][HEAD]]][t := w + [0]][b := [n, h[b][SIZE] + 1]]
  }

  lemma AddKeepsBucket(h: Heap, b: Oid, q: Parts, es: seq<U.Entry>, n: Oid, t: Oid, w: seq<Word>)
    requires BucketAt(h, b, q, es) && n != NULL && n !in h && t != NULL && t !in h && t != n && S.IsText(w)
    ensures BucketAt(AddHeap(h, b, n, t, w), b, Parts([n] + q.nodes, [t] + q.texts), [U.Entry(w, 1)] + es)
  {
    var h', q', es' := AddHeap(h, b, n, t, w), Parts([n] + q.nodes, [t] + q.texts), [U.Entry(w, 1)] + es;
    forall i | 0 <= i < |es'| ensures NodeAt(h', b, q', es', i) {
      if i > 0 {
        assert NodeAt(h, b, q, es, i - 1);
        assert q'.nodes[i] == q.nodes[i - 1] && q'.texts[i] == q.texts[i - 1] && es'[i] == es[i - 1];
        assert Follow(q'.nodes, i + 1) == Follow(q.nodes, i);
      }
    }
    forall i, j | 0 <= i < |es'| && 0 <= j < |es'| ensures q'.nodes[i] != q'.texts[j] && (i < j ==> q'.nodes[i] != q'.nodes[j]) {
      assert i > 0 ==> NodeAt(h, b, q, es, i - 1);
      assert j > 0 ==> NodeAt(h, b, q, es, j - 1);
    }
  }

  lemma BumpKeepsBucket(h: Heap, b: Oid, q: Parts, es: seq<U.Entry>, k: nat)
    requires BucketAt(h, b, q, es) && k < |es|
    ensures InBounds(h, q.nodes[k], COUNT)
    ensures BucketAt(Poke(h, q.nodes[k], COUNT, es[k].count + 1), b, q, es[k := U.Entry(es[k].word, es[k].count + 1)])
  {
    assert NodeAt(h, b, q, es, k);
    var h', es' := Poke(h, q.nodes[k], COUNT, es[k].count + 1), es[k := U.Entry(es[k].word, es[k].count + 1)];
    forall i | 0 <= i < |es'| ensures NodeAt(h', b, q, es', i) {
      assert NodeAt(h, b, q, es, i);
    }
  }

  /** `new persistent<Node>(word)`: members first, then the constructor body in its own nested transaction. */
  method NewNode(p: Pool, word: seq<Word>) returns (n: Oid, ghost t: Oid)
    requires p.Valid() && p.st.depth > 0 && S.IsText(word)
    modifies p
    ensures n != NULL && n !in old(Live(p.st)) && t != NULL && t !in old(Live(p.st)) && t != n
    ensures Pending(old(p.st), p.st, old(Live(p.st))[n := [t, |word|, 1, NULL]][t := word + [0]])
    ensures p.Valid() && p.images == old(p.images)
  {
    ghost var h := Live(p.st);
    n := Construct(p, MEMBERS);
    MembersWords();
    p.Begin();
    var ok := p.Store(n, COUNT, 1);
    PokeNew(h, n, [NULL, 0, 0, NULL], COUNT, 1);
    assert [NULL, 0, 0, NULL][COUNT := 1] == [NULL, 0, 1, NULL];
    ok := p.Store(n, NEXT, NULL);
    PokeNew(h, n, [NULL, 0, 1, NULL], NEXT, NULL);
    assert [NULL, 0, 1, NULL][NEXT := NULL] == [NULL, 0, 1, NULL];
    ok, t := S.Assign(p, n, KEY, S.Dram(word), word, []);
    AssignNew(h, n, t, word);
    p.End();
  }

  lemma AssignNew(h: Heap, n: Oid, t: Oid, word: seq<Word>)
    requires n != t
    ensures S.AssignHeap(h[n := [NULL, 0, 1, NULL]], n, KEY, t, word) == h[n := [t, |word|, 1, NULL]][t := word + [0]]
  {
    assert [NULL, 0, 1, NULL][KEY + S.DATA := t][KEY + S.LENGTH := |word|] == [t, |word|, 1, NULL];
  }

  lemma MembersWords()
    ensures Words(MEMBERS) == [NULL, 0, 0, NULL]
  {
  }

  /** The chain walk of `insert` and `getCount`. */
  method Locate(p: Pool, b: Oid, word: seq<Word>, ghost q: Parts, ghost es: seq<U.Entry>) returns (cur: Oid, ghost i: nat)
    requires p.Valid() && BucketAt(Live(p.st), b, q, es) && S.IsText(word)
    ensures i == U.Find(es, word) && (cur == NULL <==> i == |es|)
    ensures cur == Follow(q.nodes, U.Find(es, word))
  {
    cur := p.Read(b, HEAD);
    i := 0;
    while cur != NULL
      invariant i <= |es| && cur == Follow(q.nodes, i)
      invariant forall j :: 0 <= j < i ==> es[j].word != word
      decreases |es| - i
    {
      assert NodeAt(Live(p.st), b, q, es, i);
      var same := S.Equals(p, cur, KEY, word, es[i].word);
      if same {
        return;
      }
      cur := p.Read(cur, NEXT);
      i := i + 1;
    }
    FollowEnds(Live(p.st), b, q, es, i);
  }

  lemma FollowEnds(h: Heap, b: Oid, q: Parts, es: seq<U.Entry>, i: nat)
    requires BucketAt(h, b, q, es) && i <= |es|
    ensures Follow(q.nodes, i) == NULL <==> i == |es|
  {
    if i < |es| {
      assert NodeAt(h, b, q, es, i);
    }
  }

  /** `persistent<Bucket>::insert`: one transaction that bumps a count or links a new node. */
  method Insert(p: Pool, b: Oid, word: seq<Word>, ghost q: Parts, ghost es: seq<U.Entry>)
    returns (ghost n: Oid, ghost t: Oid)
    requires p.Valid() && BucketAt(Live(p.st), b, q, es) && S.IsText(word)
    modifies p
    ensures
      var h, i := old(Live(p.st)), U.Find(es, word);
      if i < |es| then
        && InBounds(h, q.nodes[i], COUNT)
        && Committed(old(p.st), p.st, Poke(h, q.nodes[i], COUNT, es[i].count + 1))
      else
        && n != NULL && n !in h && t != NULL && t !in h && t != n
        && Committed(old(p.st), p.st, AddHeap(h, b, n, t, word))
    ensures p.Valid() && p.images == Record(old(p.images), Recover(p.st))
  {
    ghost var h := Live(p.st);
    n, t := NULL, NULL;
    p.Begin();
    var cur;
    ghost var i;
    cur, i := Locate(p, b, word, q, es);
    if cur != NULL {
      assert NodeAt(h, b, q, es, i);
      var ok := p.Store(cur, COUNT, p.Read(cur, COUNT) + 1);
    } else {
      var node;
      node, t := NewNode(p, word);
      n := node;
      Link(p, b, node, h, t, word);
    }
    p.End();
  }

  method Link(p: Pool, b: Oid, node: Oid, ghost h: Heap, ghost t: Oid, ghost word: seq<Word>)
    requires p.Valid() && p.st.depth > 0
    requires b in h && |h[b]| == 2 && node !in h && t !in h && node != t
    requires Live(p.st) == h[node := [t, |word|, 1, NULL]][t := word + [0]]
    modifies p
    ensures Pending(old(p.st), p.st, AddHeap(h, b, node, t, word))
    ensures p.Valid() && p.images == old(p.images)
  {
    var ok := p.Store(node, NEXT, p.Read(b, HEAD));
    assert Live(p.st)[node] == [t, |word|, 1, h[b][HEAD]];
    ok := p.Store(b, HEAD, node);
    ok := p.Store(b, SIZE, p.Read(b, SIZE) + 1);
    assert Live(p.st)[b] == [node, h[b][SIZE] + 1];
    assert Live(p.st) == AddHeap(h, b, node, t, word);
  }

  /** `persistent<Bucket>::getCount`. */
  method GetCount(p: Pool, b: Oid, word: seq<Word>, ghost q: Parts, ghost es: seq<U.Entry>) returns (c: int)
    requires p.Valid() && BucketAt(Live(p.st), b, q, es) && S.IsText(word)
    modifies p
    ensures c == U.Count(es, word)
    ensures Committed(old(p.st), p.st, old(Live(p.st)))
    ensures p.Valid() && p.images == Record(old(p.images), Recover(p.st))
  {
    p.Begin();
    var cur;
    ghost var i;
    cur, i := Locate(p, b, word, q, es);
    c := 0;
    if cur != NULL {
      assert NodeAt(Live(p.st), b, q, es, i);
      c := p.Read(cur, COUNT);
    }
    p.End();
  }
}
