/** persistentLib on top of the pool: `persistent<T>`, `pmem_ptr`, transactions,
    transactional allocation and free. */
module PersistentLib {
  import opened PmemPool
  import Names

  /** Appends the heap that a crash would now recover, unless that is what the last one recovered too. */
  function Record(images: seq<Heap>, h: Heap): seq<Heap> {
    if images != [] && images[|images| - 1] == h then images else images + [h]
  }

  /** What an operation inside a transaction does: the live heap becomes `live`, and nothing of it is durable yet. */
  ghost predicate Pending(s: State, t: State, live: Heap) {
    && WellFormed(t)
    && t.depth == s.depth
    && s.born <= t.born && s.log <= t.log
    && Live(t) == live
    && Recover(t) == Recover(s)
  }

  /** What a whole `transaction::run` does: as above when it is nested, durable at once when it is not. */
  ghost predicate Committed(s: State, t: State, live: Heap) {
    && WellFormed(t)
    && t.depth == s.depth
    && s.born <= t.born && s.log <= t.log
    && Live(t) == live
    && Recover(t) == if s.depth > 0 then Recover(s) else live
  }

  /** What is covered stays covered while the transaction goes on. */
  lemma StaysCovered(s: State, t: State, oid: Oid, off: nat)
    requires Covered(s, oid, off) && s.born <= t.born && s.log <= t.log
    ensures Covered(t, oid, off)
  {
    if Mentions(s.log, oid, off) {
      var i :| 0 <= i < |s.log| && s.log[i].oid == oid && s.log[i].off == off;
      assert t.log[i] == s.log[i];
    }
  }

  lemma Quiet(s: State)
    requires WellFormed(s) && s.depth == 0
    ensures Live(s) == s.heap == Recover(s)
  {
  }

  lemma FreshOid(h: Heap) returns (o: Oid)
    ensures o != NULL && o !in h
  {
    o := Names.Above(h.Keys);
  }

  class Pool {
    var st: State
    /** Every heap that a crash after some step since the pool was opened would have left to the
        next run, in order and without stuttering. */
    var images: seq<Heap>

    ghost predicate Valid()
      reads this
    {
      WellFormed(st) && images != [] && images[|images| - 1] == Recover(st)
    }

    /** Opening the pool file. */
    constructor (h: Heap)
      requires NULL !in h
      ensures st == State(h, 0, [], {}, {}) && images == [h]
      ensures Valid() && Live(st) == h && Recover(st) == h
    {
      st := State(h, 0, [], {}, {});
      images := [h];
    }

    /** One PMDK call or one store.  Every change of a pool goes through here. */
    method Step(a: Action)
      requires Enabled(st, a)
      modifies this
      ensures st == Next(old(st), a)
      ensures images == Record(old(images), Recover(st))
    {
      st := Next(st, a);
      images := Record(images, Recover(st));
    }

    function Read(oid: Oid, off: nat): Word
      requires InBounds(Live(st), oid, off)
      reads this
    {
      st.heap[oid][off]
    }

    method Begin()
      requires Valid()
      modifies this
      ensures Valid() && st == old(st).(depth := old(st).depth + 1)
      ensures Live(st) == old(Live(st)) && Recover(st) == old(Recover(st))
      ensures images == old(images)
    {
      Step(PmemPool.Begin);
    }

    method End()
      requires Valid() && st.depth > 0
      modifies this
      ensures Valid() && st.depth == old(st).depth - 1
      ensures st.depth > 0 ==> st.born == old(st).born && st.log == old(st).log && Recover(st) == old(Recover(st))
      ensures st.depth == 0 ==> st.born == {} && Recover(st) == old(Live(st))
      ensures Live(st) == old(Live(st))
      ensures images == Record(old(images), Recover(st))
    {
      StepKeepsWellFormed(st, PmemPool.End);
      Step(PmemPool.End);
      if st.depth == 0 {
        Quiet(st);
      }
    }

    /** `persistent<T>::store`, and `pmem_ptr::operator=` on a slot inside the pool: snapshot, then
        write.  Outside a transaction the snapshot fails and nothing is written. */
    method Store(oid: Oid, off: nat, w: Word) returns (ok: bool)
      requires Valid() && InBounds(Live(st), oid, off)
      modifies this
      ensures ok <==> old(st).depth > 0
      ensures !ok ==> st == old(st)
      ensures ok ==> Pending(old(st), st, Poke(old(Live(st)), oid, off, w)) && st.born == old(st).born
      ensures Valid() && images == old(images)
    {
      if st.depth == 0 {
        return false;
      }
      var snapped := AddRange(oid, off, 1);
      Write(oid, off, w);
      return true;
    }

    /** A plain store to a word that rollback restores or discards anyway: a field of a block that this
        transaction allocated, or one that it has already snapshotted. */
    method Write(oid: Oid, off: nat, w: Word)
      requires Valid() && st.depth > 0 && InBounds(Live(st), oid, off) && Covered(st, oid, off)
      modifies this
      ensures Pending(old(st), st, Poke(old(Live(st)), oid, off, w)) && st.born == old(st).born
      ensures Valid() && images == old(images)
    {
      var write := PmemPool.Write(oid, off, w);
      StepKeepsWellFormed(st, write);
      StepKeepsImage(st, write);
      Step(write);
      assert Live(st) == Poke(old(Live(st)), oid, off, w);
    }

    /** `pmemobj_tx_add_range_direct`: fails outside a transaction. */
    method AddRange(oid: Oid, off: nat, len: nat) returns (ok: bool)
      requires Valid() && oid in Live(st) && off + len <= |Live(st)[oid]|
      modifies this
      ensures ok <==> old(st).depth > 0
      ensures Valid() && images == old(images)
      ensures !ok ==> st == old(st)
      ensures ok ==> Pending(old(st), st, old(Live(st))) && st.born == old(st).born
      ensures ok ==> forall k :: off <= k < off + len ==> Covered(st, oid, k)
    {
      if st.depth == 0 {
        return false;
      }
      var snap := PmemPool.AddRange(oid, off, len);
      StepKeepsWellFormed(st, snap);
      StepKeepsImage(st, snap);
      ghost var n, es := |st.log|, Snapshot(st.heap, oid, off, len);
      Step(snap);
      forall k | off <= k < off + len ensures Covered(st, oid, k) {
        assert st.log[n + (k - off)] == es[k - off];
      }
      return true;
    }

    /** `pmem_alloc`: a block nobody else has, of unknown contents; undone by rollback when in a transaction. */
    method Alloc(size: nat) returns (oid: Oid, ghost contents: seq<Word>)
      requires Valid()
      modifies this
      ensures oid != NULL && oid !in old(st).heap && |contents| == size
      ensures oid !in old(Live(st))
      ensures Committed(old(st), st, old(Live(st))[oid := contents])
      ensures st.depth > 0 ==> st.born == old(st).born + {oid}
      ensures st.depth == 0 ==> st.born == {}
      ensures Valid() && images == Record(old(images), Recover(st))
    {
      ghost var unused := FreshOid(st.heap);
      oid :| oid != NULL && oid !in st.heap;
      var junk: seq<Word> := *;
      if |junk| != size {
        junk := seq(size, _ => 0);
      }
      contents := junk;
      var a := PmemPool.Alloc(oid, junk);
      StepKeepsWellFormed(st, a);
      if st.depth > 0 {
        StepKeepsImage(st, a);
      }
      Step(a);
      assert Live(st) == old(Live(st))[oid := contents];
      if st.depth == 0 {
        Quiet(st);
      }
    }

    /** `pmem_free`: deferred to the commit inside a transaction, at once outside. */
    method Free(oid: Oid)
      requires Valid() && oid in Live(st)
      modifies this
      ensures Committed(old(st), st, old(Live(st)) - {oid}) && st.born == old(st).born
      ensures Valid() && images == Record(old(images), Recover(st))
    {
      var a := PmemPool.Free(oid);
      StepKeepsWellFormed(st, a);
      if st.depth > 0 {
        StepKeepsImage(st, a);
      }
      Step(a);
      assert Live(st) == old(Live(st)) - {oid};
      if st.depth == 0 {
        Quiet(st);
      }
    }
  }

  /** A member of an object under construction: `persistent<T>` stores its word through the log, the
      constructors of `pmem_ptr` and `pmem_string` write it plainly. */
  datatype Field = Plain(w: Word) | Logged(w: Word)

  function Words(init: seq<Field>): (ws: seq<Word>)
    ensures |ws| == |init| && forall i :: 0 <= i < |init| ==> ws[i] == init[i].w
  {
    seq(|init|, i requires 0 <= i < |init| => init[i].w)
  }

  /** `new T(...)` inside a transaction: allocation, then the members in order. */
  method Construct(p: Pool, init: seq<Field>) returns (s: Oid)
    requires p.Valid() && p.st.depth > 0
    modifies p
    ensures p.Valid() && p.images == old(p.images)
    ensures s != NULL && s !in old(Live(p.st))
    ensures Pending(old(p.st), p.st, old(Live(p.st))[s := Words(init)])
  {
    ghost var h, s0, block := Live(p.st), p.st, [];
    s, block := p.Alloc(|init|);
    for i := 0 to |init|
      invariant p.Valid() && p.images == old(p.images) && s in p.st.born
      invariant |block| == |init| && block[..i] == Words(init)[..i]
      invariant Pending(s0, p.st, h[s := block])
    {
      PokeNew(h, s, block, i, init[i].w);
      if init[i].Plain? {
        p.Write(s, i, init[i].w);
      } else {
        var ok := p.Store(s, i, init[i].w);
      }
      block := block[i := init[i].w];
      assert block[..i + 1] == block[..i] + [init[i].w] && Words(init)[..i + 1] == Words(init)[..i] + [init[i].w];
    }
    assert block == block[..|init|] == Words(init);
  }

  /** Writing into a block that was just added. */
  lemma PokeNew(h: Heap, s: Oid, block: seq<Word>, off: nat, w: Word)
    requires off < |block|
    ensures Poke(h[s := block], s, off, w) == h[s := block[off := w]]
  {
  }

  /** `pmem_get_or_create`: the object a non-null slot points to, or a new one linked into the slot by the
      same transaction that allocates it; durable at once, or with the transaction in which it is nested. */
  method GetOrCreate(p: Pool, root: Oid, slot: nat, init: seq<Field>) returns (s: Oid)
    requires p.Valid() && InBounds(Live(p.st), root, slot)
    modifies p
    ensures p.Valid()
    ensures old(Live(p.st))[root][slot] != NULL ==>
              s == old(Live(p.st))[root][slot] && p.st == old(p.st) && p.images == old(p.images)
    ensures old(Live(p.st))[root][slot] == NULL ==>
              && s != NULL && s !in old(Live(p.st))
              && Committed(old(p.st), p.st, Poke(old(Live(p.st))[s := Words(init)], root, slot, s))
              && p.images == Record(old(p.images), Recover(p.st))
  {
    s := p.Read(root, slot);
    if s != NULL {
      return;
    }
    p.Begin();
    s := Construct(p, init);
    var ok := p.Store(root, slot, s);
    p.End();
  }

  /** The members of the generated stack and of the generated bucket: a null pmem_ptr and a zero persistent<int>. */
  const CONTAINER: seq<Field> := [Plain(NULL), Logged(0)]

  lemma ContainerWords()
    ensures Words(CONTAINER) == [NULL, 0]
  {
  }

  function Follow(ids: seq<Oid>, i: nat): Oid {
    if i < |ids| then ids[i] else NULL
  }
}
