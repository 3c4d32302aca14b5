/** `pmem_string`: a two-word header [data, size] in some block of the pool, and a payload block
    holding the characters and a terminating 0. */
module PmemString {
  import opened PmemPool
  import opened PersistentLib

  const DATA := 0
  const LENGTH := 1

  /** A C string value: no character is the terminator. */
  predicate IsText(t: seq<Word>) {
    forall i :: 0 <= i < |t| ==> t[i] != 0
  }

  /** A `const char*`: a string elsewhere in memory, or a place in the pool (a payload, or inside one). */
  datatype CStr = Dram(text: seq<Word>) | InPool(oid: Oid, off: nat)

  /** What the pointer points at. */
  ghost predicate Denotes(h: Heap, s: CStr, text: seq<Word>) {
    && IsText(text)
    && match s
       case Dram(t) => t == text
       case InPool(oid, off) =>
         && oid in h && off + |text| < |h[oid]|
         && (forall i :: 0 <= i < |text| ==> h[oid][off + i] == text[i])
         && h[oid][off + |text|] == 0
  }

  /** The string whose header is at `off` in block `oid` has this text; a null payload is the empty string. */
  ghost predicate Spells(h: Heap, oid: Oid, off: nat, text: seq<Word>) {
    && InBounds(h, oid, off + 1)
    && h[oid][off + LENGTH] == |text|
    && IsText(text)
    && (h[oid][off + DATA] == NULL ==> text == [])
    && (h[oid][off + DATA] != NULL ==> h[oid][off + DATA] in h && h[h[oid][off + DATA]] == text + [0])
  }

  function CharAt(p: Pool, s: CStr, i: nat, ghost text: seq<Word>): (c: Word)
    requires Denotes(Live(p.st), s, text) && i <= |text|
    reads p
    ensures c == if i < |text| then text[i] else 0
  {
    match s
    case Dram(t) => if i < |t| then t[i] else 0
    case InPool(oid, off) => p.st.heap[oid][off + i]
  }

  /** `strlen`. */
  method StrLen(p: Pool, s: CStr, ghost text: seq<Word>) returns (n: nat)
    requires p.Valid() && Denotes(Live(p.st), s, text)
    ensures n == |text|
  {
    n := 0;
    while CharAt(p, s, n, text) != 0
      invariant n <= |text|
      decreases |text| - n
    {
      n := n + 1;
    }
  }

  /** `std::memcpy(raw, s, n + 1)` into a block allocated by the open transaction. */
  method Copy(p: Pool, raw: Oid, s: CStr, n: nat, ghost text: seq<Word>, ghost h: Heap)
    requires p.Valid() && p.st.depth > 0 && raw in p.st.born && raw !in h
    requires raw in Live(p.st) && Live(p.st) == h[raw := Live(p.st)[raw]] && |Live(p.st)[raw]| == n + 1
    requires Denotes(h, s, text) && n == |text|
    modifies p
    ensures Pending(old(p.st), p.st, h[raw := text + [0]]) && p.st.born == old(p.st.born)
    ensures p.Valid() && p.images == old(p.images)
  {
    var i := 0;
    while i < n + 1
      invariant 0 <= i <= n + 1
      invariant p.Valid() && p.st.born == old(p.st.born) && p.images == old(p.images)
      invariant raw in Live(p.st) && |Live(p.st)[raw]| == n + 1
      invariant Pending(old(p.st), p.st, h[raw := Live(p.st)[raw]])
      invariant forall k :: 0 <= k < i ==> Live(p.st)[raw][k] == (text + [0])[k]
    {
      assert Denotes(Live(p.st), s, text);
      p.Write(raw, i, CharAt(p, s, i, text));
      i := i + 1;
    }
    assert Live(p.st)[raw] == text + [0];
  }

  ghost function AssignHeap(h: Heap, oid: Oid, off: nat, raw: Oid, text: seq<Word>): Heap
    requires InBounds(h, oid, off + 1)
  {
    var g := h[raw := text + [0]][oid := h[oid][off + DATA := raw][off + LENGTH := |text|]];
    if h[oid][off + DATA] == NULL then g else g - {h[oid][off + DATA]}
  }

  /** `pmem_string::assign` on a string in the pool: the new payload holds what the argument held before
      the call, even if the argument points into the old payload; the old payload is freed once; outside
      a transaction it fails before anything is allocated or changed. */
  method Assign(p: Pool, oid: Oid, off: nat, s: CStr, ghost text: seq<Word>, ghost cur: seq<Word>)
    returns (ok: bool, ghost raw: Oid)
    requires p.Valid() && Denotes(Live(p.st), s, text)
    requires Spells(Live(p.st), oid, off, cur) && Live(p.st)[oid][off + DATA] != oid
    modifies p
    ensures ok <==> old(p.st).depth > 0
    ensures p.Valid() && p.images == old(p.images)
    ensures !ok ==> p.st == old(p.st)
    ensures ok ==> raw != NULL && raw !in old(Live(p.st))
    ensures ok ==> Pending(old(p.st), p.st, AssignHeap(old(Live(p.st)), oid, off, raw, text))
  {
    ghost var h := Live(p.st);
    raw := NULL;
    var n := StrLen(p, s, text);
    ok := p.AddRange(oid, off, 2);
    if !ok {
      return;
    }
    ghost var snapped := p.st;
    assert Covered(snapped, oid, off + DATA) && Covered(snapped, oid, off + LENGTH);
    var fresh', junk := p.Alloc(n + 1);
    raw := fresh';
    Copy(p, fresh', s, n, text, h);
    StaysCovered(snapped, p.st, oid, off + DATA);
    StaysCovered(snapped, p.st, oid, off + LENGTH);
    Install(p, oid, off, fresh', n);
    assert Live(p.st) == AssignHeap(h, oid, off, raw, text);
  }

  /** The end of `assign`: release the old payload and point the header at the new one. */
  method Install(p: Pool, oid: Oid, off: nat, raw: Oid, n: nat)
    requires p.Valid() && p.st.depth > 0 && InBounds(Live(p.st), oid, off + 1)
    requires Covered(p.st, oid, off + DATA) && Covered(p.st, oid, off + LENGTH)
    requires var d := Live(p.st)[oid][off + DATA]; d != NULL ==> d in Live(p.st) && d != oid
    modifies p
    ensures p.Valid() && p.images == old(p.images)
    ensures
      var h := old(Live(p.st));
      var g := h[oid := h[oid][off + DATA := raw][off + LENGTH := n]];
      Pending(old(p.st), p.st, if h[oid][off + DATA] == NULL then g else g - {h[oid][off + DATA]})
  {
    ghost var h, s0 := Live(p.st), p.st;
    Release(p, oid, off);
    StaysCovered(s0, p.st, oid, off + DATA);
    p.Write(oid, off + DATA, raw);
    StaysCovered(s0, p.st, oid, off + LENGTH);
    p.Write(oid, off + LENGTH, n);
    assert Live(p.st)[oid] == h[oid][off + DATA := raw][off + LENGTH := n];
  }

  /** `release()`: the caller has snapshotted the header. */
  method Release(p: Pool, oid: Oid, off: nat)
    requires p.Valid() && p.st.depth > 0 && InBounds(Live(p.st), oid, off + 1)
    requires Covered(p.st, oid, off + DATA) && Covered(p.st, oid, off + LENGTH)
    requires var d := Live(p.st)[oid][off + DATA]; d != NULL ==> d in Live(p.st) && d != oid
    modifies p
    ensures p.Valid() && p.images == old(p.images)
    ensures
      var h := old(Live(p.st));
      var d := h[oid][off + DATA];
      Pending(old(p.st), p.st, if d == NULL then h else h[oid := h[oid][off + DATA := NULL][off + LENGTH := 0]] - {d})
  {
    ghost var h, s0 := Live(p.st), p.st;
    var d := p.Read(oid, off + DATA);
    if d != NULL {
      p.Free(d);
      StaysCovered(s0, p.st, oid, off + DATA);
      p.Write(oid, off + DATA, NULL);
      StaysCovered(s0, p.st, oid, off + LENGTH);
      p.Write(oid, off + LENGTH, 0);
      assert Live(p.st) == h[oid := h[oid][off + DATA := NULL][off + LENGTH := 0]] - {d};
    }
  }

  lemma AssignSpells(h: Heap, oid: Oid, off: nat, raw: Oid, text: seq<Word>)
    requires InBounds(h, oid, off + 1) && raw != NULL && raw !in h && IsText(text)
    requires h[oid][off + DATA] != oid && (h[oid][off + DATA] != NULL ==> h[oid][off + DATA] in h)
    ensures Spells(AssignHeap(h, oid, off, raw, text), oid, off, text)
    ensures h[oid][off + DATA] != NULL ==> h[oid][off + DATA] !in AssignHeap(h, oid, off, raw, text)
    ensures forall o :: o in h && o != oid && o != h[oid][off + DATA] ==>
                          o in AssignHeap(h, oid, off, raw, text) && AssignHeap(h, oid, off, raw, text)[o] == h[o]
  {
  }

  /** `strcmp(str.c_str(), word) == 0`. */
  method Equals(p: Pool, oid: Oid, off: nat, word: seq<Word>, ghost text: seq<Word>) returns (eq: bool)
    requires p.Valid() && Spells(Live(p.st), oid, off, text) && IsText(word)
    ensures eq <==> text == word
  {
    var d := p.Read(oid, off + DATA);
    var s := if d == NULL then Dram([]) else InPool(d, 0);
    var w := Dram(word);
    var i := 0;
    while CharAt(p, s, i, text) == CharAt(p, w, i, word) && CharAt(p, s, i, text) != 0
      invariant i <= |text| && i <= |word| && text[..i] == word[..i]
      decreases |text| - i
    {
      i := i + 1;
    }
    eq := CharAt(p, s, i, text) == CharAt(p, w, i, word);
    if eq {
      assert i == |text| == |word|;
      assert text[..i] == text && word[..i] == word;
    } else if text == word {
      assert false;
    }
  }
}
