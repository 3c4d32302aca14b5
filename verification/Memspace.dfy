/** The UMF memspace: an owned array of owned memory targets, with allocation failure possible at
    every request. */
module Memspace {
  import Names

  type Ptr = int

  const NULL: Ptr := 0

  datatype Result = Success | InvalidArgument | OutOfMemory | Failed

  /** The global allocator.  A request of size 0 gets NULL; any other may.  `faulty` records that some
      request, or some query of a target, has failed for no fault of the caller. */
  class Memory {
    var live: set<Ptr>
    var faulty: bool

    ghost predicate Valid()
      reads this
    {
      NULL !in live
    }

    method Alloc(size: nat) returns (ptr: Ptr)
      requires Valid()
      modifies this
      ensures Valid()
      ensures !faulty ==> !old(faulty) && (ptr == NULL <==> size == 0)
      ensures ptr == NULL ==> live == old(live)
      ensures ptr != NULL ==> size > 0 && ptr !in old(live) && live == old(live) + {ptr}
    {
      var exhausted: bool := *;
      if size == 0 {
        return NULL;
      }
      if exhausted {
        faulty := true;
        return NULL;
      }
      ghost var unused := Names.Above(live);
      assert unused != NULL && unused !in live;
      ptr :| ptr != NULL && ptr !in live;
      live := live + {ptr};
    }

    /** Freeing what is not live would be a double free: the caller must own it. */
    method Free(ptr: Ptr)
      requires Valid() && (ptr == NULL || ptr in live)
      modifies this`live
      ensures Valid() && live == old(live) - {ptr}
    {
      live := live - {ptr};
    }
  }

  /** A memory target handle and what it points at: its private data, its type and its identity. */
  datatype Target = Target(handle: Ptr, priv: Ptr, kind: int, id: int)

  predicate Alike(a: Target, b: Target) {
    a.kind == b.kind && a.id == b.id
  }

  /** The blocks that a sequence of targets owns. */
  function Owned(ts: seq<Target>): set<Ptr> {
    if ts == [] then {} else Owned(ts[..|ts| - 1]) + {ts[|ts| - 1].handle, ts[|ts| - 1].priv}
  }

  /** The target owns two blocks, none of them owned by the others. */
  ghost predicate Apart(ts: seq<Target>, t: Target) {
    && t.handle != NULL && t.priv != NULL && t.handle != t.priv
    && t.handle !in Owned(ts) && t.priv !in Owned(ts)
  }

  /** No block is owned twice, and none is NULL. */
  ghost predicate Separate(ts: seq<Target>) {
    ts != [] ==> Separate(ts[..|ts| - 1]) && Apart(ts[..|ts| - 1], ts[|ts| - 1])
  }

  function Without(ts: seq<Target>, i: nat): seq<Target>
    requires i < |ts|
  {
    ts[..i] + ts[i + 1..]
  }

  lemma WithoutInit(ts: seq<Target>, i: nat)
    requires i < |ts| - 1
    ensures Without(ts, i) == Without(ts[..|ts| - 1], i) + [ts[|ts| - 1]]
  {
    assert ts[i + 1..] == ts[..|ts| - 1][i + 1..] + [ts[|ts| - 1]];
  }

  lemma {:induction false} SeparateWithout(ts: seq<Target>, i: nat)
    requires Separate(ts) && i < |ts|
    ensures Separate(Without(ts, i))
    ensures ts[i].handle in Owned(ts) && ts[i].priv in Owned(ts) && ts[i].handle != ts[i].priv
    ensures ts[i].handle != NULL && ts[i].priv != NULL
    ensures Owned(Without(ts, i)) == Owned(ts) - {ts[i].handle, ts[i].priv}
    decreases |ts|
  {
    hide Without;
    var init, t := ts[..|ts| - 1], ts[|ts| - 1];
    if i == |ts| - 1 {
      WithoutLast(ts);
    } else {
      SeparateWithout(init, i);
      WithoutInit(ts, i);
      OwnedMore(Without(init, i), t);
    }
  }

  lemma WithoutLast(ts: seq<Target>)
    requires ts != []
    ensures Without(ts, |ts| - 1) == ts[..|ts| - 1]
  {
  }

  lemma OwnedMore(ts: seq<Target>, t: Target)
    ensures Owned(ts + [t]) == Owned(ts) + {t.handle, t.priv}
    ensures Separate(ts) && Apart(ts, t) ==> Separate(ts + [t])
  {
    assert (ts + [t])[..|ts|] == ts;
  }

  /** Pairwise different targets of one type. */
  predicate Uniform(ts: seq<Target>) {
    forall i, j :: 0 <= i < j < |ts| ==> ts[i].kind == ts[j].kind && ts[i].id != ts[j].id
  }

  /** A memspace: its own block, the array of handles (NULL while empty), and the handles. */
  class Space {
    var self: Ptr
    var buf: Ptr
    var nodes: seq<Target>

    ghost function Blocks(): set<Ptr>
      reads this
    {
      Owned(nodes) + {self} + (if buf == NULL then {} else {buf})
    }

    ghost predicate Valid(m: Memory)
      reads this, m
    {
      && m.Valid() && Separate(nodes) && Uniform(nodes)
      && self != NULL && self != buf && self !in Owned(nodes) && buf !in Owned(nodes)
      && (buf == NULL <==> nodes == [])
      && Blocks() <= m.live
    }

    constructor Make(self: Ptr, buf: Ptr, nodes: seq<Target>)
      ensures this.self == self && this.buf == buf && this.nodes == nodes
    {
      this.self, this.buf, this.nodes := self, buf, nodes;
    }
  }

  /** The books after an operation on a memspace: its old blocks are gone, its new blocks are live, no
      other block changed hands. */
  ghost predicate Settled(live: set<Ptr>, blocks: set<Ptr>, live': set<Ptr>, blocks': set<Ptr>) {
    live' == live - blocks + blocks' && blocks' * live <= blocks
  }

  lemma SettledTwice(l0: set<Ptr>, b0: set<Ptr>, l1: set<Ptr>, b1: set<Ptr>, l2: set<Ptr>, b2: set<Ptr>)
    requires Settled(l0, b0, l1, b1) && Settled(l1, b1, l2, b2)
    ensures Settled(l0, b0, l2, b2)
  {
  }

  /** `umfMemtargetClone`: all or nothing. */
  method CloneTarget(m: Memory, t: Target) returns (ret: Result, c: Target)
    requires m.Valid()
    modifies m
    ensures m.Valid() && ret != InvalidArgument && (!m.faulty ==> !old(m.faulty) && ret == Success)
    ensures ret != Success ==> m.live == old(m.live)
    ensures ret == Success ==>
              && Alike(c, t) && c.handle != NULL && c.priv != NULL && c.handle != c.priv
              && c.handle !in old(m.live) && c.priv !in old(m.live)
              && m.live == old(m.live) + {c.handle, c.priv}
  {
    c := t;
    var h := m.Alloc(1);
    if h == NULL {
      return OutOfMemory, c;
    }
    var p := m.Alloc(1);
    if p == NULL {
      m.Free(h);
      return Failed, c;
    }
    return Success, Target(h, p, t.kind, t.id);
  }

  /** `umfMemtargetDestroy`. */
  method DestroyTarget(m: Memory, t: Target)
    requires m.Valid() && t.handle in m.live && t.priv in m.live && t.handle != t.priv
    modifies m`live
    ensures m.Valid() && m.live == old(m.live) - {t.handle, t.priv}
  {
    m.Free(t.priv);
    m.Free(t.handle);
  }

  /** `umfMemtargetCompare`: the type query and the comparison may fail; -1 for different types, 0 for
      the same target, 1 for different ones. */
  method Compare(m: Memory, a: Target, b: Target) returns (ret: Result, cmp: int)
    modifies m`faulty
    ensures ret == Success || ret == Failed
    ensures !m.faulty ==> !old(m.faulty) && ret == Success
    ensures ret == Success ==> cmp == if a.kind != b.kind then -1 else if a.id == b.id then 0 else 1
  {
    var broken: bool := *;
    if broken {
      m.faulty := true;
      return Failed, 0;
    }
    return Success, if a.kind != b.kind then -1 else if a.id == b.id then 0 else 1;
  }

  /** The target may join: it differs from all targets and has their type. */
  predicate Fits(ts: seq<Target>, t: Target) {
    forall i :: 0 <= i < |ts| ==> ts[i].kind == t.kind && ts[i].id != t.id
  }

  /** Exactly then the targets stay pairwise different and of one type. */
  lemma FitsIsUniform(ts: seq<Target>, t: Target)
    requires Uniform(ts)
    ensures Fits(ts, t) <==> Uniform(ts + [t])
  {
    if Uniform(ts + [t]) {
      forall i | 0 <= i < |ts| ensures ts[i].kind == t.kind && ts[i].id != t.id {
        assert (ts + [t])[i] == ts[i] && (ts + [t])[|ts|] == t;
      }
    }
  }

  /** The comparisons of an addition. */
  method Check(m: Memory, ts: seq<Target>, t: Target) returns (ret: Result)
    modifies m`faulty
    ensures ret == Success ==> forall i :: 0 <= i < |ts| ==> ts[i].kind == t.kind && ts[i].id != t.id
    ensures ret == InvalidArgument ==> exists i :: 0 <= i < |ts| && (ts[i].kind != t.kind || ts[i].id == t.id)
    ensures !m.faulty ==> !old(m.faulty) && ret != Failed
    ensures ret != OutOfMemory
  {
    for i := 0 to |ts|
      invariant !m.faulty ==> !old(m.faulty)
      invariant forall k :: 0 <= k < i ==> ts[k].kind == t.kind && ts[k].id != t.id
    {
      var cmp;
      ret, cmp := Compare(m, ts[i], t);
      if ret != Success {
        return;
      }
      if cmp <= 0 {
        return InvalidArgument;
      }
    }
    ret := Success;
  }

  /** `umfMemspaceMemtargetAdd`. */
  method Add(m: Memory, s: Space, t: Target) returns (ret: Result)
    requires s.Valid(m)
    modifies m, s
    ensures s.Valid(m) && s.self == old(s.self)
    ensures ret != Success ==> m.live == old(m.live) && s.nodes == old(s.nodes) && s.buf == old(s.buf)
    ensures !m.faulty ==> !old(m.faulty) && (ret == Success <==> t.handle != NULL && Uniform(old(s.nodes) + [t]))
    ensures ret == InvalidArgument ==> t.handle == NULL || !Uniform(old(s.nodes) + [t])
    ensures ret == Success ==>
              && t.handle != NULL && Uniform(old(s.nodes) + [t])
              && |s.nodes| == |old(s.nodes)| + 1 && s.nodes[..|old(s.nodes)|] == old(s.nodes)
              && Alike(s.nodes[|old(s.nodes)|], t)
              && Settled(old(m.live), old(s.Blocks()), m.live, s.Blocks())
  {
    hide Uniform, Separate, Owned;
    if t.handle == NULL {
      return InvalidArgument;
    }
    FitsIsUniform(s.nodes, t);
    ret := Check(m, s.nodes, t);
    if ret != Success {
      return;
    }
    var fresh' := m.Alloc(|s.nodes| + 1);
    if fresh' == NULL {
      return OutOfMemory;
    }
    var c;
    ret, c := CloneTarget(m, t);
    if ret != Success {
      m.Free(fresh');
      assert m.live == old(m.live);
      return;
    }
    FitsIsUniform(s.nodes, c);
    Append(m, s, c, fresh');
  }

  /** The end of an addition, once the new array and the clone are there. */
  method Append(m: Memory, s: Space, c: Target, fresh': Ptr)
    requires s.Valid(m) && Uniform(s.nodes + [c]) && {c.handle, c.priv, fresh'} <= m.live
    requires {c.handle, c.priv, fresh'} !! s.Blocks() && c.handle != c.priv
    requires fresh' !in {c.handle, c.priv, NULL} && NULL !in {c.handle, c.priv}
    modifies m`live, s
    ensures s.Valid(m) && s.self == old(s.self) && s.nodes == old(s.nodes) + [c]
    ensures m.live == old(m.live) - {old(s.buf)}
    ensures s.Blocks() == old(s.Blocks()) - {old(s.buf)} + {c.handle, c.priv, fresh'}
  {
    hide Uniform;
    OwnedMore(s.nodes, c);
    s.nodes := s.nodes + [c];
    m.Free(s.buf);
    s.buf := fresh';
  }

  /** `umfMemspaceNew`. */
  method New(m: Memory) returns (ret: Result, s: Space?)
    requires m.Valid()
    modifies m
    ensures m.Valid() && (ret == Success <==> s != null) && (!m.faulty ==> !old(m.faulty) && ret == Success)
    ensures ret != Success ==> m.live == old(m.live)
    ensures ret == Success ==> fresh(s) && s.Valid(m) && s.nodes == [] && m.live == old(m.live) + s.Blocks() && s.self !in old(m.live)
  {
    var self := m.Alloc(1);
    if self == NULL {
      return OutOfMemory, null;
    }
    s := new Space.Make(self, NULL, []);
    return Success, s;
  }

  lemma UniformWithout(ts: seq<Target>, i: nat)
    requires Uniform(ts) && i < |ts|
    ensures Uniform(Without(ts, i))
  {
    var r := Without(ts, i);
    forall j | 0 <= j < |r| ensures r[j] == ts[if j < i then j else j + 1] {
    }
  }

  predicate Has(ts: seq<Target>, t: Target) {
    exists i :: 0 <= i < |ts| && Alike(ts[i], t)
  }

  /** `umfMemspaceMemtargetRemove`.  The array for the remaining handles is requested with their number,
      and a request of size 0 gets NULL: the last target can never be removed. */
  method Remove(m: Memory, s: Space, t: Target) returns (ret: Result, ghost i: nat)
    requires s.Valid(m)
    modifies m, s
    ensures s.Valid(m) && s.self == old(s.self)
    ensures ret != Success ==> m.live == old(m.live) && s.nodes == old(s.nodes) && s.buf == old(s.buf)
    ensures !m.faulty ==> !old(m.faulty) && (ret == Success <==> t.handle != NULL && Has(old(s.nodes), t) && |old(s.nodes)| >= 2)
    ensures ret == InvalidArgument ==> t.handle == NULL || !Has(old(s.nodes), t)
    ensures ret == Success ==>
              && t.handle != NULL && |old(s.nodes)| >= 2
              && i < |old(s.nodes)| && Alike(old(s.nodes)[i], t)
              && s.nodes == Without(old(s.nodes), i)
              && Settled(old(m.live), old(s.Blocks()), m.live, s.Blocks())
  {
    i := 0;
    if t.handle == NULL {
      return InvalidArgument, i;
    }
    var k := 0;
    while k < |s.nodes|
      invariant 0 <= k <= |s.nodes|
      invariant m.live == old(m.live) && s.nodes == old(s.nodes) && s.buf == old(s.buf) && s.self == old(s.self)
      invariant !m.faulty ==> !old(m.faulty)
      invariant forall x :: 0 <= x < k ==> !Alike(s.nodes[x], t)
    {
      var cmp;
      ret, cmp := Compare(m, s.nodes[k], t);
      if ret != Success {
        return;
      }
      if cmp == 0 {
        break;
      }
      k := k + 1;
    }
    if k == |s.nodes| {
      return InvalidArgument, i;
    }
    i := k;
    var fresh' := m.Alloc(|s.nodes| - 1);
    if fresh' == NULL {
      return OutOfMemory, i;
    }
    ret := Detach(m, s, k, fresh');
  }

  /** The end of a removal, once the new array is there. */
  method Detach(m: Memory, s: Space, k: nat, fresh': Ptr) returns (ret: Result)
    requires s.Valid(m) && k < |s.nodes| && |s.nodes| >= 2
    requires fresh' != NULL && fresh' in m.live && fresh' !in s.Blocks()
    modifies m`live, s
    ensures ret == Success && s.Valid(m) && s.self == old(s.self) && s.buf == fresh'
    ensures s.nodes == Without(old(s.nodes), k)
    ensures m.live == old(m.live) - {old(s.nodes)[k].handle, old(s.nodes)[k].priv, old(s.buf)}
    ensures s.Blocks() == old(s.Blocks()) - {old(s.nodes)[k].handle, old(s.nodes)[k].priv, old(s.buf)} + {fresh'}
    ensures {old(s.nodes)[k].handle, old(s.nodes)[k].priv} <= old(s.Blocks())
  {
    SeparateWithout(s.nodes, k);
    UniformWithout(s.nodes, k);
    DestroyTarget(m, s.nodes[k]);
    m.Free(s.buf);
    s.buf := fresh';
    s.nodes := Without(s.nodes, k);
    return Success;
  }

  /** `umfMemspaceDestroy`: every block of the memspace is released, each exactly once. */
  method Destroy(m: Memory, s: Space)
    requires s.Valid(m)
    modifies m`live
    ensures m.Valid() && m.live == old(m.live) - s.Blocks()
  {
    var i := 0;
    assert s.nodes[..0] == [];
    while i < |s.nodes|
      invariant 0 <= i <= |s.nodes|
      invariant m.Valid() && m.live == old(m.live) - Owned(s.nodes[..i])
    {
      PrefixApart(s.nodes, i);
      assert s.nodes[..i + 1] == s.nodes[..i] + [s.nodes[i]];
      OwnedMore(s.nodes[..i], s.nodes[i]);
      DestroyTarget(m, s.nodes[i]);
      i := i + 1;
    }
    assert s.nodes[..|s.nodes|] == s.nodes;
    m.Free(s.buf);
    m.Free(s.self);
  }

  lemma {:induction false} PrefixApart(ts: seq<Target>, i: nat)
    requires Separate(ts) && i < |ts|
    ensures Separate(ts[..i]) && Apart(ts[..i], ts[i]) && {ts[i].handle, ts[i].priv} <= Owned(ts)
    decreases |ts|
  {
    if i < |ts| - 1 {
      var init := ts[..|ts| - 1];
      PrefixApart(init, i);
      assert init[..i] == ts[..i];
    }
  }

  /** Cloning targets one by one into a new memspace; on a failure everything cloned so far is destroyed
      again, in reverse order. */
  method CloneInto(m: Memory, src: seq<Target>) returns (ret: Result, s: Space?)
    requires m.Valid() && Uniform(src)
    modifies m
    ensures m.Valid() && (ret == Success <==> s != null)
    ensures !m.faulty ==> !old(m.faulty) && (ret == Success <==> src != [])
    ensures ret != Success ==> m.live == old(m.live)
    ensures ret == Success ==>
              && fresh(s) && s.Valid(m) && s.Blocks() !! old(m.live) && m.live == old(m.live) + s.Blocks()
              && |s.nodes| == |src| && forall i :: 0 <= i < |src| ==> Alike(s.nodes[i], src[i])
    ensures src == [] ==> ret != Success
  {
    var self := m.Alloc(1);
    if self == NULL {
      return OutOfMemory, null;
    }
    var buf := m.Alloc(|src|);
    if buf == NULL {
      m.Free(self);
      assert m.live == old(m.live);
      return OutOfMemory, null;
    }
    var nodes: seq<Target>;
    ret, nodes := CloneEach(m, src);
    if ret != Success {
      m.Free(buf);
      m.Free(self);
      assert m.live == old(m.live);
      return ret, null;
    }
    s := new Space.Make(self, buf, nodes);
  }

  method CloneEach(m: Memory, src: seq<Target>) returns (ret: Result, nodes: seq<Target>)
    requires m.Valid()
    modifies m
    ensures m.Valid() && (!m.faulty ==> !old(m.faulty) && ret == Success)
    ensures ret != Success ==> m.live == old(m.live)
    ensures ret == Success ==>
              && Separate(nodes) && Owned(nodes) !! old(m.live) && m.live == old(m.live) + Owned(nodes)
              && |nodes| == |src| && forall i :: 0 <= i < |src| ==> Alike(nodes[i], src[i])
  {
    nodes := [];
    var i := 0;
    while i < |src|
      invariant 0 <= i == |nodes| <= |src| && m.Valid() && (!m.faulty ==> !old(m.faulty))
      invariant Separate(nodes) && Owned(nodes) !! old(m.live) && m.live == old(m.live) + Owned(nodes)
      invariant forall k :: 0 <= k < i ==> Alike(nodes[k], src[k])
    {
      var c;
      ret, c := CloneTarget(m, src[i]);
      if ret != Success {
        DestroyBack(m, nodes);
        assert m.live == old(m.live);
        return;
      }
      OwnedMore(nodes, c);
      nodes := nodes + [c];
      i := i + 1;
    }
    ret := Success;
  }

  method DestroyBack(m: Memory, nodes: seq<Target>)
    requires m.Valid() && Separate(nodes) && Owned(nodes) <= m.live
    modifies m`live
    ensures m.Valid() && m.live == old(m.live) - Owned(nodes)
  {
    var i := |nodes|;
    assert nodes[..|nodes|] == nodes;
    while i != 0
      invariant 0 <= i <= |nodes| && m.Valid() && Separate(nodes[..i]) && Owned(nodes[..i]) <= Owned(nodes)
      invariant m.live == old(m.live) - (Owned(nodes) - Owned(nodes[..i]))
    {
      i := i - 1;
      assert nodes[..i + 1][..i] == nodes[..i];
      DestroyTarget(m, nodes[i]);
    }
  }

  /** `umfMemspaceClone`. */
  method Clone(m: Memory, s: Space) returns (ret: Result, c: Space?)
    requires s.Valid(m)
    modifies m
    ensures s.Valid(m) && (ret == Success <==> c != null)
    ensures !m.faulty ==> !old(m.faulty) && (ret == Success <==> s.nodes != [])
    ensures ret != Success ==> m.live == old(m.live)
    ensures ret == Success ==>
              && c.Valid(m) && c.Blocks() !! old(m.live) && m.live == old(m.live) + c.Blocks()
              && |c.nodes| == |s.nodes| && forall i :: 0 <= i < |s.nodes| ==> Alike(c.nodes[i], s.nodes[i])
    ensures s.nodes == [] ==> ret != Success
  {
    ret, c := CloneInto(m, s.nodes);
  }

  /** `f` lists, in order, the positions among the first n picks at which a value is picked for the first time. */
  ghost predicate Firsts(picks: seq<int>, n: nat, f: seq<nat>) {
    && n <= |picks|
    && (forall j :: 0 <= j < |f| ==> f[j] < n && forall i :: 0 <= i < f[j] ==> picks[i] != picks[f[j]])
    && (forall i, j :: 0 <= i < j < |f| ==> f[i] < f[j])
    && (forall i :: 0 <= i < n ==> exists j :: 0 <= j < |f| && picks[f[j]] == picks[i])
  }

  predicate Indexes(picks: seq<int>, n: nat) {
    forall i :: 0 <= i < |picks| ==> 0 <= picks[i] < n
  }

  function Chosen(ts: seq<Target>, ix: seq<int>): (r: seq<Target>)
    requires Indexes(ix, |ts|)
    ensures |r| == |ix| && forall i :: 0 <= i < |ix| ==> r[i] == ts[ix[i]]
  {
    if ix == [] then [] else Chosen(ts, ix[..|ix| - 1]) + [ts[ix[|ix| - 1]]]
  }

  predicate AllDifferent(ix: seq<int>) {
    forall i, j :: 0 <= i < j < |ix| ==> ix[i] != ix[j]
  }

  /** `umfMemspaceFilter`: the callback picks the best target for each target (a negative pick is its
      failure); the new memspace holds clones of the distinct picks. */
  method Filter(m: Memory, s: Space, picks: seq<int>) returns (ret: Result, c: Space?)
    requires s.Valid(m) && |picks| == |s.nodes| && forall i :: 0 <= i < |picks| ==> picks[i] < |s.nodes|
    modifies m
    ensures s.Valid(m) && (ret == Success <==> c != null)
    ensures !m.faulty ==> !old(m.faulty) && (ret == Success <==> s.nodes != [] && Indexes(picks, |s.nodes|))
    ensures ret != Success ==> m.live == old(m.live)
    ensures ret == Success ==>
              && Indexes(picks, |s.nodes|)
              && c.Valid(m) && c.Blocks() !! old(m.live) && m.live == old(m.live) + c.Blocks()
              && exists f :: Firsts(picks, |picks|, f) && |c.nodes| == |f| &&
                             forall j :: 0 <= j < |f| ==> Alike(c.nodes[j], s.nodes[picks[f[j]]])
  {
    hide Uniform, Separate, Owned, Firsts;
    c := null;
    var tmp := m.Alloc(|s.nodes|);
    if tmp == NULL {
      return OutOfMemory, null;
    }
    var ok, best;
    ghost var f;
    ok, best, f := UniquePicks(picks, |s.nodes|);
    if !ok {
      m.Free(tmp);
      assert m.live == old(m.live);
      return Failed, null;
    }
    UniformChosen(s.nodes, best);
    ret, c := CloneInto(m, Chosen(s.nodes, best));
    m.Free(tmp);
    assert ret != Success ==> m.live == old(m.live);
  }

  lemma UniformChosen(ts: seq<Target>, ix: seq<int>)
    requires Uniform(ts) && Indexes(ix, |ts|) && AllDifferent(ix)
    ensures Uniform(Chosen(ts, ix))
  {
    var r := Chosen(ts, ix);
    forall i, j | 0 <= i < j < |r| ensures r[i].kind == r[j].kind && r[i].id != r[j].id {
      assert ix[i] < ix[j] || ix[j] < ix[i];
    }
  }

  /** The loop over the callback's picks: stop at a failure, otherwise collect each pick once. */
  method UniquePicks(picks: seq<int>, size: nat) returns (ok: bool, best: seq<int>, ghost f: seq<nat>)
    requires forall i :: 0 <= i < |picks| ==> picks[i] < size
    ensures ok <==> Indexes(picks, size)
    ensures ok ==> Firsts(picks, |picks|, f) && |best| == |f| && forall j :: 0 <= j < |f| ==> best[j] == picks[f[j]]
    ensures ok ==> (forall i :: 0 <= i < |picks| ==> picks[i] in best) && (picks != [] ==> best != [])
    ensures ok ==> Indexes(best, size) && AllDifferent(best)
  {
    hide Firsts, Picked, AllDifferent;
    best, f := [], [];
    var n := 0;
    NoFirsts(picks);
    while n < |picks|
      invariant 0 <= n <= |picks|
      invariant forall i :: 0 <= i < n ==> picks[i] >= 0
      invariant Firsts(picks, n, f) && Picked(picks, f, best)
    {
      if picks[n] < 0 {
        return false, best, f;
      }
      var k := 0;
      while k < |best| && best[k] != picks[n]
        invariant 0 <= k <= |best| && forall j :: 0 <= j < k ==> best[j] != picks[n]
      {
        k := k + 1;
      }
      if k == |best| {
        NewPick(picks, n, f, best);
        best, f := best + [picks[n]], f + [n];
      } else {
        OldPick(picks, n, f, best, k);
      }
      n := n + 1;
    }
    FirstsAll(picks, f, best, size);
    ok := true;
  }

  ghost predicate Picked(picks: seq<int>, f: seq<nat>, best: seq<int>) {
    |best| == |f| && forall j :: 0 <= j < |f| ==> f[j] < |picks| && best[j] == picks[f[j]]
  }

  lemma NoFirsts(picks: seq<int>)
    ensures Firsts(picks, 0, []) && Picked(picks, [], [])
  {
  }

  lemma NewPick(picks: seq<int>, n: nat, f: seq<nat>, best: seq<int>)
    requires n < |picks| && Firsts(picks, n, f) && Picked(picks, f, best) && forall j :: 0 <= j < |best| ==> best[j] != picks[n]
    ensures Firsts(picks, n + 1, f + [n]) && Picked(picks, f + [n], best + [picks[n]])
  {
    var f' := f + [n];
    forall i | 0 <= i < n ensures picks[i] != picks[n] {
      var j :| 0 <= j < |f| && picks[f[j]] == picks[i];
      assert best[j] == picks[i];
    }
    forall i | 0 <= i <= n ensures exists j :: 0 <= j < |f'| && picks[f'[j]] == picks[i] {
      if i < n {
        var j :| 0 <= j < |f| && picks[f[j]] == picks[i];
        assert f'[j] == f[j];
      } else {
        assert f'[|f|] == n;
      }
    }
  }

  lemma OldPick(picks: seq<int>, n: nat, f: seq<nat>, best: seq<int>, k: nat)
    requires n < |picks| && Firsts(picks, n, f) && Picked(picks, f, best) && k < |best| && best[k] == picks[n]
    ensures Firsts(picks, n + 1, f)
  {
    assert picks[f[k]] == picks[n];
  }

  lemma FirstsAll(picks: seq<int>, f: seq<nat>, best: seq<int>, size: nat)
    requires Firsts(picks, |picks|, f) && Picked(picks, f, best) && Indexes(picks, size)
    ensures Indexes(best, size) && (picks != [] ==> best != [])
    ensures (forall i :: 0 <= i < |picks| ==> picks[i] in best) && AllDifferent(best)
    ensures |best| == |f| && forall j :: 0 <= j < |f| ==> best[j] == picks[f[j]]
  {
    forall i | 0 <= i < |picks| ensures picks[i] in best {
      var j :| 0 <= j < |f| && picks[f[j]] == picks[i];
      assert best[j] == picks[i];
    }
    if picks != [] {
      assert picks[0] in best;
    }
  }

  /** The targets whose verdict is positive, in order. */
  function Kept(ts: seq<Target>, vs: seq<int>): seq<Target>
    requires |ts| == |vs|
  {
    if ts == [] then []
    else
      var r := Kept(ts[..|ts| - 1], vs[..|vs| - 1]);
      if vs[|vs| - 1] > 0 then r + [ts[|ts| - 1]] else r
  }

  /** `ix` lists, in order, the positions with a positive verdict, and `now` the targets there. */
  ghost predicate Selects(ts: seq<Target>, vs: seq<int>, now: seq<Target>, ix: seq<nat>) {
    && |ix| == |now| && |ts| == |vs|
    && (forall j :: 0 <= j < |ix| ==> ix[j] < |ts| && vs[ix[j]] > 0 && now[j] == ts[ix[j]])
    && (forall i, j :: 0 <= i < j < |ix| ==> ix[i] < ix[j])
    && (forall x :: 0 <= x < |vs| && vs[x] > 0 ==> x in ix)
  }

  /** `now` holds exactly the targets with a positive verdict, in their order. */
  ghost predicate IsSelection(ts: seq<Target>, vs: seq<int>, now: seq<Target>) {
    exists ix :: Selects(ts, vs, now, ix)
  }

  lemma SelectsMore(ts: seq<Target>, vs: seq<int>, now: seq<Target>, ix: seq<nat>)
    requires ts != [] && |ts| == |vs| && Selects(ts[..|ts| - 1], vs[..|ts| - 1], now, ix)
    ensures vs[|ts| - 1] > 0 ==> Selects(ts, vs, now + [ts[|ts| - 1]], ix + [|ts| - 1])
    ensures vs[|ts| - 1] <= 0 ==> Selects(ts, vs, now, ix)
  {
    var n := |ts| - 1;
    forall x | 0 <= x < n && vs[x] > 0 ensures x in ix {
      assert vs[..n][x] == vs[x];
    }
  }

  lemma {:induction false} KeptSelects(ts: seq<Target>, vs: seq<int>) returns (ix: seq<nat>)
    requires |ts| == |vs|
    ensures Selects(ts, vs, Kept(ts, vs), ix)
  {
    ix := [];
    if ts != [] {
      hide Selects;
      var n := |ts| - 1;
      ix := KeptSelects(ts[..n], vs[..n]);
      SelectsMore(ts, vs, Kept(ts[..n], vs[..n]), ix);
      ix := if vs[n] > 0 then ix + [n] else ix;
    }
  }

  lemma {:induction false} KeptRun(ts: seq<Target>, vs: seq<int>, k: nat, p: nat)
    requires |ts| == |vs| && k <= p <= |ts|
    requires forall x :: k <= x < p ==> vs[x] > 0
    ensures Kept(ts[..p], vs[..p]) == Kept(ts[..k], vs[..k]) + ts[k..p]
    decreases p
  {
    if k < p {
      KeptRun(ts, vs, k, p - 1);
      assert ts[..p][..p - 1] == ts[..p - 1] && vs[..p][..p - 1] == vs[..p - 1];
      assert ts[k..p] == ts[k..p - 1] + [ts[p - 1]];
    }
  }

  /** The memspace after the targets rejected among the first k have been removed. */
  function Remaining(ts: seq<Target>, vs: seq<int>, k: nat): seq<Target>
    requires |ts| == |vs| && k <= |ts|
  {
    Kept(ts[..k], vs[..k]) + ts[k..]
  }

  lemma RemainingRun(ts: seq<Target>, vs: seq<int>, k: nat, p: nat)
    requires |ts| == |vs| && k <= p <= |ts|
    requires forall x :: k <= x < p ==> vs[x] > 0
    ensures Remaining(ts, vs, p) == Remaining(ts, vs, k)
  {
    KeptRun(ts, vs, k, p);
    assert ts[k..] == ts[k..p] + ts[p..];
  }

  lemma RemainingStep(ts: seq<Target>, vs: seq<int>, p: nat, i: nat)
    requires |ts| == |vs| && p < |ts| && vs[p] == 0 && Uniform(Remaining(ts, vs, p))
    requires i < |Remaining(ts, vs, p)| && Alike(Remaining(ts, vs, p)[i], ts[p])
    ensures Without(Remaining(ts, vs, p), i) == Remaining(ts, vs, p + 1)
  {
    var a := Kept(ts[..p], vs[..p]);
    assert Remaining(ts, vs, p)[|a|] == ts[p];
    assert i == |a|;
    assert ts[..p + 1][..p] == ts[..p] && vs[..p + 1][..p] == vs[..p];
    assert Kept(ts[..p + 1], vs[..p + 1]) == a;
    assert Without(a + ts[p..], |a|) == a + ts[p + 1..];
  }

  /** What the helper does: return a code, or, when a removal fails after others succeeded, enter the
      rollback loop, which passes the destroyed handles of the removed targets to `Add`. */
  datatype Outcome = Returned(ret: Result) | RollbackReadsFreed

  /** The rejected targets and where they are. */
  ghost predicate Rejected(ts: seq<Target>, vs: seq<int>, doomed: seq<Target>, pos: seq<nat>, n: nat) {
    && |ts| == |vs| && n <= |ts| && |doomed| == |pos|
    && (forall j :: 0 <= j < |pos| ==> pos[j] < n && vs[pos[j]] == 0 && doomed[j] == ts[pos[j]])
    && (forall i, j :: 0 <= i < j < |pos| ==> pos[i] < pos[j])
    && (forall x :: 0 <= x < n ==> vs[x] > 0 || x in pos)
  }

  /** Some, but not all, of the rejected targets are gone, among them the first, whose handle is the first
      that the rollback loop reads: no target of the memspace owns it any more. */
  ghost predicate Dangling(ts: seq<Target>, vs: seq<int>, now: seq<Target>) {
    && |ts| == |vs|
    && (exists k :: 0 < k < |ts| && vs[k] == 0 && now == Remaining(ts, vs, k))
    && (exists i :: 0 <= i < |ts| && vs[i] == 0 && (forall j :: 0 <= j < i ==> vs[j] > 0) && ts[i].handle !in Owned(now))
  }

  /** `umfMemspaceFilterHelper`: on success exactly the kept targets remain, in order; a failing callback,
      or a failure before the first removal, changes nothing; rejecting every target never succeeds. */
  method FilterHelper(m: Memory, s: Space, verdicts: seq<int>) returns (out: Outcome)
    requires s.Valid(m) && |verdicts| == |s.nodes|
    modifies m, s
    ensures out == Returned(Success) ==>
              && s.Valid(m) && s.self == old(s.self) && s.nodes == Kept(old(s.nodes), verdicts) && s.nodes != []
              && Settled(old(m.live), old(s.Blocks()), m.live, s.Blocks())
    ensures out == Returned(Success) ==> IsSelection(old(s.nodes), verdicts, s.nodes)
    ensures out.Returned? && out != Returned(Success) ==>
              s.Valid(m) && s.self == old(s.self) && s.nodes == old(s.nodes) && s.buf == old(s.buf) && m.live == old(m.live)
    ensures out == RollbackReadsFreed ==> s.Valid(m) && s.self == old(s.self) && Dangling(old(s.nodes), verdicts, s.nodes)
    ensures (exists i :: 0 <= i < |verdicts| && verdicts[i] < 0) ==> out.Returned? && out != Returned(Success)
    ensures !m.faulty ==> !old(m.faulty)
    ensures !m.faulty && (forall i :: 0 <= i < |verdicts| ==> verdicts[i] >= 0) ==>
              && (out == Returned(Success) <==> exists i :: 0 <= i < |verdicts| && verdicts[i] > 0)
              && (out == RollbackReadsFreed <==> |verdicts| >= 2 && forall i :: 0 <= i < |verdicts| ==> verdicts[i] == 0)
  {
    hide Uniform, Separate, Owned, Kept, IsSelection, Dangling, Settled, Rejected, Selects;
    ghost var ts := s.nodes;
    var tmp := m.Alloc(|s.nodes|);
    if tmp == NULL {
      return Returned(OutOfMemory);
    }
    NoneRejected(ts, verdicts);
    var doomed: seq<Target> := [];
    ghost var pos: seq<nat> := [];
    var n := 0;
    while n < |verdicts|
      invariant 0 <= n <= |verdicts| && s.Valid(m) && m.live == old(m.live) + {tmp} && (!m.faulty ==> !old(m.faulty))
      invariant s.nodes == ts && s.buf == old(s.buf) && s.self == old(s.self)
      invariant Rejected(ts, verdicts, doomed, pos, n) && |doomed| == |pos|
      invariant forall i :: 0 <= i < n ==> verdicts[i] >= 0
    {
      if verdicts[n] < 0 {
        m.Free(tmp);
        assert m.live == old(m.live);
        return Returned(Failed);
      }
      RejectedMore(ts, verdicts, doomed, pos, n);
      if verdicts[n] == 0 {
        doomed := doomed + [s.nodes[n]];
        pos := pos + [n];
      }
      n := n + 1;
    }
    ghost var ix := KeptSelects(ts, verdicts);
    Selection(ts, verdicts, Kept(ts, verdicts), ix);
    out := RemoveEach(m, s, doomed, tmp, ts, verdicts, pos);
  }

  lemma Selection(ts: seq<Target>, vs: seq<int>, now: seq<Target>, ix: seq<nat>)
    requires Selects(ts, vs, now, ix)
    ensures IsSelection(ts, vs, now)
  {
  }

  lemma NoneRejected(ts: seq<Target>, vs: seq<int>)
    requires |ts| == |vs|
    ensures Rejected(ts, vs, [], [], 0)
  {
  }

  lemma RejectedMore(ts: seq<Target>, vs: seq<int>, doomed: seq<Target>, pos: seq<nat>, n: nat)
    requires Rejected(ts, vs, doomed, pos, n) && n < |ts| == |vs| && vs[n] >= 0
    ensures vs[n] == 0 ==> Rejected(ts, vs, doomed + [ts[n]], pos + [n], n + 1)
    ensures vs[n] > 0 ==> Rejected(ts, vs, doomed, pos, n + 1)
  {
    assert (pos + [n])[|pos|] == n;
    assert forall x :: x in pos ==> x in pos + [n];
  }

  method RemoveEach(m: Memory, s: Space, doomed: seq<Target>, tmp: Ptr,
                    ghost ts: seq<Target>, ghost vs: seq<int>, ghost pos: seq<nat>) returns (out: Outcome)
    requires s.Valid(m) && s.nodes == ts != [] && tmp in m.live && tmp !in s.Blocks()
    requires Rejected(ts, vs, doomed, pos, |ts|) && |ts| == |vs| && |doomed| == |pos|
    modifies m, s
    ensures out == Returned(Success) ==>
              && s.Valid(m) && s.self == old(s.self) && s.nodes == Kept(ts, vs) && s.nodes != []
              && Settled(old(m.live) - {tmp}, old(s.Blocks()), m.live, s.Blocks())
    ensures out.Returned? && out != Returned(Success) ==>
              s.Valid(m) && s.self == old(s.self) && s.nodes == ts && s.buf == old(s.buf) && m.live == old(m.live) - {tmp}
    ensures out == RollbackReadsFreed ==> s.Valid(m) && s.self == old(s.self) && Dangling(ts, vs, s.nodes)
    ensures out == Returned(Success) ==> exists x :: 0 <= x < |vs| && vs[x] > 0
    ensures !m.faulty ==> !old(m.faulty)
    ensures !m.faulty && out != Returned(Success) ==>
              (forall x :: 0 <= x < |vs| ==> vs[x] <= 0) && (out == RollbackReadsFreed <==> |vs| >= 2)
  {
    hide Separate, Uniform, Remaining, Rejected, Owned, Settled, Kept;
    ghost var k := 0;
    var i := 0;
    RemainingEnds(ts, vs);
    SettledSelf(m.live, s.Blocks());
    while i < |doomed|
      invariant 0 <= i <= |doomed| && k == NextFrom(pos, i) <= |ts|
      invariant s.Valid(m) && s.self == old(s.self) && s.nodes == Remaining(ts, vs, k) && s.nodes != []
      invariant tmp in m.live && tmp !in s.Blocks() && (!m.faulty ==> !old(m.faulty))
      invariant i == 0 ==> m.live == old(m.live) && s.nodes == ts && s.buf == old(s.buf) && s.self == old(s.self)
      invariant Settled(old(m.live), old(s.Blocks()), m.live, s.Blocks())
      invariant i > 0 ==> doomed[0].handle !in Owned(s.nodes)
    {
      ghost var p, was := pos[i], s.nodes;
      NoneBetween(ts, vs, doomed, pos, i);
      RemainingRun(ts, vs, k, p);
      ghost var at, before, blocks := 0, m.live, s.Blocks();
      var ret;
      ret, at := Remove(m, s, doomed[i]);
      if ret != Success {
        LastStanding(ts, vs, doomed, pos, i, s.nodes);
        if i > 0 {
          Dangles(ts, vs, doomed, pos, i, s.nodes);
          return RollbackReadsFreed;
        }
        m.Free(tmp);
        return Returned(ret);
      }
      SettledTwice(old(m.live), old(s.Blocks()), before, blocks, m.live, s.Blocks());
      Bystander(before, blocks, m.live, s.Blocks(), tmp);
      RemainingStep(ts, vs, p, at);
      SeparateWithout(was, at);
      FirstGone(ts, vs, doomed, pos, i, was, at);
      k := p + 1;
      i := i + 1;
    }
    NoneBetween(ts, vs, doomed, pos, |doomed|);
    RemainingRun(ts, vs, k, |ts|);
    KeptNone(ts, vs);
    SettledBut(old(m.live), old(s.Blocks()), m.live, s.Blocks(), tmp);
    m.Free(tmp);
    return Returned(Success);
  }

  /** Where the search for the i-th rejected target starts. */
  ghost function NextFrom(pos: seq<nat>, i: nat): nat
    requires i <= |pos|
  {
    if i == 0 then 0 else pos[i - 1] + 1
  }

  lemma RemainingEnds(ts: seq<Target>, vs: seq<int>)
    requires |ts| == |vs|
    ensures Remaining(ts, vs, 0) == ts && Remaining(ts, vs, |ts|) == Kept(ts, vs)
  {
    assert ts[..0] == [] && ts[..|ts|] == ts && vs[..|vs|] == vs;
  }

  lemma SettledSelf(live: set<Ptr>, blocks: set<Ptr>)
    requires blocks <= live
    ensures Settled(live, blocks, live, blocks)
  {
  }

  /** A live block of nobody stays live. */
  lemma Bystander(live: set<Ptr>, blocks: set<Ptr>, live': set<Ptr>, blocks': set<Ptr>, x: Ptr)
    requires Settled(live, blocks, live', blocks') && x in live && x !in blocks
    ensures x in live' && x !in blocks'
  {
  }

  lemma SettledBut(live: set<Ptr>, blocks: set<Ptr>, live': set<Ptr>, blocks': set<Ptr>, x: Ptr)
    requires Settled(live, blocks, live', blocks') && x !in blocks'
    ensures Settled(live - {x}, blocks, live' - {x}, blocks')
  {
  }

  lemma {:induction false} KeptNone(ts: seq<Target>, vs: seq<int>)
    requires |ts| == |vs|
    ensures Kept(ts, vs) == [] <==> forall x :: 0 <= x < |vs| ==> vs[x] <= 0
  {
    if ts != [] {
      KeptNone(ts[..|ts| - 1], vs[..|vs| - 1]);
      assert forall x :: 0 <= x < |vs| - 1 ==> vs[..|vs| - 1][x] == vs[x];
    }
  }

  /** The target to remove is there; if it is the only one left, then every target has been rejected. */
  lemma LastStanding(ts: seq<Target>, vs: seq<int>, doomed: seq<Target>, pos: seq<nat>, i: nat, now: seq<Target>)
    requires Rejected(ts, vs, doomed, pos, |ts|) && i < |pos| && pos[i] < |ts| && now == Remaining(ts, vs, pos[i]) && Separate(now)
    ensures Has(now, doomed[i]) && doomed[i].handle != NULL
    ensures |now| == 1 ==> (forall x :: 0 <= x < |vs| ==> vs[x] <= 0) && (i > 0 <==> |vs| >= 2)
  {
    var p := pos[i];
    var kept := Kept(ts[..p], vs[..p]);
    assert now[|kept|] == ts[p];
    PrefixApart(now, |kept|);
    if |now| == 1 {
      KeptNone(ts[..p], vs[..p]);
      assert forall x :: 0 <= x < p ==> vs[..p][x] == vs[x];
      assert p == |ts| - 1;
      if p > 0 {
        assert vs[0] <= 0;
        assert 0 in pos;
        var j :| 0 <= j < |pos| && pos[j] == 0;
        assert j != i;
      }
      assert i > 0 ==> pos[0] < p;
    }
  }

  /** The target at the found position is the very one that the filter rejected. */
  lemma FirstGone(ts: seq<Target>, vs: seq<int>, doomed: seq<Target>, pos: seq<nat>, i: nat, was: seq<Target>, at: nat)
    requires Rejected(ts, vs, doomed, pos, |ts|) && i < |pos| && pos[i] < |ts| && was == Remaining(ts, vs, pos[i])
    requires Uniform(was) && at < |was| && Alike(was[at], doomed[i])
    ensures was[at] == doomed[i]
  {
    var kept := Kept(ts[..pos[i]], vs[..pos[i]]);
    assert was[|kept|] == ts[pos[i]];
    assert at == |kept|;
  }

  lemma Dangles(ts: seq<Target>, vs: seq<int>, doomed: seq<Target>, pos: seq<nat>, i: nat, now: seq<Target>)
    requires Rejected(ts, vs, doomed, pos, |ts|) && 0 < i < |pos| && pos[i] < |ts| && now == Remaining(ts, vs, pos[i])
    requires doomed[0].handle !in Owned(now)
    ensures Dangling(ts, vs, now)
  {
    hide Remaining, Owned;
    assert pos[0] < pos[i];
    forall j | 0 <= j < pos[0] ensures vs[j] > 0 {
      assert forall x :: 0 <= x < |pos| ==> pos[x] != j;
    }
    assert vs[pos[0]] == 0 && ts[pos[0]] == doomed[0];
  }

  lemma NoneBetween(ts: seq<Target>, vs: seq<int>, doomed: seq<Target>, pos: seq<nat>, i: nat)
    requires Rejected(ts, vs, doomed, pos, |ts|) && i <= |pos|
    ensures (forall j :: 0 <= j < |pos| ==> pos[j] < |ts| && vs[pos[j]] == 0 && doomed[j] == ts[pos[j]]) && |doomed| == |pos|
    ensures NextFrom(pos, i) <= (if i < |pos| then pos[i] else |ts|)
    ensures forall x :: NextFrom(pos, i) <= x < (if i < |pos| then pos[i] else |ts|) ==> vs[x] > 0
  {
    forall x | NextFrom(pos, i) <= x < (if i < |pos| then pos[i] else |ts|) ensures vs[x] > 0 {
      assert forall j :: 0 <= j < |pos| ==> pos[j] != x;
    }
  }

  /** What a target is, whoever owns it. */
  datatype Id = Id(kind: int, id: int)

  function IdOf(t: Target): Id {
    Id(t.kind, t.id)
  }

  function Ids(ts: seq<Target>): (ids: seq<Id>)
    ensures |ids| == |ts| && forall i :: 0 <= i < |ts| ==> ids[i] == IdOf(ts[i])
  {
    seq(|ts|, i requires 0 <= i < |ts| => IdOf(ts[i]))
  }

  /** One call on a memspace.  The callback of `Prune` gives each target a verdict, that of `Select` the index
      of the best target for it, where an index out of range stands for its failure. */
  datatype Call =
    | Put(target: Target)
    | Take(target: Target)
    | Copy
    | Select(pick: (Target, seq<Target>) -> int)
    | Prune(callback: Id -> int)

  function TakenOut(ids: seq<Id>, x: Id): seq<Id> {
    if ids == [] then []
    else
      var init, y := TakenOut(ids[..|ids| - 1], x), ids[|ids| - 1];
      if y == x then init else init + [y]
  }

  function Passed(ids: seq<Id>, callback: Id -> int): seq<Id> {
    if ids == [] then []
    else
      var init, y := Passed(ids[..|ids| - 1], callback), ids[|ids| - 1];
      if callback(y) > 0 then init + [y] else init
  }

  /** The targets after a call: a failed one changes nothing. */
  function NextIds(ids: seq<Id>, call: Call, ret: Result): seq<Id> {
    if ret != Success then ids
    else
      match call
      case Put(t) => ids + [IdOf(t)]
      case Take(t) => TakenOut(ids, IdOf(t))
      case Copy => ids
      case Select(_) => ids
      case Prune(callback) => Passed(ids, callback)
  }

  function Replay(ids: seq<Id>, calls: seq<Call>, rets: seq<Result>): seq<Id>
    requires |calls| == |rets|
  {
    if calls == [] then ids
    else
      var n := |calls| - 1;
      NextIds(Replay(ids, calls[..n], rets[..n]), calls[n], rets[n])
  }

  lemma {:induction false} TakenOutAbsent(ids: seq<Id>, x: Id)
    requires x !in ids
    ensures TakenOut(ids, x) == ids
  {
    if ids != [] {
      TakenOutAbsent(ids[..|ids| - 1], x);
    }
  }

  lemma {:induction false} TakenOutAt(ids: seq<Id>, i: nat)
    requires i < |ids| && forall j, k :: 0 <= j < k < |ids| ==> ids[j] != ids[k]
    ensures TakenOut(ids, ids[i]) == ids[..i] + ids[i + 1..]
    decreases |ids|
  {
    var n := |ids| - 1;
    if i == n {
      assert ids[n] !in ids[..n];
      TakenOutAbsent(ids[..n], ids[n]);
    } else {
      TakenOutAt(ids[..n], i);
      assert ids[..n][..i] == ids[..i] && ids[i + 1..] == ids[..n][i + 1..] + [ids[n]];
    }
  }

  lemma IdsMore(ts: seq<Target>, now: seq<Target>, t: Target)
    requires |now| == |ts| + 1 && now[..|ts|] == ts && Alike(now[|ts|], t)
    ensures Ids(now) == Ids(ts) + [IdOf(t)]
  {
    assert forall i :: 0 <= i < |ts| ==> now[i] == now[..|ts|][i];
  }

  lemma IdsWithout(ts: seq<Target>, i: nat, t: Target)
    requires i < |ts| && Uniform(ts) && Alike(ts[i], t)
    ensures Ids(Without(ts, i)) == TakenOut(Ids(ts), IdOf(t))
  {
    TakenOutAt(Ids(ts), i);
  }

  lemma {:induction false} IdsKept(ts: seq<Target>, vs: seq<int>, callback: Id -> int)
    requires |ts| == |vs| && forall i :: 0 <= i < |ts| ==> vs[i] == callback(IdOf(ts[i]))
    ensures Ids(Kept(ts, vs)) == Passed(Ids(ts), callback)
  {
    if ts != [] {
      var n := |ts| - 1;
      IdsKept(ts[..n], vs[..n], callback);
      assert Ids(ts)[..n] == Ids(ts[..n]);
    }
  }

  /** Any sequence of calls: the targets are the replay of the calls that succeeded, pairwise different and of
      one type, every block stays accounted for, and copies that are destroyed again leave nothing behind.
      Only a failed removal after a successful one, inside the filter helper, can stop the sequence. */
  method Calls(m: Memory, s: Space, calls: seq<Call>) returns (rets: seq<Result>, lost: bool)
    requires s.Valid(m)
    modifies m, s
    ensures s.Valid(m) && s.self == old(s.self)
    ensures !lost ==> |rets| == |calls| && Settled(old(m.live), old(s.Blocks()), m.live, s.Blocks())
    ensures !lost ==> Ids(s.nodes) == Replay(Ids(old(s.nodes)), calls, rets)
    ensures lost ==> |rets| < |calls| && calls[|rets|].Prune?
  {
    hide Separate, Uniform, Owned, Settled, Kept, NextIds, Ids;
    ghost var ids := Ids(s.nodes);
    SettledSelf(m.live, s.Blocks());
    rets := [];
    for i := 0 to |calls|
      invariant s.Valid(m) && s.self == old(s.self) && Settled(old(m.live), old(s.Blocks()), m.live, s.Blocks())
      invariant |rets| == i && Ids(s.nodes) == Replay(ids, calls[..i], rets)
    {
      ghost var live, blocks := m.live, s.Blocks();
      var ret;
      ret, lost := One(m, s, calls[i]);
      if lost {
        return;
      }
      SettledTwice(old(m.live), old(s.Blocks()), live, blocks, m.live, s.Blocks());
      assert calls[..i + 1][..i] == calls[..i] && (rets + [ret])[..i] == rets;
      rets := rets + [ret];
    }
    assert calls[..|calls|] == calls;
    lost := false;
  }

  function Clipped(i: int, n: nat): (r: int)
    ensures r < n && (0 <= i < n ==> r == i) && (i < 0 || i >= n ==> r < 0)
  {
    if 0 <= i < n then i else -1
  }

  method One(m: Memory, s: Space, call: Call) returns (ret: Result, lost: bool)
    requires s.Valid(m)
    modifies m, s
    ensures s.Valid(m) && s.self == old(s.self)
    ensures !lost ==> Settled(old(m.live), old(s.Blocks()), m.live, s.Blocks())
    ensures !lost ==> Ids(s.nodes) == NextIds(Ids(old(s.nodes)), call, ret)
    ensures lost ==> call.Prune?
  {
    hide Separate, Uniform, Owned, Kept, Ids, TakenOut, Passed, IsSelection, Dangling, Firsts, Settled;
    ghost var ts := s.nodes;
    SettledSelf(m.live, s.Blocks());
    lost := false;
    match call
    case Put(t) =>
      ret := Add(m, s, t);
      if ret == Success {
        IdsMore(ts, s.nodes, t);
      }
    case Take(t) =>
      ghost var i;
      ret, i := Remove(m, s, t);
      if ret == Success {
        IdsWithout(ts, i, t);
      }
    case Copy =>
      var c;
      ret, c := Clone(m, s);
      if c != null {
        Destroy(m, c);
      }
      assert m.live == old(m.live);
    case Select(pick) =>
      var picks := seq(|s.nodes|, i requires 0 <= i < |s.nodes| reads s => Clipped(pick(s.nodes[i], s.nodes), |s.nodes|));
      var c;
      ret, c := Filter(m, s, picks);
      if c != null {
        Destroy(m, c);
      }
      assert m.live == old(m.live);
    case Prune(callback) =>
      var verdicts := seq(|s.nodes|, i requires 0 <= i < |s.nodes| reads s => callback(IdOf(s.nodes[i])));
      IdsKept(ts, verdicts, callback);
      var out := FilterHelper(m, s, verdicts);
      lost := out == RollbackReadsFreed;
      ret := if out.Returned? then out.ret else Failed;
  }
}
