/** The generated Towers of Hanoi program, run again and again over one pool file with a crash
    possible after every step. */
module PersistentHanoi {
  import opened PmemPool
  import opened PersistentLib
  import opened PersistentStack
  import opened HanoiMoves

  /** The root object: three slots for the stacks. */
  const ROOT: Oid := 1

  /** Which block is what: the stack of each slot (NULL while it does not exist), its nodes, and who
      owns each live block: ROOT_OWNER, peg x for a node, STACK_OWNER + x for a stack. */
  datatype Layout = Layout(stacks: seq<Oid>, nodes: seq<seq<Oid>>, owner: map<Oid, int>)

  const ROOT_OWNER := -1
  const STACK_OWNER := 3

  /** Slot x holds stack `s` with those nodes and disks, all of them blocks of peg x; an absent stack is an empty peg. */
  ghost predicate PegAt(h: Heap, owner: map<Oid, int>, s: Oid, nodes: seq<Oid>, disks: seq<int>, x: nat) {
    && (if s == NULL then nodes == [] && disks == []
        else StackAt(h, s, nodes, disks) && s in owner && owner[s] == STACK_OWNER + x)
    && (forall i :: 0 <= i < |nodes| ==> nodes[i] in owner && owner[nodes[i]] == x)
  }

  /** Every live block is the root, a stack in a slot, or a node of such a stack. */
  ghost predicate Owned(lay: Layout, o: Oid)
    requires |lay.stacks| == |lay.nodes| == 3 && o in lay.owner
  {
    var w := lay.owner[o];
    || (w == ROOT_OWNER && o == ROOT)
    || (0 <= w < 3 && o in lay.nodes[w])
    || (STACK_OWNER <= w < STACK_OWNER + 3 && o == lay.stacks[w - STACK_OWNER])
  }

  /** The heap holds exactly the three pegs, laid out as `lay` says. */
  ghost predicate Holds(h: Heap, lay: Layout, pegs: Pegs) {
    && |lay.stacks| == |lay.nodes| == |pegs| == 3
    && NULL !in h && ROOT in h && h[ROOT] == lay.stacks
    && ROOT in lay.owner && lay.owner[ROOT] == ROOT_OWNER
    && (forall x :: 0 <= x < 3 ==> PegAt(h, lay.owner, lay.stacks[x], lay.nodes[x], pegs[x], x))
    && h.Keys == lay.owner.Keys
    && (forall o :: o in lay.owner ==> Owned(lay, o))
  }

  ghost predicate Represents(h: Heap, pegs: Pegs) {
    exists lay :: Holds(h, lay, pegs)
  }

  ghost function PushLayout(lay: Layout, x: nat, n: Oid): Layout
    requires |lay.nodes| == 3 && x < 3
  {
    Layout(lay.stacks, lay.nodes[x := [n] + lay.nodes[x]], lay.owner[n := x])
  }

  ghost function PopLayout(lay: Layout, x: nat): Layout
    requires |lay.nodes| == 3 && x < 3 && lay.nodes[x] != []
  {
    Layout(lay.stacks, lay.nodes[x := lay.nodes[x][1..]], lay.owner - {lay.nodes[x][0]})
  }

  lemma PushSame(h: Heap, owner: map<Oid, int>, s: Oid, nodes: seq<Oid>, disks: seq<int>, x: nat, n: Oid, v: int)
    requires PegAt(h, owner, s, nodes, disks, x) && s != NULL && n != NULL && n !in h && n !in owner
    ensures PegAt(PushHeap(h, s, n, v), owner[n := x], s, [n] + nodes, [v] + disks, x)
  {
    PushKeepsStack(h, s, nodes, disks, n, v);
  }

  lemma PushOther(h: Heap, owner: map<Oid, int>, s: Oid, nodes: seq<Oid>, disks: seq<int>, y: nat,
                  s': Oid, x: nat, n: Oid, v: int)
    requires PegAt(h, owner, s, nodes, disks, y) && x < 3 && y < 3 && x != y
    requires s' in h && |h[s']| == 2 && s' in owner && owner[s'] == STACK_OWNER + x && n !in h && n !in owner
    ensures PegAt(PushHeap(h, s', n, v), owner[n := x], s, nodes, disks, y)
  {
    if s != NULL {
      StackFrame(h, PushHeap(h, s', n, v), s, nodes, disks);
    }
  }

  lemma PushHolds(h: Heap, lay: Layout, pegs: Pegs, x: nat, n: Oid, v: int)
    requires Holds(h, lay, pegs) && x < 3 && lay.stacks[x] != NULL && n != NULL && n !in h
    ensures Holds(PushHeap(h, lay.stacks[x], n, v), PushLayout(lay, x, n), pegs[x := [v] + pegs[x]])
  {
    var s, h', lay', pegs' := lay.stacks[x], PushHeap(h, lay.stacks[x], n, v), PushLayout(lay, x, n), pegs[x := [v] + pegs[x]];
    PushSame(h, lay.owner, s, lay.nodes[x], pegs[x], x, n, v);
    forall y | 0 <= y < 3 ensures PegAt(h', lay'.owner, lay'.stacks[y], lay'.nodes[y], pegs'[y], y) {
      if y != x {
        PushOther(h, lay.owner, lay.stacks[y], lay.nodes[y], pegs[y], y, s, x, n, v);
      }
    }
    forall o | o in lay'.owner ensures Owned(lay', o) {
      if o == n {
        assert lay'.nodes[x][0] == o;
      } else {
        assert Owned(lay, o);
      }
    }
  }

  lemma PopSame(h: Heap, owner: map<Oid, int>, s: Oid, nodes: seq<Oid>, disks: seq<int>, x: nat)
    requires PegAt(h, owner, s, nodes, disks, x) && s != NULL && disks != [] && x < 3
    ensures PegAt(PopHeap(h, s), owner - {nodes[0]}, s, nodes[1..], disks[1..], x)
  {
    PopKeepsStack(h, s, nodes, disks);
    forall i | 0 <= i < |nodes[1..]| ensures nodes[1..][i] in owner - {nodes[0]} {
      assert nodes[1..][i] == nodes[i + 1];
    }
  }

  lemma PopOther(h: Heap, owner: map<Oid, int>, s: Oid, nodes: seq<Oid>, disks: seq<int>, y: nat, s': Oid, x: nat)
    requires PegAt(h, owner, s, nodes, disks, y) && x < 3 && y < 3 && x != y
    requires s' in h && |h[s']| == 2 && s' in owner && owner[s'] == STACK_OWNER + x
    requires h[s'][TOP] in h && |h[h[s'][TOP]]| == 2 && h[s'][TOP] in owner && owner[h[s'][TOP]] == x
    ensures PegAt(PopHeap(h, s'), owner - {h[s'][TOP]}, s, nodes, disks, y)
  {
    if s != NULL {
      StackFrame(h, PopHeap(h, s'), s, nodes, disks);
    }
  }

  lemma PopOwned(lay: Layout, x: nat, o: Oid)
    requires |lay.stacks| == |lay.nodes| == 3 && x < 3 && lay.nodes[x] != []
    requires o in lay.owner && o != lay.nodes[x][0] && Owned(lay, o)
    ensures Owned(PopLayout(lay, x), o)
  {
    if lay.owner[o] == x {
      var nodes := lay.nodes[x];
      var i :| 0 <= i < |nodes| && nodes[i] == o;
      assert nodes[1..][i - 1] == o;
    }
  }

  lemma PopHolds(h: Heap, lay: Layout, pegs: Pegs, x: nat)
    requires Holds(h, lay, pegs) && x < 3 && lay.stacks[x] != NULL && pegs[x] != []
    ensures Holds(PopHeap(h, lay.stacks[x]), PopLayout(lay, x), pegs[x := pegs[x][1..]])
  {
    assert PegAt(h, lay.owner, lay.stacks[x], lay.nodes[x], pegs[x], x);
    var s, top := lay.stacks[x], lay.nodes[x][0];
    var h', lay', pegs' := PopHeap(h, s), PopLayout(lay, x), pegs[x := pegs[x][1..]];
    PopSame(h, lay.owner, s, lay.nodes[x], pegs[x], x);
    forall y | 0 <= y < 3 ensures PegAt(h', lay'.owner, lay'.stacks[y], lay'.nodes[y], pegs'[y], y) {
      if y != x {
        PopOther(h, lay.owner, lay.stacks[y], lay.nodes[y], pegs[y], y, s, x);
      }
    }
    forall o | o in lay'.owner ensures Owned(lay', o) {
      PopOwned(lay, x, o);
    }
  }

  lemma PegOf(h: Heap, lay: Layout, pegs: Pegs, x: nat)
    requires Holds(h, lay, pegs) && x < 3
    ensures |lay.stacks| == |lay.nodes| == |pegs| == 3
    ensures lay.stacks[x] != NULL ==> StackAt(h, lay.stacks[x], lay.nodes[x], pegs[x])
  {
    assert PegAt(h, lay.owner, lay.stacks[x], lay.nodes[x], pegs[x], x);
  }

  lemma ApplyMove(pegs: Pegs, m: Move)
    requires |pegs| == 3 && m.from < 3 && m.to < 3 && m.from != m.to
    ensures pegs[m.from] == [] ==> Apply(pegs, m) == pegs[m.to := [0] + pegs[m.to]]
    ensures pegs[m.from] != [] ==>
              Apply(pegs, m) == pegs[m.from := pegs[m.from][1..]][m.to := [pegs[m.from][0]] + pegs[m.to]]
  {
  }

  /** One disk move of the solver: a pop and a push made atomic by the transaction around them. */
  method MoveDisk(p: Pool, from: Oid, to: Oid, ghost lay: Layout, ghost pegs: Pegs, ghost m: Move)
    returns (ghost lay': Layout)
    requires p.Valid() && p.st.depth == 0 && Holds(Live(p.st), lay, pegs)
    requires m.from < 3 && m.to < 3 && m.from != m.to
    requires from == lay.stacks[m.from] != NULL && to == lay.stacks[m.to] != NULL
    modifies p
    ensures p.Valid() && p.st.depth == 0
    ensures Holds(Live(p.st), lay', Apply(pegs, m)) && lay'.stacks == lay.stacks
    ensures p.images == old(p.images) + [Live(p.st)] && Represents(Live(p.st), Apply(pegs, m))
  {
    hide Holds, Apply, WellFormed;
    ghost var h, f, t := Live(p.st), m.from, m.to;
    Quiet(p.st);
    PegOf(h, lay, pegs, f);
    PegOf(h, lay, pegs, t);
    p.Begin();
    var disk := Pop(p, from, lay.nodes[f], pegs[f]);
    ghost var lay1, pegs1 := lay, pegs;
    if pegs[f] != [] {
      PopHolds(h, lay, pegs, f);
      lay1, pegs1 := PopLayout(lay, f), pegs[f := pegs[f][1..]];
    }
    ghost var h1 := Live(p.st);
    PegOf(h1, lay1, pegs1, t);
    ghost var n := Push(p, to, disk);
    PushHolds(h1, lay1, pegs1, t, n, disk);
    lay' := PushLayout(lay1, t, n);
    assert Apply(pegs, m) == pegs1[t := [disk] + pegs1[t]] by {
      ApplyMove(pegs, m);
    }
    assert Live(p.st)[to][SIZE] == h[to][SIZE] + 1;
    p.End();
    Quiet(p.st);
  }

  /** The heap is the state after the first k of the moves. */
  ghost predicate Stage(h: Heap, pegs: Pegs, ms: seq<Move>, k: int)
  {
    0 <= k <= |ms| && Represents(h, After(pegs, ms[..k]))
  }

  /** The images from `start` on are the states after one, two, ... all moves, in this order. */
  ghost predicate Follows(images: seq<Heap>, start: nat, pegs: Pegs, ms: seq<Move>)
  {
    && |images| == start + |ms|
    && forall i :: start <= i < |images| ==> Stage(images[i], pegs, ms, i - start + 1)
  }

  lemma StageZero(h: Heap, pegs: Pegs, ms: seq<Move>)
    requires Represents(h, pegs)
    ensures Stage(h, pegs, ms, 0)
  {
    assert ms[..0] == [];
  }

  lemma StageLeft(h: Heap, pegs: Pegs, x: seq<Move>, m: Move, y: seq<Move>, k: int)
    requires Stage(h, pegs, x, k)
    ensures Stage(h, pegs, x + [m] + y, k)
  {
    hide Represents, After, Apply;
    SplitPrefix(x, m, y, k);
  }

  lemma StageRight(h: Heap, pegs: Pegs, x: seq<Move>, m: Move, y: seq<Move>, k: int)
    requires Stage(h, Apply(After(pegs, x), m), y, k)
    ensures Stage(h, pegs, x + [m] + y, |x| + 1 + k)
  {
    hide Represents, After, Apply;
    SplitPrefix(x, m, y, |x| + 1 + k);
    AfterParts(pegs, x, m, y[..k]);
  }

  lemma FollowsParts(c: seq<Heap>, start: nat, mid: nat, pegs: Pegs, x: seq<Move>, m: Move, y: seq<Move>)
    requires start + |x| == mid && mid + 1 + |y| == |c|
    requires Follows(c[..mid], start, pegs, x)
    requires Stage(c[mid], Apply(After(pegs, x), m), y, 0)
    requires Follows(c, mid + 1, Apply(After(pegs, x), m), y)
    ensures Follows(c, start, pegs, x + [m] + y)
  {
    hide Represents, After, Apply;
    forall i | start <= i < |c| ensures Stage(c[i], pegs, x + [m] + y, i - start + 1) {
      if i < mid {
        assert c[i] == c[..mid][i];
        StageLeft(c[i], pegs, x, m, y, i - start + 1);
      } else {
        StageRight(c[i], pegs, x, m, y, i - mid);
      }
    }
  }

  lemma HoldsShape(h: Heap, lay: Layout, pegs: Pegs)
    requires Holds(h, lay, pegs)
    ensures |pegs| == |lay.stacks| == 3
  {
  }

  lemma UnfoldMoves(n: int, pegs: Pegs, f: nat, t: nat, a: nat)
    ensures n <= 0 ==> Moves(n, f, t, a) == [] && After(pegs, Moves(n, f, t, a)) == pegs
    ensures n > 0 ==> Moves(n, f, t, a) == Moves(n - 1, f, a, t) + [Move(f, t)] + Moves(n - 1, a, t, f)
  {
  }

  /** `moveDisks`: exactly one durable state per disk move, in the order of the moves. */
  method MoveDisks(n: int, p: Pool, from: Oid, to: Oid, aux: Oid,
                   ghost lay: Layout, ghost pegs: Pegs, ghost f: nat, ghost t: nat, ghost a: nat)
    returns (ghost lay': Layout)
    requires p.Valid() && p.st.depth == 0 && Holds(Live(p.st), lay, pegs) && Distinct(f, t, a)
    requires from == lay.stacks[f] != NULL && to == lay.stacks[t] != NULL && aux == lay.stacks[a] != NULL
    modifies p
    ensures p.Valid() && p.st.depth == 0
    ensures Holds(Live(p.st), lay', After(pegs, Moves(n, f, t, a))) && lay'.stacks == lay.stacks
    ensures old(p.images) <= p.images && Follows(p.images, |old(p.images)|, pegs, Moves(n, f, t, a))
    decreases if n <= 0 then 0 else n
  {
    hide Holds, Represents, After, Apply, Moves, WellFormed, Live, Recover;
    HoldsShape(Live(p.st), lay, pegs);
    UnfoldMoves(n, pegs, f, t, a);
    if n <= 0 {
      return lay;
    }
    ghost var x, m, y := Moves(n - 1, f, a, t), Move(f, t), Moves(n - 1, a, t, f);
    lay' := MoveDisks(n - 1, p, from, aux, to, lay, pegs, f, a, t);
    ghost var pegs1, mid := After(pegs, x), |p.images|;
    lay' := MoveDisk(p, from, to, lay', pegs1, m);
    ghost var pegs2 := Apply(pegs1, m);
    StageZero(p.images[mid], pegs2, y);
    lay' := MoveDisks(n - 1, p, aux, to, from, lay', pegs2, a, t, f);
    FollowsParts(p.images, |old(p.images)|, mid, pegs, x, m, y);
    AfterParts(pegs, x, m, y);
  }

  ghost function CreateLayout(lay: Layout, x: nat, s: Oid): Layout
    requires |lay.stacks| == 3 && x < 3
  {
    Layout(lay.stacks[x := s], lay.nodes, lay.owner[s := STACK_OWNER + x])
  }

  lemma CreateHolds(h: Heap, lay: Layout, pegs: Pegs, x: nat, s: Oid)
    requires Holds(h, lay, pegs) && x < 3 && lay.stacks[x] == NULL && s != NULL && s !in h
    ensures Holds(Poke(h[s := [NULL, 0]], ROOT, x, s), CreateLayout(lay, x, s), pegs)
  {
    hide PegAt, Owned;
    var h', lay' := Poke(h[s := [NULL, 0]], ROOT, x, s), CreateLayout(lay, x, s);
    forall y | 0 <= y < 3 ensures PegAt(h', lay'.owner, lay'.stacks[y], lay'.nodes[y], pegs[y], y) {
      assert PegAt(h, lay.owner, lay.stacks[y], lay.nodes[y], pegs[y], y);
      CreatePeg(h, lay, pegs, x, s, y);
    }
    forall o | o in lay'.owner ensures Owned(lay', o) {
      CreateOwned(lay, x, s, o);
    }
  }

  lemma CreatePeg(h: Heap, lay: Layout, pegs: Pegs, x: nat, s: Oid, y: nat)
    requires |lay.stacks| == |lay.nodes| == |pegs| == 3 && x < 3 && y < 3 && lay.stacks[x] == NULL
    requires ROOT in h && h[ROOT] == lay.stacks && ROOT in lay.owner && lay.owner[ROOT] == ROOT_OWNER
    requires s != NULL && s !in h && s !in lay.owner
    requires PegAt(h, lay.owner, lay.stacks[y], lay.nodes[y], pegs[y], y)
    ensures PegAt(Poke(h[s := [NULL, 0]], ROOT, x, s), lay.owner[s := STACK_OWNER + x], lay.stacks[x := s][y], lay.nodes[y], pegs[y], y)
  {
    if y != x && lay.stacks[y] != NULL {
      StackFrame(h, Poke(h[s := [NULL, 0]], ROOT, x, s), lay.stacks[y], lay.nodes[y], pegs[y]);
    }
  }

  lemma CreateOwned(lay: Layout, x: nat, s: Oid, o: Oid)
    requires |lay.stacks| == |lay.nodes| == 3 && x < 3 && lay.stacks[x] == NULL && NULL !in lay.owner
    requires o == s || (o in lay.owner && Owned(lay, o))
    ensures Owned(CreateLayout(lay, x, s), o)
  {
  }

  /** All images from `start` on are states with these pegs. */
  ghost predicate Keeps(images: seq<Heap>, start: nat, pegs: Pegs) {
    forall i :: start <= i < |images| ==> Represents(images[i], pegs)
  }

  /** Opening slot x: the stack found or created there; no peg changes. */
  method OpenSlot(p: Pool, x: nat, ghost lay: Layout, ghost pegs: Pegs) returns (s: Oid, ghost lay': Layout)
    requires p.Valid() && p.st.depth == 0 && Holds(Live(p.st), lay, pegs) && x < 3
    modifies p
    ensures p.Valid() && p.st.depth == 0
    ensures Holds(Live(p.st), lay', pegs) && s != NULL && lay'.stacks == lay.stacks[x := s]
    ensures lay.stacks[x] != NULL ==> s == lay.stacks[x]
    ensures old(p.images) <= p.images && Keeps(p.images, |old(p.images)|, pegs)
  {
    ghost var h := Live(p.st);
    s := GetOrCreate(p, ROOT, x, CONTAINER);
    ContainerWords();
    lay' := lay;
    if lay.stacks[x] == NULL {
      CreateHolds(h, lay, pegs, x, s);
      lay' := CreateLayout(lay, x, s);
    }
  }

  /** The seed-once guard: inside one transaction, n disks go onto the first peg if all pegs are empty. */
  method SeedOnce(n: nat, p: Pool, s1: Oid, s2: Oid, s3: Oid, ghost lay: Layout, ghost pegs: Pegs)
    returns (seeded: bool, ghost lay': Layout)
    requires p.Valid() && p.st.depth == 0 && Holds(Live(p.st), lay, pegs)
    requires lay.stacks == [s1, s2, s3] && s1 != NULL && s2 != NULL && s3 != NULL
    modifies p
    ensures p.Valid() && p.st.depth == 0
    ensures seeded <==> pegs == EMPTY
    ensures Holds(Live(p.st), lay', if seeded then Seeded(n) else pegs) && lay'.stacks == lay.stacks
    ensures old(p.images) <= p.images && Keeps(p.images, |old(p.images)|, if seeded then Seeded(n) else pegs)
    ensures Represents(p.images[|p.images| - 1], if seeded then Seeded(n) else pegs)
  {
    hide Holds;
    PegOf(Live(p.st), lay, pegs, 0);
    PegOf(Live(p.st), lay, pegs, 1);
    PegOf(Live(p.st), lay, pegs, 2);
    p.Begin();
    seeded := IsEmpty(p, s1);
    if seeded {
      seeded := IsEmpty(p, s2);
    }
    if seeded {
      seeded := IsEmpty(p, s3);
    }
    assert seeded <==> pegs == EMPTY;
    lay' := lay;
    if seeded {
      lay' := PushTower(n, p, s1, lay);
    }
    p.End();
    Quiet(p.st);
    RepresentsIntro(Live(p.st), lay', if seeded then Seeded(n) else pegs);
  }

  lemma RepresentsIntro(h: Heap, lay: Layout, pegs: Pegs)
    requires Holds(h, lay, pegs)
    ensures Represents(h, pegs)
  {
  }

  lemma TowerTail(n: nat, i: nat)
    requires 0 < i <= n
    ensures [i] + Tower(n)[i..] == Tower(n)[i - 1..]
  {
    TowerAt(n, i - 1);
  }

  method PushTower(n: nat, p: Pool, s1: Oid, ghost lay: Layout) returns (ghost lay': Layout)
    requires p.Valid() && p.st.depth > 0 && Holds(Live(p.st), lay, EMPTY) && lay.stacks[0] == s1 != NULL
    modifies p
    ensures p.Valid() && p.st.depth == old(p.st.depth) && Recover(p.st) == old(Recover(p.st))
    ensures p.images == old(p.images)
    ensures Holds(Live(p.st), lay', Seeded(n)) && lay'.stacks == lay.stacks
  {
    hide Holds;
    lay' := lay;
    var i := n;
    ghost var pegs := EMPTY;
    assert Tower(n)[n..] == [];
    while i > 0
      invariant 0 <= i <= n
      invariant p.Valid() && p.st.depth == old(p.st.depth) && Recover(p.st) == old(Recover(p.st))
      invariant p.images == old(p.images)
      invariant pegs == [Tower(n)[i..], [], []]
      invariant Holds(Live(p.st), lay', pegs) && lay'.stacks == lay.stacks
    {
      ghost var h := Live(p.st);
      PegOf(h, lay', pegs, 0);
      ghost var node := Push(p, s1, i);
      PushHolds(h, lay', pegs, 0, node, i);
      lay' := PushLayout(lay', 0, node);
      TowerTail(n, i);
      pegs := pegs[0 := [i] + pegs[0]];
      i := i - 1;
    }
    assert Tower(n)[0..] == Tower(n);
  }

  /** What a pool of this program may look like between runs: nothing seeded yet, or the board after
      some prefix of the moves of the one solve. */
  ghost predicate Reachable(n: nat, pegs: Pegs) {
    pegs == EMPTY || exists k :: Reached(n, pegs, k)
  }

  ghost predicate Reached(n: nat, pegs: Pegs, k: int) {
    0 <= k <= |Moves(n, 0, 1, 2)| && pegs == After(Seeded(n), Moves(n, 0, 1, 2)[..k])
  }

  /** What a crash of a run that started on `pegs` may leave: that board still, or, if it was empty,
      the board after some prefix of the solve. */
  ghost predicate Passes(n: nat, pegs: Pegs, image: Heap) {
    || Represents(image, pegs)
    || (pegs == EMPTY && exists k :: Stage(image, Seeded(n), Moves(n, 0, 1, 2), k))
  }

  /** One whole run of the program from any board: it seeds and solves an empty board, and leaves any
      other board exactly as it found it; what it prints is the final board. */
  method Run(n: nat, p: Pool, ghost lay: Layout, ghost pegs: Pegs) returns (out: seq<seq<int>>)
    requires p.Valid() && p.st.depth == 0 && Holds(Live(p.st), lay, pegs)
    modifies p
    ensures p.Valid() && p.st.depth == 0
    ensures out == if pegs == EMPTY then Solved(n) else pegs
    ensures out == Solved(n) <==> pegs == EMPTY || pegs == Solved(n)
    ensures Represents(Live(p.st), out)
    ensures old(p.images) <= p.images
    ensures pegs == EMPTY ==> EndsWithSolve(n, p.images)
    ensures forall i :: |old(p.images)| <= i < |p.images| ==> Passes(n, pegs, p.images[i])
  {
    hide Holds, Represents, Moves, After, WellFormed, Live, Recover;
    HoldsShape(Live(p.st), lay, pegs);
    ghost var lay', ms := lay, Moves(n, 0, 1, 2);
    var s1, s2, s3, seeded;
    s1, lay' := OpenSlot(p, 0, lay', pegs);
    s2, lay' := OpenSlot(p, 1, lay', pegs);
    s3, lay' := OpenSlot(p, 2, lay', pegs);
    assert lay'.stacks == [s1, s2, s3];
    ghost var ready := |p.images|;
    seeded, lay' := SeedOnce(n, p, s1, s2, s3, lay', pegs);
    ghost var started := |p.images|;
    ghost var final := pegs;
    if seeded {
      forall i | ready <= i < started ensures Stage(p.images[i], Seeded(n), ms, 0) {
        StageZero(p.images[i], Seeded(n), ms);
      }
      StageZero(p.images[started - 1], Seeded(n), ms);
      lay' := MoveDisks(n, p, s1, s2, s3, lay', Seeded(n), 0, 1, 2);
      SolvedAtEnd(n, ms);
      final := Solved(n);
      SolveImages(n, p.images, started);
    }
    out := PrintAll(p, s1, s2, s3, lay', final);
    RepresentsIntro(Live(p.st), lay', out);
    forall i | |old(p.images)| <= i < |p.images| ensures Passes(n, pegs, p.images[i]) {
      if seeded && i >= ready {
        assert Stage(p.images[i], Seeded(n), ms, if i < started then 0 else i - started + 1);
      }
    }
  }

  /** The last images are the boards after none, one, two, ... all moves of the solve: each of them is
      what a crash at its moment leaves. */
  ghost predicate EndsWithSolve(n: nat, images: seq<Heap>) {
    var ms := Moves(n, 0, 1, 2);
    var first := |images| - 1 - |ms|;
    && first >= 0
    && forall i :: first <= i < |images| ==> Stage(images[i], Seeded(n), ms, i - first)
  }

  lemma SolveImages(n: nat, images: seq<Heap>, started: nat)
    requires 0 < started && Follows(images, started, Seeded(n), Moves(n, 0, 1, 2))
    requires Stage(images[started - 1], Seeded(n), Moves(n, 0, 1, 2), 0)
    ensures EndsWithSolve(n, images)
  {
    hide Stage;
  }

  method PrintAll(p: Pool, s1: Oid, s2: Oid, s3: Oid, ghost lay: Layout, ghost pegs: Pegs) returns (out: seq<seq<int>>)
    requires p.Valid() && p.st.depth == 0 && Holds(Live(p.st), lay, pegs)
    requires lay.stacks == [s1, s2, s3] && s1 != NULL && s2 != NULL && s3 != NULL
    modifies p
    ensures p.Valid() && p.st.depth == 0 && Live(p.st) == old(Live(p.st)) && p.images == old(p.images)
    ensures out == pegs
  {
    hide Holds;
    ghost var h := Live(p.st);
    PegOf(h, lay, pegs, 0);
    PegOf(h, lay, pegs, 1);
    PegOf(h, lay, pegs, 2);
    Quiet(p.st);
    var o1 := Print(p, s1, lay.nodes[0], pegs[0]);
    var o2 := Print(p, s2, lay.nodes[1], pegs[1]);
    var o3 := Print(p, s3, lay.nodes[2], pegs[2]);
    out := [o1, o2, o3];
  }

  /** How a run ends: normally, or by a crash that leaves one of the images it passed through. */
  datatype Ending = Completes | Crashes(point: nat)

  /** Boards seen between runs: an empty board stays empty or becomes a prefix of the solve, and is
      solved by a run that completes; any other board is final. */
  ghost predicate IsHistory(n: nat, runs: seq<Ending>, boards: seq<Pegs>) {
    && |boards| == |runs| + 1
    && boards[0] == EMPTY
    && (forall i :: 0 <= i < |boards| ==> Reachable(n, boards[i]))
    && (forall i :: 0 <= i < |runs| ==> NextBoard(n, runs[i], boards[i], boards[i + 1]))
  }

  ghost predicate NextBoard(n: nat, run: Ending, before: Pegs, after: Pegs) {
    && (before != EMPTY ==> after == before)
    && (before == EMPTY && run.Completes? ==> after == Solved(n))
  }

  lemma NewPool(h: Heap)
    requires h == map[ROOT := [NULL, NULL, NULL]]
    ensures Represents(h, EMPTY)
  {
    assert Holds(h, Layout([NULL, NULL, NULL], [[], [], []], map[ROOT := ROOT_OWNER]), EMPTY);
  }

  lemma SolvedReachable(n: nat)
    ensures Reachable(n, Solved(n))
  {
    var ms := Moves(n, 0, 1, 2);
    SolvedAtEnd(n, ms);
    assert ms[..|ms|] == ms;
    assert Reached(n, Solved(n), |ms|);
  }

  lemma CrashedBoard(n: nat, image: Heap, pegs: Pegs) returns (next: Pegs)
    requires Reachable(n, pegs) && Passes(n, pegs, image)
    ensures Represents(image, next) && Reachable(n, next) && (pegs != EMPTY ==> next == pegs)
  {
    hide Represents, After, Moves;
    next := pegs;
    if !Represents(image, pegs) {
      var k :| Stage(image, Seeded(n), Moves(n, 0, 1, 2), k);
      next := After(Seeded(n), Moves(n, 0, 1, 2)[..k]);
      assert Reached(n, next, k);
    }
  }

  lemma ExtendHistory(n: nat, runs: seq<Ending>, boards: seq<Pegs>, run: Ending, next: Pegs)
    requires IsHistory(n, runs, boards) && Reachable(n, next) && NextBoard(n, run, boards[|runs|], next)
    ensures IsHistory(n, runs + [run], boards + [next])
  {
    hide Reachable, NextBoard;
    var runs', boards' := runs + [run], boards + [next];
    forall i | 0 <= i < |runs'| ensures NextBoard(n, runs'[i], boards'[i], boards'[i + 1]) {
      assert i < |runs| ==> runs'[i] == runs[i] && boards'[i] == boards[i] && boards'[i + 1] == boards[i + 1];
    }
  }

  /** Any number of runs over one pool file, each completing or crashing anywhere. */
  method History(n: nat, runs: seq<Ending>) returns (h: Heap)
    ensures exists boards :: IsHistory(n, runs, boards) && Represents(h, boards[|runs|])
  {
    ghost var boards;
    h := map[ROOT := [NULL, NULL, NULL]];
    boards := [EMPTY];
    NewPool(h);
    for r := 0 to |runs|
      invariant IsHistory(n, runs[..r], boards)
      invariant Represents(h, boards[r])
    {
      ghost var next;
      h, next := RunOnce(n, h, runs[r], boards[r]);
      ExtendHistory(n, runs[..r], boards, runs[r], next);
      assert runs[..r + 1] == runs[..r] + [runs[r]];
      boards := boards + [next];
    }
    assert runs[..|runs|] == runs;
  }

  /** Open, run, and either finish or die: the pool file that is left. */
  method RunOnce(n: nat, h: Heap, ending: Ending, ghost pegs: Pegs) returns (h': Heap, ghost next: Pegs)
    requires Represents(h, pegs) && Reachable(n, pegs)
    ensures Represents(h', next) && Reachable(n, next) && NextBoard(n, ending, pegs, next)
  {
    ghost var lay :| Holds(h, lay, pegs);
    hide Holds, Represents, Reachable, Moves;
    HoldsNotNull(h, lay, pegs);
    var p := new Pool(h);
    assert p.images == [h];
    var out := Run(n, p, lay, pegs);
    assert p.images[0] == h;
    SolvedReachable(n);
    if ending.Completes? || ending.point >= |p.images| {
      return Live(p.st), out;
    }
    h' := p.images[ending.point];
    assert Passes(n, pegs, h');
    next := CrashedBoard(n, h', pegs);
  }

  /** The first run dies when the k-th move has become durable; `later` runs follow, then one that
      completes.  The solve is never taken up again: that run prints the unfinished board. */
  method Abandoned(n: nat, k: nat, later: seq<Ending>) returns (out: seq<seq<int>>)
    requires k < |Moves(n, 0, 1, 2)|
    ensures out == After(Seeded(n), Moves(n, 0, 1, 2)[..k]) && out != EMPTY && out != Solved(n)
  {
    hide Holds, Represents, After, Apply;
    ghost var ms := Moves(n, 0, 1, 2);
    ghost var board := After(Seeded(n), ms[..k]);
    var h := CrashAtMove(n, k);
    MoveCount(n, 0, 1, 2);
    Interrupted(n, ms, k);
    assert Reached(n, board, k);
    for r := 0 to |later|
      invariant Represents(h, board)
    {
      ghost var next;
      h, next := RunOnce(n, h, later[r], board);
    }
    ghost var lay := LayoutOf(h, board);
    var p := new Pool(h);
    out := Run(n, p, lay, board);
  }

  /** The pool file that a first run leaves when it dies right after move k. */
  method CrashAtMove(n: nat, k: nat) returns (h: Heap)
    requires k <= |Moves(n, 0, 1, 2)|
    ensures Represents(h, After(Seeded(n), Moves(n, 0, 1, 2)[..k]))
  {
    hide Holds, Represents, After, Apply;
    h := map[ROOT := [NULL, NULL, NULL]];
    NewPool(h);
    ghost var lay := LayoutOf(h, EMPTY);
    var p := new Pool(h);
    var out := Run(n, p, lay, EMPTY);
    var first := |p.images| - 1 - |Moves(n, 0, 1, 2)|;
    h := p.images[first + k];
    assert Stage(p.images[first + k], Seeded(n), Moves(n, 0, 1, 2), first + k - first);
  }

  lemma LayoutOf(h: Heap, pegs: Pegs) returns (lay: Layout)
    requires Represents(h, pegs)
    ensures Holds(h, lay, pegs) && NULL !in h
  {
    lay :| Holds(h, lay, pegs);
  }

  lemma HoldsNotNull(h: Heap, lay: Layout, pegs: Pegs)
    requires Holds(h, lay, pegs)
    ensures NULL !in h
  {
  }

  /** The safety of every board a history can leave: pegs sorted, and all n disks on the pegs or none. */
  lemma ReachableIsSafe(n: nat, pegs: Pegs)
    requires Reachable(n, pegs)
    ensures |pegs| == 3 && Sorted(pegs[0]) && Sorted(pegs[1]) && Sorted(pegs[2])
    ensures Disks(pegs) == (if pegs == EMPTY then multiset{} else multiset(Tower(n)))
  {
    var ms := Moves(n, 0, 1, 2);
    if pegs != EMPTY {
      var k :| Reached(n, pegs, k);
      SolveFromSeed(n, ms, k);
    }
  }

  /** Following the links from slot x: the stack block, then its nodes. */
  ghost predicate Walk(h: Heap, x: nat, path: seq<Oid>) {
    && x < 3 && ROOT in h && |h[ROOT]| == 3
    && path != [] && path[0] == h[ROOT][x]
    && forall i :: 1 <= i < |path| ==> Link(h, path[i - 1], if i == 1 then TOP else NEXT, path[i])
  }

  ghost predicate Link(h: Heap, from: Oid, field: nat, to: Oid) {
    InBounds(h, from, field) && h[from][field] == to
  }

  lemma {:induction false} WalkStays(h: Heap, lay: Layout, pegs: Pegs, x: nat, path: seq<Oid>, i: nat)
    requires Holds(h, lay, pegs) && Walk(h, x, path) && i < |path|
    ensures i > 0 ==> lay.stacks[x] != NULL && i - 1 <= |lay.nodes[x]|
    ensures path[i] == if i == 0 then lay.stacks[x] else Follow(lay.nodes[x], i - 1)
  {
    assert PegAt(h, lay.owner, lay.stacks[x], lay.nodes[x], pegs[x], x);
    if i > 0 {
      WalkStays(h, lay, pegs, x, path, i - 1);
      assert Link(h, path[i - 1], if i == 1 then TOP else NEXT, path[i]);
      if i > 1 {
        assert path[i - 1] == lay.nodes[x][i - 2];
      }
    }
  }

  /** No dangling links, no cycles, no sharing: every walk from a slot ends at NULL or in a live block,
      never meets a block twice, and never meets a block of another slot. */
  lemma NoDanglingLinks(h: Heap, pegs: Pegs, x: nat, path: seq<Oid>, y: nat, path': seq<Oid>)
    requires Represents(h, pegs) && Walk(h, x, path) && Walk(h, y, path')
    ensures path[|path| - 1] == NULL || path[|path| - 1] in h
    ensures forall i, j :: 0 <= i < j < |path| ==> path[i] != path[j]
    ensures x != y && path[|path| - 1] == path'[|path'| - 1] ==> path[|path| - 1] == NULL
  {
    hide Holds, Owned;
    var lay :| Holds(h, lay, pegs);
    WalkOwner(h, lay, pegs, x, path, |path| - 1);
    WalkOwner(h, lay, pegs, y, path', |path'| - 1);
    forall i, j | 0 <= i < j < |path| ensures path[i] != path[j] {
      WalkNoRepeat(h, lay, pegs, x, path, i, j);
    }
  }

  lemma WalkOwner(h: Heap, lay: Layout, pegs: Pegs, x: nat, path: seq<Oid>, i: nat)
    requires Holds(h, lay, pegs) && Walk(h, x, path) && i < |path|
    ensures path[i] != NULL ==> path[i] in h && path[i] in lay.owner && lay.owner[path[i]] in {x, STACK_OWNER + x}
  {
    assert PegAt(h, lay.owner, lay.stacks[x], lay.nodes[x], pegs[x], x);
    WalkStays(h, lay, pegs, x, path, i);
  }

  lemma WalkNoRepeat(h: Heap, lay: Layout, pegs: Pegs, x: nat, path: seq<Oid>, i: nat, j: nat)
    requires Holds(h, lay, pegs) && Walk(h, x, path) && i < j < |path|
    ensures path[i] != path[j]
  {
    hide Owned;
    assert PegAt(h, lay.owner, lay.stacks[x], lay.nodes[x], pegs[x], x);
    WalkStays(h, lay, pegs, x, path, i);
    WalkStays(h, lay, pegs, x, path, j);
  }

  lemma NodeWalk(h: Heap, x: nat, s: Oid, nodes: seq<Oid>, disks: seq<int>, i: nat) returns (path: seq<Oid>)
    requires x < 3 && ROOT in h && |h[ROOT]| == 3 && h[ROOT][x] == s && StackAt(h, s, nodes, disks) && i < |nodes|
    ensures Walk(h, x, path) && path[|path| - 1] == nodes[i]
  {
    path := [s] + nodes[..i + 1];
    forall j | 1 <= j < |path| ensures Link(h, path[j - 1], if j == 1 then TOP else NEXT, path[j]) {
      assert path[j] == nodes[j - 1];
      if j > 1 {
        assert path[j - 1] == nodes[j - 2] && Follow(nodes, j - 1) == nodes[j - 1];
      }
    }
  }

  /** No orphans: every live block is the root or the end of a walk from a slot. */
  lemma NoOrphans(h: Heap, pegs: Pegs, o: Oid)
    requires Represents(h, pegs) && o in h
    ensures o == ROOT || exists x, path :: Walk(h, x, path) && path[|path| - 1] == o
  {
    hide Holds;
    var lay :| Holds(h, lay, pegs);
    if o != ROOT {
      var x, path := WalkTo(h, lay, pegs, o);
    }
  }

  lemma WalkTo(h: Heap, lay: Layout, pegs: Pegs, o: Oid) returns (x: nat, path: seq<Oid>)
    requires Holds(h, lay, pegs) && o in h && o != ROOT
    ensures Walk(h, x, path) && path[|path| - 1] == o
  {
    hide StackAt, Walk;
    assert Owned(lay, o);
    var w := lay.owner[o];
    if w >= STACK_OWNER {
      x, path := w - STACK_OWNER, [o];
      SlotWalk(h, x, o);
    } else {
      x := w;
      assert PegAt(h, lay.owner, lay.stacks[x], lay.nodes[x], pegs[x], x);
      var i :| 0 <= i < |lay.nodes[x]| && lay.nodes[x][i] == o;
      path := NodeWalk(h, x, lay.stacks[x], lay.nodes[x], pegs[x], i);
    }
  }

  lemma SlotWalk(h: Heap, x: nat, s: Oid)
    requires x < 3 && ROOT in h && |h[ROOT]| == 3 && h[ROOT][x] == s
    ensures Walk(h, x, [s])
  {
  }

  lemma {:induction false} StackUnique(h: Heap, s: Oid, ids: seq<Oid>, vals: seq<int>, ids': seq<Oid>, vals': seq<int>, i: nat)
    requires StackAt(h, s, ids, vals) && StackAt(h, s, ids', vals') && i < |vals|
    ensures |vals| == |vals'| && ids[i] == ids'[i] && vals[i] == vals'[i]
  {
    if i > 0 {
      StackUnique(h, s, ids, vals, ids', vals', i - 1);
    }
  }

  /** A pool file shows one board only. */
  lemma BoardIsUnique(h: Heap, pegs: Pegs, pegs': Pegs)
    requires Represents(h, pegs) && Represents(h, pegs')
    ensures pegs == pegs'
  {
    var lay :| Holds(h, lay, pegs);
    var lay' :| Holds(h, lay', pegs');
    forall x | 0 <= x < 3 ensures pegs[x] == pegs'[x] {
      assert PegAt(h, lay.owner, lay.stacks[x], lay.nodes[x], pegs[x], x);
      assert PegAt(h, lay'.owner, lay'.stacks[x], lay'.nodes[x], pegs'[x], x);
      if lay.stacks[x] != NULL {
        forall i | 0 <= i < |pegs[x]| ensures pegs[x][i] == pegs'[x][i] {
          StackUnique(h, lay.stacks[x], lay.nodes[x], pegs[x], lay'.nodes[x], pegs'[x], i);
        }
      }
    }
  }
}
