/** The moves of the recursive solver and what they do to three pegs, top disk first. */
module HanoiMoves {
  import opened Numbers

  type Pegs = seq<seq<int>>

  datatype Move = Move(from: nat, to: nat)

  /** One `from->pop()` followed by `to->push(disk)`: an empty peg yields the disk 0. */
  function Apply(pegs: Pegs, m: Move): (r: Pegs)
    ensures |r| == |pegs|
  {
    if m.from >= |pegs| || m.to >= |pegs| then pegs
    else
      var src := pegs[m.from];
      var disk := if src == [] then 0 else src[0];
      var popped := if src == [] then pegs else pegs[m.from := src[1..]];
      popped[m.to := [disk] + popped[m.to]]
  }

  function After(pegs: Pegs, ms: seq<Move>): (r: Pegs)
    ensures |r| == |pegs|
  {
    if ms == [] then pegs else Apply(After(pegs, ms[..|ms| - 1]), ms[|ms| - 1])
  }

  /** The disk moves of `moveDisks(n, from, to, aux)`, in order. */
  function Moves(n: int, f: nat, t: nat, a: nat): (ms: seq<Move>)
    decreases if n <= 0 then 0 else n
  {
    if n <= 0 then [] else Moves(n - 1, f, a, t) + [Move(f, t)] + Moves(n - 1, a, t, f)
  }

  lemma {:induction false} MoveCount(n: nat, f: nat, t: nat, a: nat)
    ensures |Moves(n, f, t, a)| == Pow2(n) - 1
  {
    if n > 0 {
      MoveCount(n - 1, f, a, t);
      MoveCount(n - 1, a, t, f);
    }
  }

  lemma {:induction false} AfterConcat(pegs: Pegs, x: seq<Move>, y: seq<Move>)
    ensures After(pegs, x + y) == After(After(pegs, x), y)
    decreases |y|
  {
    if y == [] {
      assert x + y == x;
    } else {
      var y' := y[..|y| - 1];
      assert (x + y)[..|x + y| - 1] == x + y';
      AfterConcat(pegs, x, y');
    }
  }

  /** Smallest disk on top, all different. */
  predicate Sorted(s: seq<int>) {
    |s| > 1 ==> s[0] < s[1] && Sorted(s[1..])
  }

  function Disks(pegs: Pegs): multiset<int>
    requires |pegs| == 3
  {
    multiset(pegs[0]) + multiset(pegs[1]) + multiset(pegs[2])
  }

  /** The disks 1 .. n, smallest on top. */
  function Tower(n: nat): (s: seq<int>)
    ensures |s| == n
  {
    if n == 0 then [] else Tower(n - 1) + [n]
  }

  const EMPTY: Pegs := [[], [], []]

  function Seeded(n: nat): Pegs {
    [Tower(n), [], []]
  }

  function Solved(n: nat): Pegs {
    [[], Tower(n), []]
  }

  /** A peg in the middle of a solve: sorted, and `base` is still at its bottom. */
  ghost predicate Rests(peg: seq<int>, base: seq<int>) {
    Sorted(peg) && |base| <= |peg| && peg[|peg| - |base|..] == base
  }

  /** What may lie under or beside n disks: larger disks, sorted. */
  ghost predicate Larger(n: nat, base: seq<int>) {
    Sorted(base) && (base != [] ==> base[0] > n)
  }

  lemma {:induction false} TowerOnBase(n: nat, base: seq<int>)
    requires Larger(n, base)
    ensures Rests(Tower(n) + base, base)
  {
    if n == 0 {
      assert Tower(0) + base == base;
    } else {
      SplitTower(n, base);
      TowerOnBase(n - 1, [n] + base);
      RestsLower(Tower(n) + base, n, base);
    }
  }

  /** The move takes a disk that is there, to another peg. */
  predicate Possible(pegs: Pegs, m: Move) {
    |pegs| == 3 && m.from < 3 && m.to < 3 && m.from != m.to && pegs[m.from] != []
  }

  lemma DisksOf(p: Pegs, f: nat, t: nat, a: nat)
    requires |p| == 3 && Distinct(f, t, a)
    ensures Disks(p) == multiset(p[f]) + multiset(p[t]) + multiset(p[a])
  {
  }

  lemma MoveConserves(pegs: Pegs, m: Move)
    requires Possible(pegs, m)
    ensures Disks(Apply(pegs, m)) == Disks(pegs)
  {
    hide Disks, Apply;
    var r, d, a := Apply(pegs, m), pegs[m.from][0], 3 - m.from - m.to;
    var rest := pegs[m.from][1..];
    assert pegs[m.from] == [d] + rest;
    MoveTop(pegs, m.from, m.to, a, d, rest);
    DisksOf(pegs, m.from, m.to, a);
    DisksOf(r, m.from, m.to, a);
  }

  lemma {:induction false} MovesConserve(pegs: Pegs, ms: seq<Move>)
    requires |pegs| == 3
    requires forall j :: 0 <= j < |ms| ==> Possible(After(pegs, ms[..j]), ms[j])
    ensures Disks(After(pegs, ms)) == Disks(pegs)
    decreases |ms|
  {
    if ms != [] {
      var init := ms[..|ms| - 1];
      forall j | 0 <= j < |init| ensures Possible(After(pegs, init[..j]), init[j]) {
        assert init[..j] == ms[..j];
      }
      MovesConserve(pegs, init);
      MoveConserves(After(pegs, init), ms[|ms| - 1]);
    }
  }

  predicate Distinct(f: nat, t: nat, a: nat) {
    f < 3 && t < 3 && a < 3 && f != t && f != a && t != a
  }

  /** Peg f holds n disks to be moved, on top of larger ones. */
  ghost predicate Ready(n: nat, p: Pegs, f: nat, t: nat, a: nat, bf: seq<int>, bt: seq<int>, ba: seq<int>) {
    && |p| == 3 && Distinct(f, t, a)
    && Larger(n, bf) && Larger(n, bt) && Larger(n, ba)
    && p[f] == Tower(n) + bf && p[t] == bt && p[a] == ba
  }

  lemma SplitTower(n: nat, base: seq<int>)
    requires n > 0 && Larger(n, base)
    ensures Tower(n) + base == Tower(n - 1) + ([n] + base)
    ensures Larger(n - 1, [n] + base) && Larger(n - 1, base)
    ensures ([n] + base)[1..] == base
  {
  }

  lemma MoveTop(p: Pegs, f: nat, t: nat, a: nat, d: int, bf: seq<int>)
    requires |p| == 3 && Distinct(f, t, a) && p[f] == [d] + bf
    ensures var q := Apply(p, Move(f, t)); q[f] == bf && q[t] == [d] + p[t] && q[a] == p[a]
  {
    assert p[f][1..] == bf;
  }

  lemma AfterParts(p: Pegs, x: seq<Move>, m: Move, y: seq<Move>)
    ensures After(p, x + [m] + y) == After(Apply(After(p, x), m), y)
  {
    assert (x + [m])[..|x|] == x;
    AfterConcat(p, x + [m], y);
  }

  lemma ReadyFirst(n: nat, p: Pegs, f: nat, t: nat, a: nat, bf: seq<int>, bt: seq<int>, ba: seq<int>)
    requires n > 0 && Ready(n, p, f, t, a, bf, bt, ba)
    ensures Ready(n - 1, p, f, a, t, [n] + bf, ba, bt)
  {
    SplitTower(n, bf);
    SplitTower(n, bt);
    SplitTower(n, ba);
  }

  lemma ReadySecond(n: nat, p1: Pegs, f: nat, t: nat, a: nat, bf: seq<int>, bt: seq<int>, ba: seq<int>)
    requires n > 0 && |p1| == 3 && Distinct(f, t, a)
    requires Larger(n, bf) && Larger(n, bt) && Larger(n, ba)
    requires p1[f] == [n] + bf && p1[t] == bt && p1[a] == Tower(n - 1) + ba
    ensures Ready(n - 1, Apply(p1, Move(f, t)), a, t, f, ba, [n] + bt, bf)
  {
    MoveTop(p1, f, t, a, n, bf);
    SplitTower(n, bf);
    SplitTower(n, bt);
    SplitTower(n, ba);
  }

  /** n disks travel from peg f to peg t. */
  lemma {:induction false} Solve(n: nat, p: Pegs, f: nat, t: nat, a: nat, bf: seq<int>, bt: seq<int>, ba: seq<int>)
    requires Ready(n, p, f, t, a, bf, bt, ba)
    ensures var q := After(p, Moves(n, f, t, a)); q[f] == bf && q[t] == Tower(n) + bt && q[a] == ba
  {
    if n == 0 {
      assert Tower(0) + bf == bf && Tower(0) + bt == bt;
    } else {
      var ma, mb := Moves(n - 1, f, a, t), Moves(n - 1, a, t, f);
      ReadyFirst(n, p, f, t, a, bf, bt, ba);
      Solve(n - 1, p, f, a, t, [n] + bf, ba, bt);
      var p1 := After(p, ma);
      ReadySecond(n, p1, f, t, a, bf, bt, ba);
      SplitTower(n, bt);
      Solve(n - 1, Apply(p1, Move(f, t)), a, t, f, ba, [n] + bt, bf);
      AfterParts(p, ma, Move(f, t), mb);
    }
  }

  lemma RestsLower(peg: seq<int>, d: int, base: seq<int>)
    requires Rests(peg, [d] + base)
    ensures Rests(peg, base) && |peg| > |base|
  {
    assert peg[|peg| - |base|..] == peg[|peg| - |base| - 1..][1..];
  }

  /** q is a state on the way: pegs sorted, the base untouched; and it is the goal
      only if the way is complete. */
  ghost predicate Midway(n: nat, q: Pegs, f: nat, t: nat, a: nat,
                         bf: seq<int>, bt: seq<int>, ba: seq<int>, complete: bool)
    requires |q| == 3 && Distinct(f, t, a)
  {
    && Rests(q[f], bf) && Rests(q[t], bt) && Rests(q[a], ba)
    && (!complete ==> !(q[f] == bf && q[t] == Tower(n) + bt && q[a] == ba))
  }

  lemma MidwayFirst(n: nat, q: Pegs, f: nat, t: nat, a: nat,
                    bf: seq<int>, bt: seq<int>, ba: seq<int>, complete: bool)
    requires n > 0 && |q| == 3 && Distinct(f, t, a)
    requires Midway(n - 1, q, f, a, t, [n] + bf, ba, bt, complete)
    ensures Midway(n, q, f, t, a, bf, bt, ba, false) && q[f] != []
  {
    RestsLower(q[f], n, bf);
  }

  lemma MidwaySecond(n: nat, q: Pegs, f: nat, t: nat, a: nat,
                     bf: seq<int>, bt: seq<int>, ba: seq<int>, complete: bool)
    requires n > 0 && |q| == 3 && Distinct(f, t, a)
    requires Larger(n, bt)
    requires Midway(n - 1, q, a, t, f, ba, [n] + bt, bf, complete)
    ensures Midway(n, q, f, t, a, bf, bt, ba, complete)
  {
    RestsLower(q[t], n, bt);
    SplitTower(n, bt);
  }

  lemma SplitPrefix(x: seq<Move>, m: Move, y: seq<Move>, j: nat)
    requires j <= |x| + 1 + |y|
    ensures j <= |x| ==> (x + [m] + y)[..j] == x[..j]
    ensures j > |x| ==> (x + [m] + y)[..j] == x + [m] + y[..j - |x| - 1]
  {
  }

  lemma Midpoint(n: nat, p: Pegs, f: nat, t: nat, a: nat, bf: seq<int>, bt: seq<int>, ba: seq<int>) returns (p2: Pegs)
    requires n > 0 && Ready(n, p, f, t, a, bf, bt, ba)
    ensures p2 == Apply(After(p, Moves(n - 1, f, a, t)), Move(f, t))
    ensures Ready(n - 1, p2, a, t, f, ba, [n] + bt, bf)
  {
    ReadyFirst(n, p, f, t, a, bf, bt, ba);
    Solve(n - 1, p, f, a, t, [n] + bf, ba, bt);
    var p1 := After(p, Moves(n - 1, f, a, t));
    ReadySecond(n, p1, f, t, a, bf, bt, ba);
    p2 := Apply(p1, Move(f, t));
  }

  lemma MidwayStart(n: nat, p: Pegs, f: nat, t: nat, a: nat, bf: seq<int>, bt: seq<int>, ba: seq<int>)
    requires Ready(n, p, f, t, a, bf, bt, ba)
    ensures Midway(n, p, f, t, a, bf, bt, ba, n == 0)
  {
    TowerOnBase(n, bf);
  }

  /** Every prefix of the moves leads to a state on the way, from which the next move is possible. */
  lemma {:induction false} SolvePrefix(n: nat, p: Pegs, f: nat, t: nat, a: nat,
                                       bf: seq<int>, bt: seq<int>, ba: seq<int>, ms: seq<Move>, j: nat)
    requires Ready(n, p, f, t, a, bf, bt, ba) && ms == Moves(n, f, t, a) && j <= |ms|
    ensures Midway(n, After(p, ms[..j]), f, t, a, bf, bt, ba, j == |ms|)
    ensures j < |ms| ==> Possible(After(p, ms[..j]), ms[j])
    decreases n, 1
  {
    if n == 0 {
      MidwayStart(n, p, f, t, a, bf, bt, ba);
    } else {
      var ma, m, mb := Moves(n - 1, f, a, t), Move(f, t), Moves(n - 1, a, t, f);
      assert ms == ma + [m] + mb;
      SplitPrefix(ma, m, mb, j);
      if j <= |ma| {
        SolveFirst(n, p, f, t, a, bf, bt, ba, ma, j);
      } else {
        SolveSecond(n, p, f, t, a, bf, bt, ba, mb, j - |ma| - 1);
        AfterParts(p, ma, m, mb[..j - |ma| - 1]);
      }
    }
  }

  lemma {:induction false} SolveFirst(n: nat, p: Pegs, f: nat, t: nat, a: nat,
                                      bf: seq<int>, bt: seq<int>, ba: seq<int>, ma: seq<Move>, j: nat)
    requires n > 0 && Ready(n, p, f, t, a, bf, bt, ba) && ma == Moves(n - 1, f, a, t) && j <= |ma|
    ensures Midway(n, After(p, ma[..j]), f, t, a, bf, bt, ba, false)
    ensures Possible(After(p, ma[..j]), if j < |ma| then ma[j] else Move(f, t))
    decreases n, 0
  {
    ReadyFirst(n, p, f, t, a, bf, bt, ba);
    SolvePrefix(n - 1, p, f, a, t, [n] + bf, ba, bt, ma, j);
    MidwayFirst(n, After(p, ma[..j]), f, t, a, bf, bt, ba, j == |ma|);
  }

  lemma {:induction false} SolveSecond(n: nat, p: Pegs, f: nat, t: nat, a: nat,
                                       bf: seq<int>, bt: seq<int>, ba: seq<int>, mb: seq<Move>, k: nat)
    requires n > 0 && Ready(n, p, f, t, a, bf, bt, ba) && mb == Moves(n - 1, a, t, f) && k <= |mb|
    ensures Midway(n, After(Apply(After(p, Moves(n - 1, f, a, t)), Move(f, t)), mb[..k]), f, t, a, bf, bt, ba, k == |mb|)
    ensures k < |mb| ==> Possible(After(Apply(After(p, Moves(n - 1, f, a, t)), Move(f, t)), mb[..k]), mb[k])
    decreases n, 0
  {
    var p2 := Midpoint(n, p, f, t, a, bf, bt, ba);
    ReadyFirst(n, p, f, t, a, bf, bt, ba);
    SolvePrefix(n - 1, p2, a, t, f, ba, [n] + bt, bf, mb, k);
    MidwaySecond(n, After(p2, mb[..k]), f, t, a, bf, bt, ba, k == |mb|);
  }

  lemma SolvedAtEnd(n: nat, ms: seq<Move>)
    requires ms == Moves(n, 0, 1, 2)
    ensures After(Seeded(n), ms) == Solved(n)
  {
    assert Tower(n) + [] == Tower(n);
    Solve(n, Seeded(n), 0, 1, 2, [], [], []);
  }

  lemma SolveConserves(n: nat, ms: seq<Move>, j: nat)
    requires ms == Moves(n, 0, 1, 2) && j <= |ms|
    ensures Disks(After(Seeded(n), ms[..j])) == multiset(Tower(n))
  {
    var p := Seeded(n);
    assert Tower(n) + [] == Tower(n);
    forall k | 0 <= k < j ensures Possible(After(p, ms[..j][..k]), ms[..j][k]) {
      SolvePrefix(n, p, 0, 1, 2, [], [], [], ms, k);
      assert ms[..j][..k] == ms[..k];
    }
    MovesConserve(p, ms[..j]);
  }

  /** Every prefix of the solve from the seeded pegs: pegs sorted, disks conserved, and solved only at the end. */
  lemma SolveFromSeed(n: nat, ms: seq<Move>, j: nat)
    requires ms == Moves(n, 0, 1, 2) && j <= |ms|
    ensures
      var q := After(Seeded(n), ms[..j]);
      && Sorted(q[0]) && Sorted(q[1]) && Sorted(q[2])
      && Disks(q) == multiset(Tower(n))
      && (q == Solved(n) <==> j == |ms|)
  {
    var p := Seeded(n);
    assert Tower(n) + [] == Tower(n);
    SolvePrefix(n, p, 0, 1, 2, [], [], [], ms, j);
    if j == |ms| {
      SolvedAtEnd(n, ms);
      assert ms[..j] == ms;
    }
    SolveConserves(n, ms, j);
  }

  lemma {:induction false} TowerAt(n: nat, i: nat)
    requires i < n
    ensures Tower(n)[i] == i + 1
  {
    if i < n - 1 {
      TowerAt(n - 1, i);
    }
  }

  /** A solve cut short is neither the empty board nor the solved one. */
  lemma Interrupted(n: nat, ms: seq<Move>, k: nat)
    requires n > 0 && ms == Moves(n, 0, 1, 2) && k < |ms|
    ensures After(Seeded(n), ms[..k]) != EMPTY && After(Seeded(n), ms[..k]) != Solved(n)
  {
    SolveFromSeed(n, ms, k);
    TowerAt(n, 0);
    assert Tower(n)[0] in multiset(Tower(n));
  }
}
