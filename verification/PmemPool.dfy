/** The PMDK pool as persistentLib uses it: an undo-log state machine.

    A pool holds blocks of words.  Inside a transaction every range is snapshotted
    into the undo log before it is overwritten, allocations are remembered so that
    they can be taken back, and frees wait for the commit.  Nested transactions
    flatten into the outermost one.  `Recover` is what the next open of the pool
    file makes of a state in which the process died. */
module PmemPool {

  /** Words, and object identifiers stored in them; the null identifier is 0. */
  type Word = int
  type Oid = int
  type Heap = map<Oid, seq<Word>>

  const NULL: Oid := 0

  /** One word saved by an add_range: where it was and what it held. */
  datatype Entry = Entry(oid: Oid, off: nat, saved: Word)

  datatype State = State(heap: Heap, depth: nat, log: seq<Entry>, born: set<Oid>, freed: set<Oid>)

  predicate InBounds(h: Heap, oid: Oid, off: int) {
    oid in h && 0 <= off < |h[oid]|
  }

  function Poke(h: Heap, oid: Oid, off: nat, w: Word): Heap
    requires InBounds(h, oid, off)
  {
    h[oid := h[oid][off := w]]
  }

  /** Applying the undo log, youngest entry first. */
  function Undo(h: Heap, log: seq<Entry>): Heap
    decreases |log|
  {
    if log == [] then h
    else
      var e := log[|log| - 1];
      Undo(if InBounds(h, e.oid, e.off) then Poke(h, e.oid, e.off, e.saved) else h, log[..|log| - 1])
  }

  /** The heap found by the first open after a crash in state `s`. */
  function Recover(s: State): Heap {
    Undo(s.heap, s.log) - s.born
  }

  /** What the running program may still touch: freed blocks are gone for it. */
  function Live(s: State): Heap {
    s.heap - s.freed
  }

  predicate WellFormed(s: State) {
    && NULL !in s.heap
    && s.born <= s.heap.Keys
    && s.freed <= s.heap.Keys
    && (forall i :: 0 <= i < |s.log| ==> InBounds(s.heap, s.log[i].oid, s.log[i].off))
    && (s.depth == 0 ==> s.log == [] && s.born == {} && s.freed == {})
  }

  /** The PMDK calls issued by persistentLib, and the raw stores between them. */
  datatype Action =
    | Begin
    | End
    | AddRange(oid: Oid, off: nat, len: nat)
    | Write(oid: Oid, off: nat, w: Word)
    | Alloc(oid: Oid, contents: seq<Word>)
    | Free(oid: Oid)
    | Abort

  predicate Enabled(s: State, a: Action) {
    match a
    case Begin => true
    case End => s.depth > 0
    case AddRange(oid, off, len) => s.depth > 0 && oid in Live(s) && off + len <= |s.heap[oid]|
    case Write(oid, off, w) => InBounds(Live(s), oid, off)
    case Alloc(oid, contents) => oid != NULL && oid !in s.heap
    case Free(oid) => oid in Live(s)
    case Abort => s.depth > 0
  }

  function Snapshot(h: Heap, oid: Oid, off: nat, len: nat): (es: seq<Entry>)
    requires oid in h && off + len <= |h[oid]|
    ensures |es| == len
    ensures forall i :: 0 <= i < len ==> es[i] == Entry(oid, off + i, h[oid][off + i])
  {
    seq(len, i requires 0 <= i < len => Entry(oid, off + i, h[oid][off + i]))
  }

  function Next(s: State, a: Action): State
    requires Enabled(s, a)
  {
    match a
    case Begin => s.(depth := s.depth + 1)
    case End =>
      if s.depth > 1 then s.(depth := s.depth - 1)
      else State(s.heap - s.freed, 0, [], {}, {})
    case AddRange(oid, off, len) => s.(log := s.log + Snapshot(s.heap, oid, off, len))
    case Write(oid, off, w) => s.(heap := Poke(s.heap, oid, off, w))
    case Alloc(oid, contents) =>
      if s.depth > 0 then s.(heap := s.heap[oid := contents], born := s.born + {oid})
      else s.(heap := s.heap[oid := contents])
    case Free(oid) =>
      if s.depth > 0 then s.(freed := s.freed + {oid})
      else s.(heap := s.heap - {oid})
    case Abort => State(Recover(s), 0, [], {}, {})
  }

  predicate Mentions(log: seq<Entry>, oid: Oid, off: int) {
    exists i :: 0 <= i < |log| && log[i].oid == oid && log[i].off == off
  }

  /** A word is covered when rolling back restores or discards it: it was
      snapshotted, or its block was allocated by the open transaction. */
  predicate Covered(s: State, oid: Oid, off: nat) {
    oid in s.born || Mentions(s.log, oid, off)
  }

  lemma {:induction false} UndoShape(h: Heap, log: seq<Entry>)
    ensures Undo(h, log).Keys == h.Keys
    ensures forall o :: o in h ==> |Undo(h, log)[o]| == |h[o]|
    decreases |log|
  {
    if log != [] {
      var e := log[|log| - 1];
      UndoShape(if InBounds(h, e.oid, e.off) then Poke(h, e.oid, e.off, e.saved) else h, log[..|log| - 1]);
    }
  }

  /** The oldest entry of a word decides what rollback puts there; words without an entry keep their value. */
  function OldestAt(log: seq<Entry>, oid: Oid, off: nat, w: Word): Word
    decreases |log|
  {
    if log == [] then w
    else if log[0].oid == oid && log[0].off == off then log[0].saved
    else OldestAt(log[1..], oid, off, w)
  }

  lemma {:induction false} OldestSnoc(log: seq<Entry>, e: Entry, oid: Oid, off: nat, w: Word)
    ensures OldestAt(log + [e], oid, off, w)
         == OldestAt(log, oid, off, if e.oid == oid && e.off == off then e.saved else w)
    decreases |log|
  {
    if log == [] {
      assert (log + [e])[1..] == [];
    } else {
      assert (log + [e])[1..] == log[1..] + [e];
      OldestSnoc(log[1..], e, oid, off, w);
    }
  }

  lemma {:induction false} UndoAt(h: Heap, log: seq<Entry>, oid: Oid, off: nat)
    requires InBounds(h, oid, off)
    ensures InBounds(Undo(h, log), oid, off)
    ensures Undo(h, log)[oid][off] == OldestAt(log, oid, off, h[oid][off])
    decreases |log|
  {
    if log != [] {
      var rest, e := log[..|log| - 1], log[|log| - 1];
      assert log == rest + [e];
      var h1 := if InBounds(h, e.oid, e.off) then Poke(h, e.oid, e.off, e.saved) else h;
      UndoAt(h1, rest, oid, off);
      OldestSnoc(rest, e, oid, off, h[oid][off]);
    }
  }

  lemma {:induction false} OldestCovered(log: seq<Entry>, oid: Oid, off: nat, w: Word, w': Word)
    ensures Mentions(log, oid, off) ==>
              OldestAt(log, oid, off, w) == OldestAt(log, oid, off, w')
    ensures !Mentions(log, oid, off) ==>
              OldestAt(log, oid, off, w) == w
    decreases |log|
  {
    if log != [] && !(log[0].oid == oid && log[0].off == off) {
      OldestCovered(log[1..], oid, off, w, w');
      if i :| 0 <= i < |log| && log[i].oid == oid && log[i].off == off {
        assert log[1..][i - 1] == log[i];
      }
      assert forall i :: 0 <= i < |log[1..]| ==> log[1..][i] == log[i + 1];
    }
  }

  lemma SameHeap(h: Heap, g: Heap)
    requires h.Keys == g.Keys
    requires forall o :: o in h ==> |h[o]| == |g[o]|
    requires forall o, k :: o in h && 0 <= k < |h[o]| ==> h[o][k] == g[o][k]
    ensures h == g
  {
    forall o | o in h ensures h[o] == g[o] {
    }
  }

  /** Two heaps that differ only in discarded blocks and in words the log mentions roll back to the same heap. */
  lemma UndoAgree(h: Heap, g: Heap, log: seq<Entry>, drop: set<Oid>)
    requires forall o :: o !in drop ==> (o in h <==> o in g)
    requires forall o :: o in h && o !in drop ==> |h[o]| == |g[o]|
    requires forall o, k :: o in h && o !in drop && 0 <= k < |h[o]| && h[o][k] != g[o][k] ==> Mentions(log, o, k)
    ensures Undo(h, log) - drop == Undo(g, log) - drop
  {
    UndoShape(h, log);
    UndoShape(g, log);
    forall o, k | o in h && o !in drop && 0 <= k < |h[o]| ensures Undo(h, log)[o][k] == Undo(g, log)[o][k] {
      UndoAt(h, log, o, k);
      UndoAt(g, log, o, k);
      OldestCovered(log, o, k, h[o][k], g[o][k]);
    }
    var h', g' := Undo(h, log) - drop, Undo(g, log) - drop;
    forall o ensures o in h' <==> o in g' {
      assert o in h' <==> o in h && o !in drop;
      assert o in g' <==> o in g && o !in drop;
    }
    SameHeap(h', g');
  }

  /** Rollback may itself be cut short: replaying the whole log over a heap on which only the
      youngest entries were already replayed gives the same heap. */
  lemma {:induction false} RecoveryRestarts(h: Heap, log: seq<Entry>, done: nat)
    requires done <= |log|
    ensures Undo(Undo(h, log[done..]), log) == Undo(h, log)
  {
    var g := Undo(h, log[done..]);
    UndoShape(h, log[done..]);
    forall o, k | o in h && 0 <= k < |h[o]| && g[o][k] != h[o][k] ensures Mentions(log, o, k) {
      UndoAt(h, log[done..], o, k);
      OldestCovered(log[done..], o, k, h[o][k], h[o][k]);
      var i :| 0 <= i < |log[done..]| && log[done..][i].oid == o && log[done..][i].off == k;
      assert log[done + i] == log[done..][i];
    }
    UndoAgree(g, h, log, {});
    assert Undo(g, log) - {} == Undo(g, log) && Undo(h, log) - {} == Undo(h, log);
  }

  /** The write discipline is exact: inside a transaction a raw store leaves the recovered
      image alone if and only if its word is covered or keeps its value. */
  lemma WriteDiscipline(s: State, oid: Oid, off: nat, w: Word)
    requires WellFormed(s) && s.depth > 0 && Enabled(s, Write(oid, off, w))
    ensures Recover(Next(s, Write(oid, off, w))) == Recover(s) <==>
            Covered(s, oid, off) || s.heap[oid][off] == w
  {
    var s' := Next(s, Write(oid, off, w));
    if Covered(s, oid, off) || s.heap[oid][off] == w {
      assert oid !in s.born && s.heap[oid][off] != w ==> Mentions(s.log, oid, off);
      UndoAgree(s'.heap, s.heap, s.log, s.born);
    } else {
      assert !Mentions(s.log, oid, off);
      UndoShape(s.heap, s.log);
      UndoShape(s'.heap, s.log);
      UndoAt(s.heap, s.log, oid, off);
      UndoAt(s'.heap, s.log, oid, off);
      OldestCovered(s.log, oid, off, s.heap[oid][off], w);
      OldestCovered(s.log, oid, off, w, w);
      assert Recover(s)[oid][off] != Recover(s')[oid][off];
    }
  }

  lemma {:induction false} UndoSnapshot(h: Heap, log: seq<Entry>, oid: Oid, off: nat, len: nat)
    requires oid in h && off + len <= |h[oid]|
    ensures Undo(h, log + Snapshot(h, oid, off, len)) == Undo(h, log)
    decreases len
  {
    var es := Snapshot(h, oid, off, len);
    if len == 0 {
      assert log + es == log;
    } else {
      var prefix := log + Snapshot(h, oid, off, len - 1);
      assert log + es == prefix + [es[len - 1]];
      assert (prefix + [es[len - 1]])[..|prefix|] == prefix;
      assert h[oid][off + len - 1 := h[oid][off + len - 1]] == h[oid];
      assert Poke(h, oid, off + len - 1, h[oid][off + len - 1]) == h;
      UndoSnapshot(h, log, oid, off, len - 1);
    }
  }

  /** A store is guarded when its word is covered; persistentLib issues no other store in a transaction. */
  predicate Guarded(s: State, a: Action) {
    a.Write? ==> Covered(s, a.oid, a.off)
  }

  lemma StepKeepsWellFormed(s: State, a: Action)
    requires WellFormed(s) && Enabled(s, a)
    ensures WellFormed(Next(s, a))
  {
    UndoShape(s.heap, s.log);
  }

  /** Until the outermost commit, no guarded step changes what a crash would recover. */
  lemma StepKeepsImage(s: State, a: Action)
    requires WellFormed(s) && s.depth > 0 && Enabled(s, a) && Guarded(s, a)
    requires a.End? ==> s.depth > 1
    ensures Recover(Next(s, a)) == Recover(s)
  {
    match a
    case Begin =>
    case End =>
    case AddRange(oid, off, len) => UndoSnapshot(s.heap, s.log, oid, off, len);
    case Write(oid, off, w) => WriteDiscipline(s, oid, off, w);
    case Alloc(oid, contents) =>
      UndoAgree(Next(s, a).heap, s.heap, s.log, s.born + {oid});
      UndoShape(s.heap, s.log);
      assert Undo(s.heap, s.log) - (s.born + {oid}) == Recover(s);
    case Free(oid) =>
    case Abort =>
  }

  ghost predicate IsRun(ss: seq<State>, acts: seq<Action>) {
    && |ss| == |acts| + 1
    && forall i :: 0 <= i < |acts| ==> Enabled(ss[i], acts[i]) && Guarded(ss[i], acts[i]) && ss[i + 1] == Next(ss[i], acts[i])
  }

  lemma {:induction false} RunKeepsImage(ss: seq<State>, acts: seq<Action>, i: nat)
    requires IsRun(ss, acts) && WellFormed(ss[0]) && ss[0].depth == 0
    requires forall k :: 1 <= k < |acts| ==> ss[k].depth > 0
    requires i < |acts|
    ensures WellFormed(ss[i]) && Recover(ss[i]) == ss[0].heap
  {
    if i > 0 {
      RunKeepsImage(ss, acts, i - 1);
      assert ss[i] == Next(ss[i - 1], acts[i - 1]);
      StepKeepsWellFormed(ss[i - 1], acts[i - 1]);
      if i > 1 {
        StepKeepsImage(ss[i - 1], acts[i - 1]);
      }
    }
  }

  /** Crash atomicity of a whole outermost transaction, however deeply it nests: a crash before
      its last step recovers the heap it started from, its commit leaves exactly the live heap it
      built, and an abort leaves the heap it started from. */
  lemma CrashAtomicity(ss: seq<State>, acts: seq<Action>)
    requires IsRun(ss, acts) && WellFormed(ss[0]) && ss[0].depth == 0
    requires |acts| >= 2 && acts[0] == Begin
    requires forall k :: 1 <= k < |acts| ==> ss[k].depth > 0
    requires ss[|acts|].depth == 0
    ensures forall k :: 0 <= k < |acts| ==> Recover(ss[k]) == ss[0].heap
    ensures acts[|acts| - 1].End? ==> Recover(ss[|acts|]) == Live(ss[|acts| - 1])
    ensures acts[|acts| - 1].Abort? ==> Recover(ss[|acts|]) == ss[0].heap
    ensures acts[|acts| - 1].End? || acts[|acts| - 1].Abort?
  {
    forall k | 0 <= k < |acts| ensures Recover(ss[k]) == ss[0].heap {
      RunKeepsImage(ss, acts, k);
    }
    var n := |acts| - 1;
    assert ss[n + 1] == Next(ss[n], acts[n]);
  }
}
