/** The search-tree benchmark: any number of threads, each looping over operations that lock one or two
    trees out of two arrays of trees, call them, and unlock them again. */
module LockProtocol {

  /** A mutex BST_lk<node>[idx], guarding the tree BSTs<node>[idx]. */
  datatype Lock = Lock(node: nat, idx: nat)

  /** The random choices of one loop iteration. */
  datatype Op =
    | Lookup(ds: nat)
    | Txn(a: nat, b: nat, kind: nat)

  predicate InRange(op: Op, trees: nat) {
    if op.Lookup? then op.ds < trees else op.a < trees && op.b < trees
  }

  datatype TreeCall = Look(key: int) | Insert(key: int) | Remove(key: int)

  /** One call on one tree, named by the mutex that guards it. */
  datatype Access = Access(tree: Lock, call: TreeCall)

  /** The calls on trees that an iteration of a thread of `node` makes while it holds its locks, in order:
      a lookup, or the transfer of a key from one tree to another. */
  function Accesses(node: nat, op: Op, key: int): seq<Access> {
    match op
    case Lookup(ds) => [Access(Lock(if node == 0 then 0 else 1, ds), Look(key))]
    case Txn(a, b, kind) =>
      var from, to :=
        (match kind % 4 case 0 => Lock(0, a) case 1 => Lock(1, b) case 2 => Lock(0, a) case _ => Lock(1, a)),
        (match kind % 4 case 0 => Lock(1, b) case 1 => Lock(0, a) case 2 => Lock(0, b) case _ => Lock(1, b));
      if from == to then [] else [Access(from, Remove(key)), Access(to, Insert(key))]
  }

  /** The order in which an iteration of a thread of `node` takes its locks; it releases them in the
      same order.  Empty where the source skips the iteration. */
  function Plan(node: nat, op: Op): seq<Lock> {
    match op
    case Lookup(ds) => if node == 0 then [Lock(0, ds)] else [Lock(1, ds)]
    case Txn(a, b, kind) =>
      var lo, hi := if a < b then a else b, if a < b then b else a;
      if node == 0 then
        if kind % 4 == 0 then [Lock(0, a), Lock(1, b)]
        else if kind % 4 == 1 then [Lock(0, a), Lock(1, b)]
        else if kind % 4 == 2 then (if a == b then [] else [Lock(0, lo), Lock(0, hi)])
        else (if a == b then [] else [Lock(1, lo), Lock(1, hi)])
      else
      if kind % 4 == 0 then [Lock(0, a), Lock(1, b)]
      else if kind % 4 == 1 then [Lock(0, a), Lock(1, b)]
      else if kind % 4 == 2 then (if a == b then [] else [Lock(0, lo), Lock(0, hi)])
      else (if a == b then [] else [Lock(1, lo), Lock(1, hi)])
  }

  /** Where a thread is: between iterations, inside one with `got` locks taken, `done` calls made and `freed`
      locks released again, or out of its loop. */
  datatype Phase = Idle | Busy(op: Op, key: int, got: nat, done: nat, freed: nat) | Finished
  datatype Thread = Thread(node: nat, phase: Phase)

  /** An iteration that has begun to call its trees. */
  datatype Entry = Entry(node: nat, op: Op, key: int)

  /** `trees` trees per node, the threads, who holds each locked mutex, the calls that each tree has served,
      and the iterations in the order of their first calls. */
  datatype State = State(trees: nat, threads: seq<Thread>, owner: map<Lock, nat>,
                         forest: map<Lock, seq<TreeCall>>, log: seq<Entry>)

  datatype Step =
    | Start(t: nat, op: Op, key: int)
    | Acquire(t: nat)
    | Call(t: nat)
    | Release(t: nat)
    | Loop(t: nat)
    | Quit(t: nat)

  function PlanOf(th: Thread): seq<Lock> {
    if th.phase.Busy? then Plan(th.node, th.phase.op) else []
  }

  function AccessesOf(th: Thread): seq<Access> {
    if th.phase.Busy? then Accesses(th.node, th.phase.op, th.phase.key) else []
  }

  /** The calls that a tree has served. */
  function Served(f: map<Lock, seq<TreeCall>>, l: Lock): seq<TreeCall> {
    if l in f then f[l] else []
  }

  predicate Enabled(s: State, step: Step) {
    && step.t < |s.threads|
    && var th := s.threads[step.t];
    match step
    case Start(_, op, _) => th.phase.Idle? && InRange(op, s.trees)
    case Quit(_) => th.phase.Idle?
    case Acquire(_) => th.phase.Busy? && th.phase.got < |PlanOf(th)| && PlanOf(th)[th.phase.got] !in s.owner
    case Call(_) => th.phase.Busy? && th.phase.got == |PlanOf(th)| && th.phase.freed == 0 && th.phase.done < |AccessesOf(th)|
    case Release(_) =>
      && th.phase.Busy? && th.phase.got == |PlanOf(th)| && th.phase.done == |AccessesOf(th)|
      && th.phase.freed < |PlanOf(th)|
    case Loop(_) => th.phase.Busy? && th.phase.freed == |PlanOf(th)|
  }

  function Next(s: State, step: Step): State
    requires Enabled(s, step)
  {
    var t := step.t;
    var th := s.threads[t];
    match step
    case Start(_, op, key) => s.(threads := s.threads[t := th.(phase := Busy(op, key, 0, 0, 0))])
    case Quit(_) => s.(threads := s.threads[t := th.(phase := Finished)])
    case Acquire(_) =>
      s.(threads := s.threads[t := th.(phase := th.phase.(got := th.phase.got + 1))], owner := s.owner[PlanOf(th)[th.phase.got] := t])
    case Call(_) =>
      var x := AccessesOf(th)[th.phase.done];
      s.(threads := s.threads[t := th.(phase := th.phase.(done := th.phase.done + 1))],
      forest := s.forest[x.tree := Served(s.forest, x.tree) + [x.call]],
      log := if th.phase.done == 0 then s.log + [Entry(th.node, th.phase.op, th.phase.key)] else s.log)
    case Release(_) =>
      s.(threads := s.threads[t := th.(phase := th.phase.(freed := th.phase.freed + 1))], owner := s.owner - {PlanOf(th)[th.phase.freed]})
    case Loop(_) => s.(threads := s.threads[t := th.(phase := Idle)])
  }

  /** The global order of the locks: all of node 0 before all of node 1. */
  predicate Before(k: Lock, l: Lock) {
    k.node < l.node || (k.node == l.node && k.idx < l.idx)
  }

  /** A lookup stays on the thread's own node. */
  lemma LookupStaysHome(node: nat, ds: nat, key: int)
    requires node <= 1
    ensures Accesses(node, Lookup(ds), key) == [Access(Lock(node, ds), Look(key))]
  {
  }

  /** A transfer takes the key out of one tree and puts it into another; the four kinds go from node 0 to 1,
      from 1 to 0, within 0 and within 1, and the last two are skipped if both trees are the same. */
  lemma TransfersGo(node: nat, a: nat, b: nat, kind: nat, key: int)
    ensures var xs := Accesses(node, Txn(a, b, kind), key);
            && (xs == [] <==> kind % 4 >= 2 && a == b)
            && (xs != [] ==>
                  && |xs| == 2 && xs[0].call == Remove(key) && xs[1].call == Insert(key)
                  && (xs[0].tree.node == 0 <==> kind % 2 == 0) && (xs[1].tree.node == 0 <==> kind % 4 in {1, 2})
                  && xs[0].tree.idx == (if kind % 4 == 1 then b else a) && xs[1].tree.idx == (if kind % 4 == 1 then a else b))
  {
  }

  /** The locks taken guard exactly the trees called, and no tree is called twice. */
  lemma PlanGuards(node: nat, op: Op, key: int, l: Lock)
    ensures var xs := Accesses(node, op, key);
            && |xs| <= 2 && |xs| == |Plan(node, op)| && (|xs| == 2 ==> xs[0].tree != xs[1].tree)
            && (l in Plan(node, op) <==> exists i :: 0 <= i < |xs| && xs[i].tree == l)
  {
    var xs := Accesses(node, op, key);
    assert |xs| > 0 ==> xs[0].tree in Plan(node, op);
    assert |xs| > 1 ==> xs[1].tree in Plan(node, op);
  }

  /** Every branch takes its locks in strictly increasing order. */
  lemma PlanIsOrdered(node: nat, op: Op)
    ensures |Plan(node, op)| <= 2
    ensures |Plan(node, op)| == 2 ==> Before(Plan(node, op)[0], Plan(node, op)[1])
    ensures forall i, trees :: 0 <= i < |Plan(node, op)| && InRange(op, trees) ==>
                                 Plan(node, op)[i].node <= 1 && Plan(node, op)[i].idx < trees
  {
  }

  ghost predicate ThreadOk(s: State, t: nat)
    requires t < |s.threads|
  {
    var th := s.threads[t];
    th.phase.Busy? ==>
      && InRange(th.phase.op, s.trees)
      && th.phase.freed <= th.phase.got <= |PlanOf(th)|
      && (th.phase.freed > 0 ==> th.phase.done == |AccessesOf(th)|)
      && (th.phase.done > 0 ==> th.phase.got == |PlanOf(th)|) && th.phase.done <= |AccessesOf(th)|
      && (th.phase.freed > 0 ==> th.phase.got == |PlanOf(th)|)
      && (forall i :: th.phase.freed <= i < th.phase.got ==> PlanOf(th)[i] in s.owner && s.owner[PlanOf(th)[i]] == t)
  }

  ghost predicate LockOk(s: State, l: Lock)
    requires l in s.owner
  {
    var t := s.owner[l];
    && t < |s.threads| && s.threads[t].phase.Busy?
    && exists i :: s.threads[t].phase.freed <= i < s.threads[t].phase.got <= |PlanOf(s.threads[t])| && PlanOf(s.threads[t])[i] == l
  }

  /** The books agree: a mutex is held by t exactly when t is between taking and releasing it. */
  ghost predicate Inv(s: State) {
    && (forall t :: 0 <= t < |s.threads| ==> ThreadOk(s, t))
    && (forall l :: l in s.owner ==> LockOk(s, l))
  }

  lemma StepKeepsThreads(s: State, step: Step, u: nat)
    requires Inv(s) && Enabled(s, step) && u < |s.threads|
    ensures ThreadOk(Next(s, step), u)
  {
    hide LockOk;
    var th := s.threads[step.t];
    if th.phase.Busy? {
      PlanIsOrdered(th.node, th.phase.op);
    }
    assert ThreadOk(s, step.t) && ThreadOk(s, u);
    hide Plan, Accesses;
  }

  lemma StepKeepsLock(s: State, step: Step, l: Lock)
    requires Enabled(s, step) && ThreadOk(s, step.t) && l in s.owner && LockOk(s, l) && l in Next(s, step).owner
    ensures LockOk(Next(s, step), l)
  {
    hide Plan, Accesses;
    var th, th' := s.threads[step.t], Next(s, step).threads[step.t];
    if s.owner[l] == step.t {
      var i :| th.phase.freed <= i < th.phase.got <= |PlanOf(th)| && PlanOf(th)[i] == l;
      match step {
        case Acquire(_) => assert PlanOf(th')[i] == l;
        case Release(_) => assert i != th.phase.freed && PlanOf(th')[i] == l;
        case Loop(_) =>
        case Start(_, _, _) =>
        case Call(_) => assert PlanOf(th')[i] == l;
        case Quit(_) =>
      }
    }
  }

  lemma StepKeepsLocks(s: State, step: Step, l: Lock)
    requires Inv(s) && Enabled(s, step) && l in Next(s, step).owner
    ensures LockOk(Next(s, step), l)
  {
    hide Plan, Accesses;
    assert ThreadOk(s, step.t);
    if l in s.owner {
      assert LockOk(s, l);
      StepKeepsLock(s, step, l);
    } else {
      assert PlanOf(Next(s, step).threads[step.t])[s.threads[step.t].phase.got] == l;
    }
  }

  lemma StepKeepsInv(s: State, step: Step)
    requires Inv(s) && Enabled(s, step)
    ensures Inv(Next(s, step))
  {
    forall u | 0 <= u < |s.threads| ensures ThreadOk(Next(s, step), u) {
      StepKeepsThreads(s, step, u);
    }
    forall l | l in Next(s, step).owner ensures LockOk(Next(s, step), l) {
      StepKeepsLocks(s, step, l);
    }
  }

  ghost predicate Blocked(s: State, t: nat)
    requires t < |s.threads|
  {
    var th := s.threads[t];
    th.phase.Busy? && th.phase.got < |PlanOf(th)| && PlanOf(th)[th.phase.got] in s.owner
  }

  /** Thread t wants a mutex that thread u holds. */
  ghost predicate WaitsFor(s: State, t: nat, u: nat) {
    t < |s.threads| && Blocked(s, t) && s.owner[PlanOf(s.threads[t])[s.threads[t].phase.got]] == u
  }

  /** Each thread of the chain waits for the next one. */
  ghost predicate IsChain(s: State, chain: seq<nat>) {
    chain != [] && forall i :: 1 <= i < |chain| ==> WaitsFor(s, chain[i - 1], chain[i])
  }

  lemma FreeToMove(s: State, t: nat) returns (step: Step)
    requires Inv(s) && t < |s.threads| && !s.threads[t].phase.Finished? && !Blocked(s, t)
    ensures Enabled(s, step) && step.t == t
  {
    var th := s.threads[t];
    assert ThreadOk(s, t);
    if th.phase.Idle? {
      step := Quit(t);
    } else if th.phase.got < |PlanOf(th)| {
      step := Acquire(t);
    } else if th.phase.done < |AccessesOf(th)| {
      step := Call(t);
    } else if th.phase.freed < |PlanOf(th)| {
      step := Release(t);
    } else {
      step := Loop(t);
    }
  }

  /** A blocked thread waits for a thread that holds the lock and, if itself blocked, waits for a later one. */
  lemma HolderWaitsForLater(s: State, t: nat) returns (u: nat)
    requires Inv(s) && t < |s.threads| && Blocked(s, t)
    ensures u < |s.threads| && s.threads[u].phase.Busy? && WaitsFor(s, t, u)
    ensures Blocked(s, u) ==> Before(PlanOf(s.threads[t])[s.threads[t].phase.got], PlanOf(s.threads[u])[s.threads[u].phase.got])
  {
    var l := PlanOf(s.threads[t])[s.threads[t].phase.got];
    assert LockOk(s, l);
    u := s.owner[l];
    var th := s.threads[u];
    assert ThreadOk(s, u);
    var i :| th.phase.freed <= i < th.phase.got <= |PlanOf(th)| && PlanOf(th)[i] == l;
    PlanIsOrdered(th.node, th.phase.op);
    hide Plan, Accesses;
  }

  /** Following the chain of holders from any unfinished thread reaches one that can move. */
  lemma {:induction false} SomeoneMoves(s: State, t: nat) returns (chain: seq<nat>, step: Step)
    requires Inv(s) && t < |s.threads| && !s.threads[t].phase.Finished?
    ensures IsChain(s, chain) && chain[0] == t
    ensures Enabled(s, step) && step.t == chain[|chain| - 1]
    decreases if Blocked(s, t) then 2 - PlanOf(s.threads[t])[s.threads[t].phase.got].node else 0,
              if Blocked(s, t) then s.trees - PlanOf(s.threads[t])[s.threads[t].phase.got].idx else 0
  {
    hide Plan, Accesses;
    if Blocked(s, t) {
      WantedInRange(s, t);
      var u := HolderWaitsForLater(s, t);
      if Blocked(s, u) {
        WantedInRange(s, u);
      }
      var rest;
      rest, step := SomeoneMoves(s, u);
      chain := LongerChain(s, t, rest);
    } else {
      chain := [t];
      step := FreeToMove(s, t);
    }
  }

  lemma LongerChain(s: State, t: nat, rest: seq<nat>) returns (chain: seq<nat>)
    requires IsChain(s, rest) && WaitsFor(s, t, rest[0])
    ensures IsChain(s, chain) && chain == [t] + rest
  {
    hide WaitsFor;
    chain := [t] + rest;
    forall i | 1 <= i < |chain| ensures WaitsFor(s, chain[i - 1], chain[i]) {
      assert i > 1 ==> chain[i - 1] == rest[i - 2] && chain[i] == rest[i - 1];
    }
  }

  lemma WantedInRange(s: State, t: nat)
    requires Inv(s) && t < |s.threads| && Blocked(s, t)
    ensures PlanOf(s.threads[t])[s.threads[t].phase.got].node <= 1
    ensures PlanOf(s.threads[t])[s.threads[t].phase.got].idx < s.trees
  {
    assert ThreadOk(s, t);
    PlanIsOrdered(s.threads[t].node, s.threads[t].phase.op);
  }

  ghost predicate Initial(s: State) {
    s.owner == map[] && s.forest == map[] && s.log == [] && forall t :: 0 <= t < |s.threads| ==> s.threads[t].phase.Idle?
  }

  ghost predicate IsRun(ss: seq<State>, steps: seq<Step>) {
    && |ss| == |steps| + 1 && Initial(ss[0])
    && forall i :: 0 <= i < |steps| ==> Enabled(ss[i], steps[i]) && ss[i + 1] == Next(ss[i], steps[i])
  }

  lemma {:induction false} RunKeepsInv(ss: seq<State>, steps: seq<Step>, i: nat)
    requires IsRun(ss, steps) && i < |ss|
    ensures Inv(ss[i])
  {
    if i > 0 {
      RunKeepsInv(ss, steps, i - 1);
      assert ss[i] == Next(ss[i - 1], steps[i - 1]);
      StepKeepsInv(ss[i - 1], steps[i - 1]);
    }
  }

  /** Deadlock freedom: in every reachable state, an unfinished thread, or one that it waits for directly or
      through others, can step. */
  lemma DeadlockFree(ss: seq<State>, steps: seq<Step>, i: nat, t: nat)
    requires IsRun(ss, steps) && i < |ss|
    requires t < |ss[i].threads| && !ss[i].threads[t].phase.Finished?
    ensures exists chain, step ::
              IsChain(ss[i], chain) && chain[0] == t && Enabled(ss[i], step) && step.t == chain[|chain| - 1]
  {
    RunKeepsInv(ss, steps, i);
    var chain, step := SomeoneMoves(ss[i], t);
  }

  /** A thread works on its trees when it holds all its locks and has released none. */
  predicate Working(th: Thread) {
    th.phase.Busy? && th.phase.got == |PlanOf(th)| && th.phase.freed == 0
  }

  /** Mutual exclusion: two threads at work never call the same tree. */
  lemma NoSharedTree(ss: seq<State>, steps: seq<Step>, i: nat, t: nat, u: nat)
    requires IsRun(ss, steps) && i < |ss| && t < |ss[i].threads| && u < |ss[i].threads| && t != u
    requires Working(ss[i].threads[t]) && Working(ss[i].threads[u])
    ensures forall x, y :: x in AccessesOf(ss[i].threads[t]) && y in AccessesOf(ss[i].threads[u]) ==> x.tree != y.tree
  {
    RunKeepsInv(ss, steps, i);
    var s := ss[i];
    assert ThreadOk(s, t) && ThreadOk(s, u);
    forall x | x in AccessesOf(s.threads[t]) ensures x.tree in s.owner && s.owner[x.tree] == t {
      Guarded(s, t, x);
    }
    forall x | x in AccessesOf(s.threads[u]) ensures x.tree in s.owner && s.owner[x.tree] == u {
      Guarded(s, u, x);
    }
  }

  /** A thread at work holds the mutex of every tree that it calls. */
  lemma Guarded(s: State, t: nat, x: Access)
    requires t < |s.threads| && ThreadOk(s, t) && Working(s.threads[t]) && x in AccessesOf(s.threads[t])
    ensures x.tree in s.owner && s.owner[x.tree] == t
  {
    var th := s.threads[t];
    PlanGuards(th.node, th.phase.op, th.phase.key, x.tree);
    hide Plan, Accesses;
    assert x.tree in PlanOf(th);
  }

  /** Of some accesses, the calls on tree l. */
  function CallsOn(xs: seq<Access>, l: Lock): seq<TreeCall> {
    if xs == [] then [] else (if xs[0].tree == l then [xs[0].call] else []) + CallsOn(xs[1..], l)
  }

  /** The calls that tree l would serve if the iterations ran one after the other. */
  function Serial(log: seq<Entry>, l: Lock): seq<TreeCall> {
    if log == [] then []
    else
      var e := log[|log| - 1];
      Serial(log[..|log| - 1], l) + CallsOn(Accesses(e.node, e.op, e.key), l)
  }

  /** What the holder of the mutex of l still has to call on l, once it has begun. */
  function Pending(s: State, l: Lock): seq<TreeCall> {
    if l !in s.owner || s.owner[l] >= |s.threads| then []
    else
      var th := s.threads[s.owner[l]];
      if !th.phase.Busy? || th.phase.done == 0 || th.phase.done > |AccessesOf(th)| then []
      else CallsOn(AccessesOf(th)[th.phase.done..], l)
  }

  ghost predicate SerialAt(s: State, l: Lock) {
    Serial(s.log, l) == Served(s.forest, l) + Pending(s, l)
  }

  lemma PendingCall(s: State, t: nat, l: Lock)
    requires t < |s.threads| && ThreadOk(s, t) && Enabled(s, Call(t))
    ensures var th := s.threads[t];
            var xs, n, mine := AccessesOf(th), th.phase.done, l in s.owner && s.owner[l] == t;
            && Pending(Next(s, Call(t)), l) == (if mine then CallsOn(xs[n + 1..], l) else Pending(s, l))
            && (mine ==> Pending(s, l) == if n == 0 then [] else CallsOn(xs[n..], l))
  {
    hide Plan, Accesses, CallsOn;
  }

  lemma SerialCall(s: State, t: nat, l: Lock)
    requires Enabled(s, Call(t))
    ensures var th := s.threads[t];
            Serial(Next(s, Call(t)).log, l) == Serial(s.log, l) + (if th.phase.done == 0 then CallsOn(AccessesOf(th), l) else [])
  {
    hide Plan, Accesses, CallsOn;
    var s' := Next(s, Call(t));
    assert s.threads[t].phase.done == 0 ==> s'.log[..|s.log|] == s.log;
  }

  lemma CallsFrom(xs: seq<Access>, n: nat, l: Lock)
    requires n < |xs|
    ensures CallsOn(xs[n..], l) == (if xs[n].tree == l then [xs[n].call] else []) + CallsOn(xs[n + 1..], l)
  {
    assert xs[n..][1..] == xs[n + 1..];
  }

  lemma CallMovesOn(s: State, t: nat, l: Lock)
    requires Inv(s) && Enabled(s, Call(t)) && SerialAt(s, l)
    ensures SerialAt(Next(s, Call(t)), l)
  {
    hide Plan, Accesses, LockOk, CallsOn, Serial, Pending;
    var s', th := Next(s, Call(t)), s.threads[t];
    var xs, n := AccessesOf(th), th.phase.done;
    assert ThreadOk(s, t);
    Guarded(s, t, xs[n]);
    PendingCall(s, t, l);
    SerialCall(s, t, l);
    CallsFrom(xs, n, l);
    assert xs[0..] == xs;
    if !(l in s.owner && s.owner[l] == t) {
      NotCalled(s, t, xs, l);
    }
    hide ThreadOk;
    assert Served(s'.forest, l) == Served(s.forest, l) + (if xs[n].tree == l then [xs[n].call] else []);
  }

  lemma {:induction false} NotCalled(s: State, t: nat, xs: seq<Access>, l: Lock)
    requires t < |s.threads| && ThreadOk(s, t) && Working(s.threads[t]) && !(l in s.owner && s.owner[l] == t)
    requires forall x :: x in xs ==> x in AccessesOf(s.threads[t])
    ensures CallsOn(xs, l) == []
  {
    hide Plan, Accesses;
    if xs != [] {
      Guarded(s, t, xs[0]);
      NotCalled(s, t, xs[1..], l);
    }
  }

  /** Only calls change what is pending. */
  lemma PendingStays(s: State, step: Step, l: Lock)
    requires Inv(s) && Enabled(s, step) && !step.Call?
    ensures Pending(Next(s, step), l) == Pending(s, l)
  {
    hide Plan, Accesses;
    assert ThreadOk(s, step.t);
    assert l in s.owner ==> LockOk(s, l);
    hide ThreadOk;
    var th := s.threads[step.t];
    assert step.Release? ==> CallsOn(AccessesOf(th)[th.phase.done..], l) == [];
  }

  lemma StepKeepsSerial(s: State, step: Step, l: Lock)
    requires Inv(s) && Enabled(s, step) && SerialAt(s, l)
    ensures SerialAt(Next(s, step), l)
  {
    hide Plan, Accesses, Serial, Pending, Inv;
    if step.Call? {
      CallMovesOn(s, step.t, l);
    } else {
      PendingStays(s, step, l);
    }
  }

  lemma {:induction false} RunKeepsSerial(ss: seq<State>, steps: seq<Step>, i: nat, l: Lock)
    requires IsRun(ss, steps) && i < |ss|
    ensures SerialAt(ss[i], l)
  {
    hide SerialAt, Inv;
    if i == 0 {
      SerialStart(ss[0], l);
    } else {
      RunKeepsSerial(ss, steps, i - 1, l);
      RunKeepsInv(ss, steps, i - 1);
      assert ss[i] == Next(ss[i - 1], steps[i - 1]);
      StepKeepsSerial(ss[i - 1], steps[i - 1], l);
    }
  }

  lemma SerialStart(s: State, l: Lock)
    requires Initial(s)
    ensures SerialAt(s, l)
  {
  }

  /** Serialisability: whenever no thread is between its two calls, every tree has served exactly the calls of
      the iterations run one after the other, in the order of their first calls. */
  lemma Serialisable(ss: seq<State>, steps: seq<Step>, i: nat, l: Lock)
    requires IsRun(ss, steps) && i < |ss|
    requires forall t :: 0 <= t < |ss[i].threads| && ss[i].threads[t].phase.Busy? ==>
                           ss[i].threads[t].phase.done in {0, |AccessesOf(ss[i].threads[t])|}
    ensures Served(ss[i].forest, l) == Serial(ss[i].log, l)
  {
    hide Plan, Accesses, Serial;
    RunKeepsSerial(ss, steps, i, l);
    assert Pending(ss[i], l) == [];
  }
}
