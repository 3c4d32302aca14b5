/** `single_node_merge`: the threads of node 0 share out the keys of node 1's table by stride and add
    them to node 0's table under locks, in any interleaving. */
module ParallelMerge {
  import opened UserBucket
  import opened HashTable
  import opened Histogram
  import opened Strides

  /** A worker looks at key number `next`: about to read its count under node 1's lock, or holding the
      count that it is about to add under node 0's lock. */
  datatype Worker = AtRead(next: nat) | AtAdd(next: nat, count: int)

  datatype State = State(table: Chains, workers: seq<Worker>)

  /** The locked section that worker t executes next; after its key it moves on by the number of workers. */
  ghost function Step(s: State, u: Chains, keys: seq<Text>, t: nat): State
    requires t < |s.workers| && s.workers[t].next < |keys|
  {
    var w := s.workers[t];
    var key := keys[w.next];
    match w
    case AtRead(i) =>
      var count := Get(u, key);
      s.(workers := s.workers[t := if count > 0 then AtAdd(i, count) else AtRead(i + |s.workers|)])
    case AtAdd(i, count) =>
      State(Add(s.table, key, count), s.workers[t := AtRead(i + |s.workers|)])
  }

  ghost predicate Enabled(s: State, keys: seq<Text>, t: nat) {
    t < |s.workers| && s.workers[t].next < |keys|
  }

  ghost predicate Initial(s: State, v: Chains) {
    s.table == v && |s.workers| > 0 && forall t :: 0 <= t < |s.workers| ==> s.workers[t] == AtRead(t)
  }

  ghost predicate IsRun(ss: seq<State>, ts: seq<nat>, v: Chains, u: Chains, keys: seq<Text>) {
    && |ss| == |ts| + 1 && Initial(ss[0], v)
    && forall i :: 0 <= i < |ts| ==> Enabled(ss[i], keys, ts[i]) && ss[i + 1] == Step(ss[i], u, keys, ts[i])
  }

  ghost predicate Finished(s: State, keys: seq<Text>) {
    forall t :: 0 <= t < |s.workers| ==> s.workers[t].next >= |keys|
  }

  /** Key i has been handled: its worker has moved past it. */
  ghost predicate Done(s: State, i: nat) {
    |s.workers| > 0 && s.workers[Owner(i, |s.workers|)].next > i
  }

  ghost predicate WorkerOk(s: State, u: Chains, keys: seq<Text>, t: nat)
    requires t < |s.workers|
  {
    var w := s.workers[t];
    && Owner(w.next, |s.workers|) == t
    && (w.AtAdd? ==> w.next < |keys| && w.count == Get(u, keys[w.next]))
  }

  ghost predicate KeyOk(s: State, v: Chains, u: Chains, keys: seq<Text>, i: nat)
    requires i < |keys|
  {
    && Get(s.table, keys[i]) == Get(v, keys[i]) + (if Done(s, i) then Get(u, keys[i]) else 0)
    && (Has(s.table, keys[i]) <==> Has(v, keys[i]) || Done(s, i))
  }

  ghost predicate OtherOk(s: State, v: Chains, w: Text) {
    Get(s.table, w) == Get(v, w) && (Has(s.table, w) <==> Has(v, w))
  }

  ghost predicate Inv(s: State, v: Chains, u: Chains, keys: seq<Text>) {
    && Ok(s.table) && |s.workers| > 0
    && (forall t :: 0 <= t < |s.workers| ==> WorkerOk(s, u, keys, t))
    && (forall i :: 0 <= i < |keys| ==> KeyOk(s, v, u, keys, i))
    && (forall w :: w !in keys ==> OtherOk(s, v, w))
  }

  lemma StepKeepsWorkers(s: State, u: Chains, keys: seq<Text>, t: nat, r: nat)
    requires Enabled(s, keys, t) && r < |s.workers| && WorkerOk(s, u, keys, t) && WorkerOk(s, u, keys, r)
    ensures WorkerOk(Step(s, u, keys, t), u, keys, r)
  {
    hide Get, Add;
    Stride(s.workers[t].next, 0, |s.workers|);
  }

  /** Only the adding step marks a key done, and only the key at which the worker stands. */
  lemma StepMarks(s: State, u: Chains, keys: seq<Text>, t: nat, i: nat)
    requires Enabled(s, keys, t) && WorkerOk(s, u, keys, t) && i < |keys|
    requires forall w :: Has(u, w) ==> Get(u, w) > 0
    requires Has(u, keys[s.workers[t].next])
    ensures Done(Step(s, u, keys, t), i) <==> Done(s, i) || (s.workers[t].AtAdd? && i == s.workers[t].next)
    ensures i == s.workers[t].next ==> !Done(s, i)
  {
    hide Get, Has, Add;
    Stride(s.workers[t].next, i, |s.workers|);
  }

  lemma StepKeepsKey(s: State, v: Chains, u: Chains, keys: seq<Text>, t: nat, i: nat)
    requires Enabled(s, keys, t) && WorkerOk(s, u, keys, t) && i < |keys| && KeyOk(s, v, u, keys, i)
    requires Ok(s.table) && NoDup(keys)
    requires forall w :: Has(u, w) ==> Get(u, w) > 0
    requires Has(u, keys[s.workers[t].next])
    ensures KeyOk(Step(s, u, keys, t), v, u, keys, i)
  {
    hide Get, Has, Add, Ok;
    StepMarks(s, u, keys, t, i);
    var w := s.workers[t];
    if w.AtAdd? {
      AddRefines(s.table, keys[w.next], w.count, keys[i]);
      assert i != w.next ==> keys[i] != keys[w.next];
    }
  }

  lemma StepKeepsInv(s: State, v: Chains, u: Chains, keys: seq<Text>, t: nat)
    requires Ok(u) && keys == Keys(u) && (forall w :: Has(u, w) ==> Get(u, w) > 0)
    requires Inv(s, v, u, keys) && Enabled(s, keys, t)
    ensures Inv(Step(s, u, keys, t), v, u, keys)
  {
    hide Get, Has, Add, KeyOk, Keys;
    var s', w := Step(s, u, keys, t), s.workers[t];
    KeysAreTheDomain(u, keys[w.next]);
    if w.AtAdd? {
      AddRefines(s.table, keys[w.next], w.count, keys[w.next]);
    }
    forall r | 0 <= r < |s'.workers| ensures WorkerOk(s', u, keys, r) {
      StepKeepsWorkers(s, u, keys, t, r);
    }
    forall i | 0 <= i < |keys| ensures KeyOk(s', v, u, keys, i) {
      StepKeepsKey(s, v, u, keys, t, i);
    }
    forall x | x !in keys ensures OtherOk(s', v, x) {
      assert OtherOk(s, v, x);
      if w.AtAdd? {
        AddRefines(s.table, keys[w.next], w.count, x);
      }
    }
  }

  lemma StartsInv(s: State, v: Chains, u: Chains, keys: seq<Text>)
    requires Initial(s, v) && Ok(v)
    ensures Inv(s, v, u, keys)
  {
    forall i | 0 <= i < |keys| ensures !Done(s, i) {
      FirstAtOrBefore(i, |s.workers|);
    }
  }

  lemma {:induction false} RunKeepsInv(ss: seq<State>, ts: seq<nat>, v: Chains, u: Chains, keys: seq<Text>, i: nat)
    requires Ok(v) && Ok(u) && keys == Keys(u) && (forall w :: Has(u, w) ==> Get(u, w) > 0)
    requires IsRun(ss, ts, v, u, keys) && i < |ss|
    ensures Inv(ss[i], v, u, keys)
  {
    hide Inv, Initial, Step, Add, Get, Has, Keys, Ok;
    if i == 0 {
      StartsInv(ss[0], v, u, keys);
    } else {
      RunKeepsInv(ss, ts, v, u, keys, i - 1);
      assert ss[i] == Step(ss[i - 1], u, keys, ts[i - 1]);
      StepKeepsInv(ss[i - 1], v, u, keys, ts[i - 1]);
    }
  }

  /** Every interleaving that runs all workers to their end leaves the sum of the two tables. */
  lemma EveryInterleavingSums(ss: seq<State>, ts: seq<nat>, v: Chains, u: Chains, keys: seq<Text>)
    requires Ok(v) && Ok(u) && keys == Keys(u) && (forall w :: Has(u, w) ==> Get(u, w) > 0)
    requires IsRun(ss, ts, v, u, keys) && Finished(ss[|ts|], keys)
    ensures Ok(ss[|ts|].table) && IsSum(ss[|ts|].table, v, u)
  {
    var s := ss[|ts|];
    RunKeepsInv(ss, ts, v, u, keys, |ts|);
    forall w ensures Get(s.table, w) == Get(v, w) + Get(u, w) && (Has(s.table, w) <==> Has(v, w) || Has(u, w)) {
      KeysAreTheDomain(u, w);
      GetAbsent(u, w);
      if w in keys {
        var i :| 0 <= i < |keys| && keys[i] == w;
        assert KeyOk(s, v, u, keys, i) && Done(s, i);
      } else {
        assert OtherOk(s, v, w);
      }
    }
  }

  /** Run on the two nodes' tables of a counted book, every interleaving gives the count of both halves. */
  lemma EveryInterleavingCounts(ss: seq<State>, ts: seq<nat>, v: Chains, u: Chains, a: seq<Text>, b: seq<Text>)
    requires Ok(v) && Ok(u) && Tallies(v, a) && Tallies(u, b)
    requires IsRun(ss, ts, v, u, Keys(u)) && Finished(ss[|ts|], Keys(u))
    ensures Ok(ss[|ts|].table) && Tallies(ss[|ts|].table, a + b)
  {
    EveryInterleavingSums(ss, ts, v, u, Keys(u));
    SumTallies(ss[|ts|].table, v, u, a, b);
  }

  /** The parallel merge equals the sequential one: every interleaving that runs all workers to their end
      leaves the same map as a sequential merge of the same tables, whose result is their sum. */
  lemma SameAsSequential(ss: seq<State>, ts: seq<nat>, v: Chains, u: Chains, r: Chains)
    requires Ok(v) && Ok(u) && (forall w :: Has(u, w) ==> Get(u, w) > 0)
    requires IsRun(ss, ts, v, u, Keys(u)) && Finished(ss[|ts|], Keys(u))
    requires Ok(r) && IsSum(r, v, u)
    ensures AsMap(ss[|ts|].table) == AsMap(r)
  {
    hide Get, Has, Keys, Ok, Finished;
    EveryInterleavingSums(ss, ts, v, u, Keys(u));
    SameSum(ss[|ts|].table, r, v, u);
  }

  lemma SameSum(r: Chains, r': Chains, v: Chains, u: Chains)
    requires Ok(r) && Ok(r') && IsSum(r, v, u) && IsSum(r', v, u)
    ensures AsMap(r) == AsMap(r')
  {
    hide Get, Has, Keys, Ok;
    forall w ensures w in Keys(r) <==> w in Keys(r') {
      KeysAreTheDomain(r, w);
      KeysAreTheDomain(r', w);
    }
  }

  /** Every run of that many workers to their end counts exactly these words. */
  ghost predicate EveryRunCounts(v: Chains, u: Chains, workers: nat, ws: seq<Text>) {
    forall ss: seq<State>, ts: seq<nat> :: IsRun(ss, ts, v, u, Keys(u)) && |ss[0].workers| == workers && Finished(ss[|ts|], Keys(u)) ==>
                                             Ok(ss[|ts|].table) && Tallies(ss[|ts|].table, ws)
  }

  /** From the input to the end of `single_node_merge`, run right after `phase_two`: with an even number of
      threads every interleaving of node 0's workers ends with the word count of the whole book. */
  method ParallelPipeline(lines: seq<Line>, threads: nat, buckets: nat) returns (r: NodeTables)
    requires threads > 0 && buckets > 0
    ensures r.Tables? <==> threads % 2 == 0
    ensures r.Tables? ==> EveryRunCounts(r.first.View(), r.second.View(), threads / 2, WordsOfLines(lines))
  {
    ghost var a, b;
    r, a, b := PhaseTwo(lines, threads, buckets);
    if r.Tables? {
      ghost var v, u := r.first.View(), r.second.View();
      forall ss: seq<State>, ts: seq<nat> | IsRun(ss, ts, v, u, Keys(u)) && |ss[0].workers| == threads / 2 && Finished(ss[|ts|], Keys(u))
        ensures Ok(ss[|ts|].table) && Tallies(ss[|ts|].table, WordsOfLines(lines))
      {
        EveryInterleavingCounts(ss, ts, v, u, a, b);
      }
    }
  }

  /** What a worker still has to do, at most two steps for each key ahead of it. */
  function Work(w: Worker, keys: nat): nat {
    if w.next >= keys then 0 else 2 * (keys - w.next) - (if w.AtAdd? then 1 else 0)
  }

  function TotalWork(ws: seq<Worker>, keys: nat): nat {
    if ws == [] then 0 else TotalWork(ws[..|ws| - 1], keys) + Work(ws[|ws| - 1], keys)
  }

  lemma {:induction false} LessWork(ws: seq<Worker>, t: nat, w: Worker, keys: nat)
    requires t < |ws| && Work(w, keys) < Work(ws[t], keys)
    ensures TotalWork(ws[t := w], keys) < TotalWork(ws, keys)
  {
    var n := |ws| - 1;
    if t < n {
      LessWork(ws[..n], t, w, keys);
      assert ws[t := w][..n] == ws[..n][t := w];
    } else {
      assert ws[t := w][..n] == ws[..n];
    }
  }

  /** Every interleaving comes to its end: no run is longer than the work at its start. */
  lemma {:induction false} RunsEnd(ss: seq<State>, ts: seq<nat>, v: Chains, u: Chains, keys: seq<Text>, i: nat)
    requires IsRun(ss, ts, v, u, keys) && i < |ss|
    ensures i + TotalWork(ss[i].workers, |keys|) <= TotalWork(ss[0].workers, |keys|)
    ensures |ss[i].workers| == |ss[0].workers| > 0
  {
    hide Add, Get, Has;
    if i > 0 {
      RunsEnd(ss, ts, v, u, keys, i - 1);
      var s, t := ss[i - 1], ts[i - 1];
      assert ss[i] == Step(s, u, keys, t);
      LessWork(s.workers, t, ss[i].workers[t], |keys|);
      assert ss[i].workers == s.workers[t := ss[i].workers[t]];
    }
  }
}
