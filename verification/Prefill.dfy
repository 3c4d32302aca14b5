/** The prefill of the YCSB benchmark: threads on two nodes share out the even keys by stride and insert
    each into its home table under that table's lock, in any interleaving. */
module Prefill {
  import opened KeyHash
  import opened RecordTable
  import opened Strides
  import opened Numbers
  import opened Options
  import Barrier

  /** `tables` is the number of tables on each node; all tables have the same shape and hash mode. */
  datatype Config = Config(numKeys: Word, threads: nat, tables: nat, buckets: nat, mixing: bool, size: nat)

  /** All configured threads have been started and have passed the barrier. */
  ghost predicate Sane(c: Config) {
    c.threads > 0 && c.threads % 2 == 0 && c.tables > 0 && c.buckets > 0
  }

  function Evens(c: Config): nat {
    c.numKeys / 2
  }

  function KeyOf(c: Config, j: nat): (k: Word)
    requires j < Evens(c)
  {
    2 * j
  }

  /** The table of a key among all tables, those of node 0 first. */
  function Home(c: Config, k: Word): (x: nat)
    requires c.tables > 0
    ensures x < 2 * c.tables
  {
    HashOf(c.mixing, k) % (2 * c.tables)
  }

  /** What each thread will insert next, the tables, and the keys inserted so far with the answers. */
  datatype State = State(next: seq<nat>, tables: seq<Chains>, log: seq<Word>, answers: seq<bool>)

  ghost predicate Has(c: Config, v: Chains, k: Word) {
    |v| > 0 && Lookup(v, c.mixing, k) != None
  }

  /** One `insert` under its lock. */
  ghost function Inserted(c: Config, v: Chains, k: Word): Chains {
    if |v| == 0 || Has(c, v, k) then v else Put(v, c.mixing, k, Fresh(k, c.size))
  }

  ghost predicate Enabled(c: Config, s: State, t: nat) {
    t < |s.next| && s.next[t] < Evens(c)
  }

  /** One round of the loop of thread t. */
  ghost function Step(c: Config, s: State, t: nat): State
    requires Sane(c) && Enabled(c, s, t) && |s.tables| == 2 * c.tables
  {
    var k := KeyOf(c, s.next[t]);
    var x := Home(c, k);
    State(s.next[t := s.next[t] + c.threads], s.tables[x := Inserted(c, s.tables[x], k)],
          s.log + [k], s.answers + [!Has(c, s.tables[x], k)])
  }

  ghost predicate Initial(c: Config, s: State) {
    && |s.next| == Barrier.Started(c.threads) && (forall t :: 0 <= t < |s.next| ==> s.next[t] == t)
    && |s.tables| == 2 * c.tables
    && (forall x :: 0 <= x < |s.tables| ==> s.tables[x] == seq(c.buckets, _ => []))
    && s.log == [] && s.answers == []
  }

  ghost predicate IsRun(c: Config, ss: seq<State>, ts: seq<nat>) {
    && Sane(c) && |ss| == |ts| + 1 && Initial(c, ss[0])
    && forall i :: 0 <= i < |ts| ==>
                     && Enabled(c, ss[i], ts[i]) && |ss[i].tables| == 2 * c.tables
                     && ss[i + 1] == Step(c, ss[i], ts[i])
  }

  ghost predicate Finished(c: Config, s: State) {
    forall t :: 0 <= t < |s.next| ==> s.next[t] >= Evens(c)
  }

  /** The thread of the key has moved past it. */
  ghost predicate Done(c: Config, s: State, k: Word) {
    && k % 2 == 0 && k / 2 < Evens(c)
    && Owner(k / 2, c.threads) < |s.next| && s.next[Owner(k / 2, c.threads)] > k / 2
  }

  /** The table holds exactly the keys that are done and at home there, with their first payload. */
  ghost predicate Entry(c: Config, s: State, x: nat, k: Word)
    requires c.tables > 0 && x < |s.tables|
  {
    && |s.tables[x]| > 0
    && Lookup(s.tables[x], c.mixing, k) == if Done(c, s, k) && Home(c, k) == x then Some(Fresh(k, c.size)) else None
  }

  ghost predicate LogOk(c: Config, s: State) {
    && |s.log| == |s.answers| && (forall i :: 0 <= i < |s.answers| ==> s.answers[i])
    && (forall i, j :: 0 <= i < j < |s.log| ==> s.log[i] != s.log[j])
    && (forall k: Word :: k in s.log <==> Done(c, s, k))
  }

  ghost predicate Inv(c: Config, s: State) {
    && Sane(c) && |s.next| == c.threads && |s.tables| == 2 * c.tables
    && (forall t :: 0 <= t < |s.next| ==> Owner(s.next[t], c.threads) == t)
    && (forall x :: 0 <= x < |s.tables| ==> Ok(s.tables[x], c.mixing))
    && (forall x, k: Word :: 0 <= x < |s.tables| ==> Entry(c, s, x, k))
    && LogOk(c, s)
  }

  /** A round marks exactly its own key. */
  lemma StepMarks(c: Config, s: State, t: nat, k: Word)
    requires Inv(c, s) && Enabled(c, s, t)
    ensures Done(c, Step(c, s, t), k) <==> Done(c, s, k) || k == KeyOf(c, s.next[t])
    ensures !Done(c, s, KeyOf(c, s.next[t]))
  {
    hide Inserted, Home, Has, Entry, LogOk;
    Stride(s.next[t], k / 2, c.threads);
  }

  lemma StepKeepsEntry(c: Config, s: State, t: nat, x: nat, k: Word)
    requires Inv(c, s) && Enabled(c, s, t) && x < |s.tables|
    ensures Entry(c, Step(c, s, t), x, k) && Ok(Step(c, s, t).tables[x], c.mixing)
  {
    hide Ok, Put, Lookup, Fresh, LogOk, Home, Done;
    var key := KeyOf(c, s.next[t]);
    StepMarks(c, s, t, k);
    assert Entry(c, s, x, k) && Entry(c, s, x, key);
    if x == Home(c, key) {
      PutRefines(s.tables[x], c.mixing, key, Fresh(key, c.size), k);
    }
  }

  lemma StepKeepsLog(c: Config, s: State, t: nat)
    requires Inv(c, s) && Enabled(c, s, t)
    ensures LogOk(c, Step(c, s, t))
  {
    hide Done, Home, Inserted, Ok, Lookup, Fresh;
    var s', key := Step(c, s, t), KeyOf(c, s.next[t]);
    StepMarks(c, s, t, key);
    assert Entry(c, s, Home(c, key), key);
    forall k: Word ensures k in s'.log <==> Done(c, s', k) {
      StepMarks(c, s, t, k);
    }
  }

  lemma StepKeepsInv(c: Config, s: State, t: nat)
    requires Inv(c, s) && Enabled(c, s, t)
    ensures Inv(c, Step(c, s, t))
  {
    hide Entry, Ok, LogOk, Home, Inserted, Has, Done;
    var s' := Step(c, s, t);
    Stride(s.next[t], 0, c.threads);
    StepKeepsLog(c, s, t);
    forall x, k: Word | 0 <= x < |s'.tables| ensures Entry(c, s', x, k) {
      StepKeepsEntry(c, s, t, x, k);
    }
    forall x | 0 <= x < |s'.tables| ensures Ok(s'.tables[x], c.mixing) {
      StepKeepsEntry(c, s, t, x, 0);
    }
  }

  lemma StartsInv(c: Config, s: State)
    requires Sane(c) && Initial(c, s)
    ensures Inv(c, s)
  {
    forall k: Word ensures !Done(c, s, k) {
      FirstAtOrBefore(k / 2, c.threads);
    }
  }

  lemma {:induction false} RunKeepsInv(c: Config, ss: seq<State>, ts: seq<nat>, i: nat)
    requires IsRun(c, ss, ts) && i < |ss|
    ensures Inv(c, ss[i])
  {
    hide Inv, Initial, Step;
    if i == 0 {
      StartsInv(c, ss[0]);
    } else {
      RunKeepsInv(c, ss, ts, i - 1);
      assert ss[i] == Step(c, ss[i - 1], ts[i - 1]);
      StepKeepsInv(c, ss[i - 1], ts[i - 1]);
    }
  }

  ghost predicate EvenKey(c: Config, k: Word) {
    k % 2 == 0 && k < 2 * (c.numKeys / 2)
  }

  /** The even keys, if the prefill loop is ever entered: the number of threads is even and not zero. */
  ghost predicate Placed(c: Config, k: Word) {
    c.threads > 0 && c.threads % 2 == 0 && EvenKey(c, k)
  }

  /** One execution of the initialisation: all started threads arrive at the barrier in some order, and if
      it lets them through they run their loops to the end, in some interleaving. */
  ghost predicate IsExecution(c: Config, bs: seq<Barrier.State>, bts: seq<nat>, ss: seq<State>, ts: seq<nat>) {
    && c.tables > 0 && c.buckets > 0
    && Barrier.IsRun(bs, bts, c.threads) && Barrier.Settled(bs[|bts|])
    && |ss| == |ts| + 1 && Initial(c, ss[0])
    && if Through(bs[|bts|]) then IsRun(c, ss, ts) && Finished(c, ss[|ts|]) else ts == []
  }

  /** Somebody is through the barrier. */
  ghost predicate Through(b: Barrier.State) {
    exists t :: 0 <= t < |b| && b[t].Past?
  }

  /** The barrier lets the threads through exactly if their number is even and not zero. */
  lemma ThroughExactlyWhenEven(bs: seq<Barrier.State>, bts: seq<nat>, threads: nat)
    requires Barrier.IsRun(bs, bts, threads) && Barrier.Settled(bs[|bts|])
    ensures Through(bs[|bts|]) <==> threads > 0 && threads % 2 == 0
  {
    var b := bs[|bts|];
    Barrier.RunKeepsInv(bs, bts, threads, |bts|);
    Barrier.SettledInv(b, threads);
    if threads > 0 && threads % 2 == 0 {
      assert b[0].Past?;
    }
  }

  /** The home of a key is its hash modulo the number of all tables. */
  lemma HomeIs(c: Config, k: Word)
    requires c.tables > 0
    ensures Home(c, k) == HashOf(c.mixing, k) % (2 * c.tables)
  {
  }

  /** Every execution inserts exactly the placed keys, each once, each insertion answered true, and each
      table holds exactly the placed keys at home there. */
  lemma EveryEvenKeyOnce(c: Config, bs: seq<Barrier.State>, bts: seq<nat>, ss: seq<State>, ts: seq<nat>, x: nat, k: Word)
    requires IsExecution(c, bs, bts, ss, ts) && x < 2 * c.tables
    ensures var s := ss[|ts|];
            && |s.tables| == 2 * c.tables && |s.tables[x]| > 0
            && (k in s.log <==> Placed(c, k))
            && (forall i, j :: 0 <= i < j < |s.log| ==> s.log[i] != s.log[j])
            && |s.answers| == |s.log| && (forall i :: 0 <= i < |s.answers| ==> s.answers[i])
            && (Lookup(s.tables[x], c.mixing, k) ==
                if Placed(c, k) && HashOf(c.mixing, k) % (2 * c.tables) == x then Some(Fresh(k, c.size)) else None)
  {
    HomeIs(c, k);
    hide Home, Ok, Fresh, HashOf;
    ThroughExactlyWhenEven(bs, bts, c.threads);
    if Through(bs[|bts|]) {
      AllPlaced(c, ss, ts, x, k);
    }
  }

  lemma AllPlaced(c: Config, ss: seq<State>, ts: seq<nat>, x: nat, k: Word)
    requires IsRun(c, ss, ts) && Finished(c, ss[|ts|]) && x < 2 * c.tables
    ensures var s := ss[|ts|];
            && LogOk(c, s) && (k in s.log <==> EvenKey(c, k))
            && |s.tables| == 2 * c.tables && |s.tables[x]| > 0
            && Lookup(s.tables[x], c.mixing, k) == if EvenKey(c, k) && Home(c, k) == x then Some(Fresh(k, c.size)) else None
  {
    hide Home, Lookup, Ok, Fresh;
    var s := ss[|ts|];
    RunKeepsInv(c, ss, ts, |ts|);
    assert Entry(c, s, x, k);
    assert Done(c, s, k) <==> EvenKey(c, k);
  }

  /** All even keys end up in their home tables if and only if the number of threads is even and not zero,
      or there are none. */
  lemma PrefillsExactlyWhenEven(c: Config, bs: seq<Barrier.State>, bts: seq<nat>, ss: seq<State>, ts: seq<nat>)
    requires IsExecution(c, bs, bts, ss, ts)
    ensures |ss[|ts|].tables| == 2 * c.tables
    ensures (forall k: Word :: EvenKey(c, k) ==> Has(c, ss[|ts|].tables[HashOf(c.mixing, k) % (2 * c.tables)], k)) <==>
            (c.threads > 0 && c.threads % 2 == 0) || c.numKeys < 2
  {
    hide HashOf, Home, Lookup, IsRun, Initial, Fresh, Finished, Through;
    EveryEvenKeyOnce(c, bs, bts, ss, ts, 0, 0);
    forall k: Word ensures Has(c, ss[|ts|].tables[HashOf(c.mixing, k) % (2 * c.tables)], k) <==> Placed(c, k) {
      EveryEvenKeyOnce(c, bs, bts, ss, ts, HashOf(c.mixing, k) % (2 * c.tables), k);
    }
  }

  /** The slot that the workload probes is the key's slot on its home node. */
  lemma HomeSlot(c: Config, k: Word)
    requires c.tables > 0
    ensures var h := HashOf(c.mixing, k);
            && Home(c, k) == h % (2 * c.tables)
            && h % (2 * c.tables) == (if h % (2 * c.tables) < c.tables then h % c.tables else c.tables + h % c.tables)
  {
    hide HashOf;
    Split(HashOf(c.mixing, k), c.tables, 2 * c.tables);
  }

  lemma Split(h: nat, m: nat, n: nat)
    requires m > 0 && n == 2 * m
    ensures h % n == if h % n < m then h % m else m + h % m
  {
    var q, r := Divided(h, n);
    Halves(h, m, n, q, r);
  }

  lemma Halves(h: nat, m: nat, n: nat, q: nat, r: nat)
    requires n == 2 * m && h == q * n + r && r < n
    ensures r == if r < m then h % m else m + h % m
  {
    if r < m {
      Residue(h, 2 * q, m, r);
    } else {
      Residue(h, 2 * q + 1, m, r - m);
    }
  }

  /** After the prefill, a read on a node finds exactly the placed keys whose home is that node. */
  lemma ProbeFinds(c: Config, bs: seq<Barrier.State>, bts: seq<nat>, ss: seq<State>, ts: seq<nat>, node: nat, k: Word)
    requires IsExecution(c, bs, bts, ss, ts) && node < 2
    ensures var x := node * c.tables + HashOf(c.mixing, k) % c.tables;
            && x < |ss[|ts|].tables|
            && (Has(c, ss[|ts|].tables[x], k) <==> Placed(c, k) && (HashOf(c.mixing, k) % (2 * c.tables) < c.tables <==> node == 0))
  {
    hide Lookup, Home, Step, Initial, HashOf;
    HomeSlot(c, k);
    EveryEvenKeyOnce(c, bs, bts, ss, ts, node * c.tables + HashOf(c.mixing, k) % c.tables, k);
  }
}
