/** Splitting a mixed workload among the threads of the YCSB benchmark. */
module Workload {
  import opened Options

  datatype Shares = Shares(read: nat, update: nat, insert: nat, scan: nat, rmw: nat)

  datatype Task = Task(shares: Shares, local: int)

  /** One comma-separated part of the workload string: its name, local percentage and thread percentage.
      The parts are split at dashes, so that no number is negative; a field that is missing or does not
      start with a number in range is none. */
  datatype Entry = Entry(name: string, local: Option<nat>, percent: Option<nat>)

  /** Both numbers can be read. */
  predicate Legal(e: Entry) {
    e.local.Some? && e.percent.Some?
  }

  function Percent(e: Entry): nat {
    if e.percent.Some? then e.percent.value else 0
  }

  /** `selectWorkload`: every known workload uses up its hundred percent. */
  function SelectWorkload(name: string): (r: Option<Shares>)
    ensures r.Some? <==> name in ["A", "B", "C", "D", "E", "F"]
    ensures r.Some? ==> r.value.read + r.value.update + r.value.insert + r.value.scan + r.value.rmw == 100
  {
    match name
    case "A" => Some(Shares(50, 50, 0, 0, 0))
    case "B" => Some(Shares(95, 5, 0, 0, 0))
    case "C" => Some(Shares(100, 0, 0, 0, 0))
    case "D" => Some(Shares(95, 0, 5, 0, 0))
    case "E" => Some(Shares(0, 0, 5, 95, 0))
    case "F" => Some(Shares(50, 0, 0, 0, 50))
    case _ => None
  }

  /** The mixes of the six workloads: reads and updates, reads and insertions, scans, read-modify-writes. */
  lemma KnownMixes()
    ensures forall w :: w in ["A", "B", "C", "D", "E", "F"] ==> SelectWorkload(w).Some?
    ensures SelectWorkload("A").value.(update := 0) == SelectWorkload("F").value.(rmw := 0) == Shares(50, 0, 0, 0, 0)
    ensures SelectWorkload("B").value.(update := 0) == SelectWorkload("D").value.(insert := 0) == Shares(95, 0, 0, 0, 0)
    ensures SelectWorkload("C").value == Shares(100, 0, 0, 0, 0)
    ensures SelectWorkload("E").value.(scan := 0) == Shares(0, 0, 5, 0, 0)
  {
  }

  function Total(es: seq<Entry>): nat {
    if es == [] then 0 else Total(es[..|es| - 1]) + Percent(es[|es| - 1])
  }

  /** The total is the sum of the percentages. */
  lemma {:induction false} TotalSums(a: seq<Entry>, e: Entry, b: seq<Entry>)
    ensures Total([e]) == Percent(e) && Total(a + b) == Total(a) + Total(b)
    decreases |b|
  {
    assert [e][..0] == [];
    if b == [] {
      assert a + b == a;
    } else {
      assert (a + b)[..|a + b| - 1] == a + b[..|b| - 1];
      TotalSums(a, e, b[..|b| - 1]);
    }
  }

  predicate Known(e: Entry) {
    Legal(e) && SelectWorkload(e.name).Some?
  }

  function TaskOf(e: Entry): Task
    requires Known(e)
  {
    Task(SelectWorkload(e.name).value, e.local.value)
  }

  function Repeat<T>(x: T, n: nat): (r: seq<T>)
    ensures |r| == n && forall i :: 0 <= i < n ==> r[i] == x
  {
    seq(n, _ => x)
  }

  predicate AllKnown(es: seq<Entry>) {
    forall i :: 0 <= i < |es| ==> Known(es[i])
  }

  /** An entry's share of the threads, rounded down. */
  function Share(e: Entry, threads: nat): (n: nat)
    ensures n == 0 <==> threads * Percent(e) < 100
  {
    threads * Percent(e) / 100
  }

  lemma ShareRoundsDown(e: Entry, threads: nat)
    ensures 100 * Share(e, threads) <= threads * Percent(e) < 100 * (Share(e, threads) + 1)
  {
  }

  /** The shares of all entries, in order. */
  function Pool(es: seq<Entry>, threads: nat): seq<Task>
    requires AllKnown(es)
  {
    if es == [] then []
    else
      var e := es[|es| - 1];
      Pool(es[..|es| - 1], threads) + Repeat(TaskOf(e), Share(e, threads))
  }

  /** The shares together never exceed the threads. */
  lemma SharesFit(es: seq<Entry>, threads: nat)
    requires AllKnown(es)
    ensures 100 * |Pool(es, threads)| <= threads * Total(es)
    ensures Total(es) <= 100 ==> |Pool(es, threads)| <= threads
  {
    SharesSum(es, threads);
    if Total(es) <= 100 {
      AtMost(threads, Total(es));
    }
  }

  lemma {:induction false} SharesSum(es: seq<Entry>, threads: nat)
    requires AllKnown(es)
    ensures 100 * |Pool(es, threads)| <= threads * Total(es)
  {
    hide Share, SelectWorkload;
    if es != [] {
      var init, e := es[..|es| - 1], es[|es| - 1];
      SharesSum(init, threads);
      ShareRoundsDown(e, threads);
      Distributes(threads, Total(init), Percent(e));
    }
  }

  lemma Distributes(a: nat, b: nat, c: nat)
    ensures a * (b + c) == a * b + a * c
  {
  }

  lemma AtMost(threads: nat, total: nat)
    requires total <= 100
    ensures threads * total <= 100 * threads
  {
  }

  /** The last task fills up the pool, if there is one. */
  function Padded(pool: seq<Task>, threads: nat): (r: seq<Task>)
    ensures pool <= r && (pool != [] ==> |r| == if |pool| < threads then threads else |pool|)
    ensures pool == [] ==> r == []
    ensures forall i :: |pool| <= i < |r| ==> r[i] == pool[|pool| - 1]
  {
    if pool == [] || |pool| >= threads then pool
    else pool + Repeat(pool[|pool| - 1], threads - |pool|)
  }

  const BLANK := Task(Shares(0, 0, 0, 0, 0), 0)

  /** What a call does: report that the percentages exceed 100 and exit; throw at an unreadable number or an
      unknown workload; read outside an empty pool; or return the tasks. */
  datatype Outcome = Exits | Throws | ReadsOutside | Tasks(tasks: seq<Task>)

  /** The entries before i are accepted, and entry i goes over the hundred. */
  ghost predicate ExceedsAt(es: seq<Entry>, i: nat) {
    i < |es| && Total(es[..i]) <= 100 && AllKnown(es[..i]) && Legal(es[i]) && Total(es[..i + 1]) > 100
  }

  /** The entries before i are accepted, and entry i has an unreadable number or an unknown name. */
  ghost predicate UnknownAt(es: seq<Entry>, i: nat) {
    && i < |es| && Total(es[..i]) <= 100 && AllKnown(es[..i])
    && (!Legal(es[i]) || (Total(es[..i + 1]) <= 100 && !Known(es[i])))
  }

  /** The even positions go to the first node, the odd ones to the second. */
  function Dealt(pool: seq<Task>, half: nat, odd: nat): (r: seq<Task>)
    requires odd <= 1 && 2 * half <= |pool|
    ensures |r| == half && forall i :: 0 <= i < half ==> r[i] == pool[2 * i + odd]
  {
    seq(half, i requires 0 <= i < half => pool[2 * i + odd])
  }

  ghost predicate Permutes(a: seq<Task>, b: seq<Task>, pool: seq<Task>) {
    multiset(a + b) == multiset(pool)
  }

  /** Dealing an even pool to two nodes loses and duplicates nothing. */
  lemma {:induction false} DealPermutes(pool: seq<Task>, half: nat)
    requires |pool| == 2 * half
    ensures Permutes(Dealt(pool, half, 0), Dealt(pool, half, 1), pool)
  {
    hide Dealt, Permutes;
    if half == 0 {
      NoneDealt(pool);
    } else {
      var init := pool[..2 * half - 2];
      DealPermutes(init, half - 1);
      DealtMore(pool, half, 0);
      DealtMore(pool, half, 1);
      AddPair(Dealt(init, half - 1, 0), Dealt(init, half - 1, 1), pool);
    }
  }

  lemma DealtMore(pool: seq<Task>, half: nat, odd: nat)
    requires odd <= 1 && 0 < half && 2 * half == |pool|
    ensures Dealt(pool, half, odd) == Dealt(pool[..2 * half - 2], half - 1, odd) + [pool[2 * half - 2 + odd]]
  {
  }

  lemma NoneDealt(pool: seq<Task>)
    requires pool == []
    ensures Permutes(Dealt(pool, 0, 0), Dealt(pool, 0, 1), pool)
  {
  }

  lemma AddPair(a: seq<Task>, b: seq<Task>, s: seq<Task>)
    requires |s| >= 2 && Permutes(a, b, s[..|s| - 2])
    ensures Permutes(a + [s[|s| - 2]], b + [s[|s| - 1]], s)
  {
    assert s == s[..|s| - 2] + [s[|s| - 2], s[|s| - 1]];
  }

  method PushMany(pool: seq<Task>, task: Task, share: nat) returns (r: seq<Task>)
    ensures r == pool + Repeat(task, share)
  {
    r := pool;
    for j := 0 to share
      invariant r == pool + Repeat(task, j)
    {
      r := r + [task];
    }
  }

  /** `parse_mixed_workload`. */
  method ParseMixedWorkload(es: seq<Entry>, threads: nat) returns (r: Outcome)
    ensures r == Exits <==> exists i: nat :: ExceedsAt(es, i)
    ensures r == Throws <==> exists i: nat :: UnknownAt(es, i)
    ensures r == ReadsOutside <==> AllKnown(es) && Total(es) <= 100 && threads >= 2 && NoShare(es, threads)
    ensures r.Tasks? <==> AllKnown(es) && Total(es) <= 100 && (threads < 2 || !NoShare(es, threads))
    ensures r.Tasks? ==> |r.tasks| == threads
    ensures r.Tasks? && threads >= 2 ==> DealtFrom(r.tasks, Padded(Pool(es, threads), threads), threads)
    ensures r.Tasks? && threads >= 2 ==> exists starts :: Assigned(es, threads, r.tasks, starts)
  {
    hide DealtFrom, Pool, ExceedsAt, UnknownAt, Total, Assigned, Padded, Boundaries;
    Nothing(es, threads);
    var pool: seq<Task> := [];
    var total := 0;
    var i := 0;
    while i < |es|
      invariant 0 <= i <= |es| && AllKnown(es[..i]) && total == Total(es[..i]) <= 100
      invariant pool == Pool(es[..i], threads)
      invariant forall k: nat :: k < i ==> !ExceedsAt(es, k) && !UnknownAt(es, k)
    {
      var e := es[i];
      Extend(es, i, threads);
      if e.local.None? || e.percent.None? {
        Decided(es, i);
        return Throws;
      }
      total := total + e.percent.value;
      if total > 100 {
        Decided(es, i);
        return Exits;
      }
      var shares := SelectWorkload(e.name);
      if shares.None? {
        Decided(es, i);
        return Throws;
      }
      pool := PushMany(pool, Task(shares.value, e.local.value), threads * e.percent.value / 100);
      Fine(es, i);
      i := i + 1;
    }
    assert es[..|es|] == es;
    SharesFit(es, threads);
    PoolEmpty(es, threads);
    AllFine(es);
    r := Assign(pool, threads);
    if r.Tasks? && threads >= 2 {
      ghost var starts := PoolBlocks(es, threads);
      BlocksAssigned(es, threads, pool, r.tasks, starts);
    }
  }

  /** Entry i has the places from starts[i] to starts[i + 1]: its percentage of the threads, rounded down. */
  ghost predicate Bounded(es: seq<Entry>, threads: nat, starts: seq<nat>, i: nat)
    requires i < |es| && |starts| == |es| + 1
  {
    && starts[i] <= starts[i + 1]
    && var n := starts[i + 1] - starts[i];
    100 * n <= threads * Percent(es[i]) < 100 * (n + 1)
  }

  ghost predicate Boundaries(es: seq<Entry>, threads: nat, starts: seq<nat>) {
    |starts| == |es| + 1 && starts[0] == 0 && forall i :: 0 <= i < |es| ==> Bounded(es, threads, starts, i)
  }

  /** The task of place j: even places are on the first node, odd ones on the second. */
  function TaskAt(tasks: seq<Task>, threads: nat, j: nat): Task
    requires |tasks| == threads && j < 2 * (threads / 2)
  {
    tasks[j / 2 + (if j % 2 == 1 then threads / 2 else 0)]
  }

  /** The task has the entry's workload and local percentage. */
  predicate Carries(t: Task, e: Entry) {
    && e.local.Some? && SelectWorkload(e.name).Some?
    && t == Task(SelectWorkload(e.name).value, e.local.value)
  }

  ghost predicate Carried(tasks: seq<Task>, threads: nat, e: Entry, lo: nat, hi: nat)
    requires |tasks| == threads
  {
    forall j :: lo <= j < hi && j < 2 * (threads / 2) ==> Carries(TaskAt(tasks, threads, j), e)
  }

  /** The places of every entry carry it, and the places left over carry the task of the last place given. */
  ghost predicate Assigned(es: seq<Entry>, threads: nat, tasks: seq<Task>, starts: seq<nat>) {
    && |starts| == |es| + 1 && Boundaries(es, threads, starts) && |tasks| == threads
    && (forall i :: 0 <= i < |es| ==> Carried(tasks, threads, es[i], starts[i], starts[i + 1]))
    && (forall j :: 0 < starts[|es|] <= j < 2 * (threads / 2) ==>
                      TaskAt(tasks, threads, j) == TaskAt(tasks, threads, starts[|es|] - 1))
  }

  ghost predicate Block(pool: seq<Task>, e: Entry, lo: nat, hi: nat) {
    hi <= |pool| && forall j :: lo <= j < hi ==> Carries(pool[j], e)
  }

  ghost predicate InBlocks(es: seq<Entry>, pool: seq<Task>, starts: seq<nat>) {
    && |starts| == |es| + 1 && |pool| == starts[|es|]
    && forall i :: 0 <= i < |es| ==> Block(pool, es[i], starts[i], starts[i + 1])
  }

  lemma {:induction false} PoolBlocks(es: seq<Entry>, threads: nat) returns (starts: seq<nat>)
    requires AllKnown(es)
    ensures Boundaries(es, threads, starts) && InBlocks(es, Pool(es, threads), starts)
  {
    starts := [0];
    if es != [] {
      hide Boundaries, InBlocks, Share, SelectWorkload;
      var n := |es| - 1;
      var init := PoolBlocks(es[..n], threads);
      starts := MoreBlocks(es, threads, Pool(es[..n], threads), init);
    }
  }

  lemma MoreBlocks(es: seq<Entry>, threads: nat, pool: seq<Task>, init: seq<nat>) returns (starts: seq<nat>)
    requires es != [] && Known(es[|es| - 1])
    requires Boundaries(es[..|es| - 1], threads, init) && InBlocks(es[..|es| - 1], pool, init)
    ensures Boundaries(es, threads, starts)
    ensures InBlocks(es, pool + Repeat(TaskOf(es[|es| - 1]), Share(es[|es| - 1], threads)), starts)
  {
    hide Share, SelectWorkload;
    var n := |es| - 1;
    ShareRoundsDown(es[n], threads);
    starts := init + [init[n] + Share(es[n], threads)];
    var more := pool + Repeat(TaskOf(es[n]), Share(es[n], threads));
    forall i | 0 <= i < |es| ensures Bounded(es, threads, starts, i) && Block(more, es[i], starts[i], starts[i + 1]) {
      if i < n {
        assert es[..n][i] == es[i] && Bounded(es[..n], threads, init, i) && Block(pool, es[..n][i], init[i], init[i + 1]);
      }
    }
  }

  lemma DealtAt(tasks: seq<Task>, full: seq<Task>, threads: nat, j: nat)
    requires DealtFrom(tasks, full, threads) && j < 2 * (threads / 2)
    ensures TaskAt(tasks, threads, j) == full[j]
  {
    var half := threads / 2;
    if j % 2 == 0 {
      assert tasks[..half][j / 2] == full[2 * (j / 2)];
    } else {
      assert tasks[half..2 * half][j / 2] == full[2 * (j / 2) + 1];
    }
  }

  lemma BlocksAssigned(es: seq<Entry>, threads: nat, pool: seq<Task>, tasks: seq<Task>, starts: seq<nat>)
    requires Boundaries(es, threads, starts) && InBlocks(es, pool, starts) && |tasks| == threads
    requires |Padded(pool, threads)| == threads && DealtFrom(tasks, Padded(pool, threads), threads)
    ensures Assigned(es, threads, tasks, starts)
  {
    hide Boundaries, DealtFrom, SelectWorkload;
    var full := Padded(pool, threads);
    forall j | 0 <= j < 2 * (threads / 2) ensures TaskAt(tasks, threads, j) == full[j] {
      DealtAt(tasks, full, threads, j);
    }
    forall i | 0 <= i < |es| ensures Carried(tasks, threads, es[i], starts[i], starts[i + 1]) {
      assert Block(pool, es[i], starts[i], starts[i + 1]);
    }
  }

  /** Tasks dealt from a pool: even positions to the first node, odd ones to the second. */
  ghost predicate DealtFrom(tasks: seq<Task>, full: seq<Task>, threads: nat) {
    var half := threads / 2;
    && |tasks| == |full| == threads
    && tasks[..half] == Dealt(full, half, 0) && tasks[half..2 * half] == Dealt(full, half, 1)
    && (threads % 2 == 1 ==> tasks[threads - 1] == Task(Shares(0, 0, 0, 0, 0), 0))
    && (threads % 2 == 0 ==> multiset(tasks) == multiset(full))
  }

  /** Padding and interleaving. */
  method Assign(pool: seq<Task>, threads: nat) returns (r: Outcome)
    requires |pool| <= threads
    ensures r == ReadsOutside <==> pool == [] && threads >= 2
    ensures r == ReadsOutside || (r.Tasks? && |r.tasks| == threads)
    ensures r.Tasks? && threads >= 2 ==> DealtFrom(r.tasks, Padded(pool, threads), threads)
  {
    hide DealtFrom;
    var full := pool;
    while |full| < threads && full != []
      invariant pool <= full && (full == [] <==> pool == []) && |full| <= threads
      invariant forall i :: |pool| <= i < |full| ==> full[i] == pool[|pool| - 1]
      decreases threads - |full|
    {
      full := full + [full[|full| - 1]];
    }
    assert full == Padded(pool, threads);
    if threads < 2 {
      return Tasks(Repeat(BLANK, threads));
    }
    if full == [] {
      return ReadsOutside;
    }
    var tasks := Interleave(full, threads);
    return Tasks(tasks);
  }

  method Interleave(full: seq<Task>, threads: nat) returns (tasks: seq<Task>)
    requires |full| == threads
    ensures |tasks| == threads && DealtFrom(tasks, full, threads)
  {
    tasks := Repeat(BLANK, threads);
    var half := threads / 2;
    for i := 0 to half
      invariant |tasks| == threads
      invariant forall k :: 0 <= k < i ==> tasks[k] == full[2 * k] && tasks[k + half] == full[2 * k + 1]
      invariant forall k :: 2 * half <= k < threads ==> tasks[k] == BLANK
    {
      tasks := tasks[i := full[i * 2]][i + half := full[i * 2 + 1]];
    }
    DealtHalves(tasks, full, threads);
  }

  lemma DealtHalves(tasks: seq<Task>, full: seq<Task>, threads: nat)
    requires |tasks| == |full| == threads
    requires forall k :: 0 <= k < threads / 2 ==> tasks[k] == full[2 * k] && tasks[k + threads / 2] == full[2 * k + 1]
    requires threads % 2 == 1 ==> tasks[threads - 1] == Task(Shares(0, 0, 0, 0, 0), 0)
    ensures DealtFrom(tasks, full, threads)
  {
    var half := threads / 2;
    assert tasks[..half] == Dealt(full, half, 0);
    assert tasks[half..2 * half] == Dealt(full, half, 1);
    if threads % 2 == 0 {
      hide Dealt;
      DealPermutes(full, half);
      assert tasks == tasks[..half] + tasks[half..2 * half];
    }
  }

  lemma Extend(es: seq<Entry>, i: nat, threads: nat)
    requires i < |es| && AllKnown(es[..i])
    ensures Total(es[..i + 1]) == Total(es[..i]) + Percent(es[i])
    ensures Known(es[i]) ==>
              && AllKnown(es[..i + 1])
              && Pool(es[..i + 1], threads) == Pool(es[..i], threads) + Repeat(TaskOf(es[i]), Share(es[i], threads))
  {
    assert es[..i + 1][..i] == es[..i];
  }

  /** No entry gets a thread. */
  predicate NoShare(es: seq<Entry>, threads: nat) {
    forall i :: 0 <= i < |es| ==> threads * Percent(es[i]) < 100
  }

  lemma {:induction false} PoolEmpty(es: seq<Entry>, threads: nat)
    requires AllKnown(es)
    ensures Pool(es, threads) == [] <==> NoShare(es, threads)
  {
    hide Share, SelectWorkload;
    if es != [] {
      var init, e := es[..|es| - 1], es[|es| - 1];
      PoolEmpty(init, threads);
      assert forall i :: 0 <= i < |init| ==> init[i] == es[i];
    }
  }

  /** One entry of 40 percent and two threads are enough to read outside the pool. */
  lemma FortyPercentOfTwo(es: seq<Entry>)
    requires es == [Entry("A", Some(50), Some(40))]
    ensures AllKnown(es) && Total(es) <= 100 && NoShare(es, 2)
  {
    assert es[..0] == [];
  }

  lemma AllFine(es: seq<Entry>)
    ensures AllKnown(es) && Total(es) <= 100 ==> forall i: nat :: !ExceedsAt(es, i) && !UnknownAt(es, i)
  {
    if AllKnown(es) && Total(es) <= 100 {
      forall i: nat | i < |es| ensures !ExceedsAt(es, i) && !UnknownAt(es, i) {
        TotalGrows(es, i + 1, |es|);
        assert es[..|es|] == es;
      }
    }
  }

  lemma Nothing(es: seq<Entry>, threads: nat)
    ensures Total(es[..0]) == 0 && Pool(es[..0], threads) == []
    ensures forall k: nat :: k >= |es| ==> !ExceedsAt(es, k) && !UnknownAt(es, k)
  {
  }

  lemma Fine(es: seq<Entry>, i: nat)
    requires i < |es| && AllKnown(es[..i + 1]) && Total(es[..i + 1]) <= 100
    ensures !ExceedsAt(es, i) && !UnknownAt(es, i)
  {
    assert es[..i + 1][i] == es[i];
  }

  /** What is wrong with entry i is never reached again. */
  lemma Decided(es: seq<Entry>, i: nat)
    requires i < |es| && AllKnown(es[..i]) && Total(es[..i]) <= 100
    requires (Legal(es[i]) && Total(es[..i + 1]) > 100) || !Known(es[i])
    ensures forall k: nat :: k > i ==> !ExceedsAt(es, k) && !UnknownAt(es, k)
    ensures ExceedsAt(es, i) <==> Legal(es[i]) && Total(es[..i + 1]) > 100
    ensures UnknownAt(es, i) <==> !Legal(es[i]) || Total(es[..i + 1]) <= 100
    ensures !(AllKnown(es) && Total(es) <= 100)
  {
    TotalGrows(es, i + 1, |es|);
    assert es[..|es|] == es;
    forall k: nat | k > i && k < |es| ensures !ExceedsAt(es, k) && !UnknownAt(es, k) {
      TotalGrows(es, i + 1, k);
      TotalGrows(es, i + 1, k + 1);
      if AllKnown(es[..k]) {
        assert es[..k][i] == es[i];
      }
    }
  }

  lemma {:induction false} TotalGrows(es: seq<Entry>, i: nat, k: nat)
    requires i <= k <= |es|
    ensures Total(es[..i]) <= Total(es[..k])
  {
    if i < k {
      TotalGrows(es, i, k - 1);
      assert es[..k][..k - 1] == es[..k - 1];
    }
  }
}
