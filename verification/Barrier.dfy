/** The first barrier of the thread programs: its width is the configured number of threads, while half of
    that number, rounded down, is started on each of the two nodes. */
module Barrier {
  datatype Phase = Coming | Waiting | Past

  type State = seq<Phase>

  function Started(threads: nat): nat {
    2 * (threads / 2)
  }

  function Count(s: State): (c: nat)
    ensures c <= |s|
  {
    if s == [] then 0 else Count(s[..|s| - 1]) + (if s[|s| - 1].Waiting? then 1 else 0)
  }

  /** Everybody who waits is let through. */
  function Released(s: State): (r: State)
    ensures |r| == |s| && forall t :: 0 <= t < |s| ==> r[t] == if s[t].Waiting? then Past else s[t]
  {
    seq(|s|, t requires 0 <= t < |s| => if s[t].Waiting? then Past else s[t])
  }

  predicate Enabled(s: State, t: nat) {
    t < |s| && s[t].Coming?
  }

  /** `pthread_barrier_wait` on a barrier of that width: the thread waits, and the one that makes the number
      of waiting threads equal to the width lets all of them through. */
  function Arrive(s: State, width: nat, t: nat): State
    requires Enabled(s, t)
  {
    var s' := s[t := Waiting];
    if Count(s') == width then Released(s') else s'
  }

  ghost predicate Initial(s: State, threads: nat) {
    |s| == Started(threads) && forall t :: 0 <= t < |s| ==> s[t].Coming?
  }

  ghost predicate IsRun(ss: seq<State>, ts: seq<nat>, threads: nat) {
    && |ss| == |ts| + 1 && Initial(ss[0], threads)
    && forall i :: 0 <= i < |ts| ==> Enabled(ss[i], ts[i]) && ss[i + 1] == Arrive(ss[i], threads, ts[i])
  }

  /** Everybody has arrived. */
  ghost predicate Settled(s: State) {
    forall t :: 0 <= t < |s| ==> !s[t].Coming?
  }

  ghost predicate Inv(s: State, threads: nat) {
    && |s| == Started(threads)
    && if forall t :: 0 <= t < |s| ==> s[t].Past? then |s| == 0 || |s| == threads
       else (forall t :: 0 <= t < |s| ==> !s[t].Past?) && Count(s) < threads
  }

  lemma {:induction false} CountAll(s: State)
    ensures Count(s) == |s| <==> forall t :: 0 <= t < |s| ==> s[t].Waiting?
  {
    if s != [] {
      CountAll(s[..|s| - 1]);
      assert forall t :: 0 <= t < |s| - 1 ==> s[..|s| - 1][t] == s[t];
    }
  }

  lemma ArriveKeepsInv(s: State, threads: nat, t: nat)
    requires Inv(s, threads) && Enabled(s, t)
    ensures Inv(Arrive(s, threads, t), threads)
  {
    var s' := s[t := Waiting];
    CountAll(s');
    assert s'[t].Waiting?;
    if Count(s') == threads {
      assert forall u :: 0 <= u < |s'| ==> s'[u].Waiting?;
    } else {
      assert Count(s') < threads;
    }
  }

  lemma StartsInv(s: State, threads: nat)
    requires Initial(s, threads)
    ensures Inv(s, threads)
  {
    CountAll(s);
  }

  lemma {:induction false} RunKeepsInv(ss: seq<State>, ts: seq<nat>, threads: nat, i: nat)
    requires IsRun(ss, ts, threads) && i < |ss|
    ensures Inv(ss[i], threads)
  {
    if i == 0 {
      StartsInv(ss[0], threads);
    } else {
      RunKeepsInv(ss, ts, threads, i - 1);
      ArriveKeepsInv(ss[i - 1], threads, ts[i - 1]);
      assert ss[i] == Arrive(ss[i - 1], threads, ts[i - 1]);
    }
  }

  lemma SettledInv(s: State, threads: nat)
    requires Inv(s, threads) && Settled(s)
    ensures forall t :: 0 <= t < |s| ==> s[t] == if threads % 2 == 0 then Past else Waiting
  {
    CountAll(s);
    assert |s| == threads <==> threads % 2 == 0;
  }

  /** Whatever the order of arrival: no thread ever passes if the number of threads is odd; once all have
      arrived, all have passed if it is even, and all wait for ever if it is odd. */
  lemma PassesExactlyWhenEven(ss: seq<State>, ts: seq<nat>, threads: nat, i: nat, t: nat)
    requires IsRun(ss, ts, threads) && i < |ss| && t < Started(threads)
    ensures |ss[i]| == Started(threads) && (ss[i][t].Past? ==> threads % 2 == 0)
    ensures Settled(ss[i]) ==> ss[i][t] == if threads % 2 == 0 then Past else Waiting
  {
    RunKeepsInv(ss, ts, threads, i);
    if Settled(ss[i]) {
      SettledInv(ss[i], threads);
    }
  }

  /** All started threads arrive, in any order. */
  method Meet(threads: nat) returns (s: State)
    ensures |s| == Started(threads)
    ensures forall t :: 0 <= t < |s| ==> s[t] == if threads % 2 == 0 then Past else Waiting
  {
    s := seq(Started(threads), _ => Coming);
    StartsInv(s, threads);
    var todo: set<int> := set t | 0 <= t < |s| && s[t].Coming?;
    while exists t :: t in todo
      invariant Inv(s, threads)
      invariant forall t :: t in todo <==> 0 <= t < |s| && s[t].Coming?
      decreases |todo|
    {
      var t :| t in todo;
      ArriveKeepsInv(s, threads, t);
      s := Arrive(s, threads, t);
      todo := todo - {t};
    }
    SettledInv(s, threads);
  }
}
