/** How a process that serves calls on a pool ends, and what its end may leave. */
module Crashes {
  /** The process dies while it opens the pool, or during call k, or not at all before its last call has
      returned; `point` picks the image that is left. */
  datatype Crash = InOpen(point: nat) | InCall(k: nat, point: nat) | Never

  /** Of n calls, those that have returned to their caller. */
  function Returned(crash: Crash, n: nat): (k: nat)
    ensures k <= n
  {
    match crash
    case InOpen(_) => 0
    case InCall(k, _) => if k < n then k else n
    case Never => n
  }

  /** Of n calls, `seen` survive: those that have returned, and the interrupted one wholly or not at all. */
  predicate Survive(crash: Crash, n: nat, seen: nat) {
    var k := Returned(crash, n);
    k <= seen <= n && (seen > k ==> seen == k + 1 && crash.InCall?)
  }

  lemma SurviveBound(crash: Crash, n: nat, seen: nat)
    requires Survive(crash, n, seen)
    ensures seen <= n
  {
  }
}
