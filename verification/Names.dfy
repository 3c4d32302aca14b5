/** Names that are not in use: the allocators pick any of them. */
module Names {
  lemma {:induction false} Above(used: set<int>) returns (o: int)
    ensures o > 0 && forall k :: k in used ==> k < o
    decreases |used|
  {
    o := 1;
    if k :| k in used {
      o := Above(used - {k});
      assert forall j :: j in used ==> j == k || j in used - {k};
      o := if o <= k then k + 1 else o;
    }
  }
}
