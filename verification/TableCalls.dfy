/** Any sequence of calls on the chained table of the word histogram: it behaves as a map. */
module TableCalls {
  import opened UserBucket
  import opened HashTable

  type Counts = map<Text, int>

  datatype Call =
    | Insert(word: Text)
    | InsertCount(word: Text, count: int)
    | UpdateCount(word: Text, count: int)
    | Remove(word: Text)
    | GetCount(word: Text)
    | Exists(word: Text)
    | GetAllKeys

  datatype Reply = Done | Number(n: int) | Flag(b: bool) | Listing(ws: seq<Text>)

  function CountOf(m: Counts, w: Text): int {
    if w in m then m[w] else 0
  }

  function Raised(m: Counts, w: Text, n: int): Counts {
    m[w := CountOf(m, w) + n]
  }

  /** What a call does to the map. */
  function Next(m: Counts, c: Call): Counts {
    match c
    case Insert(w) => Raised(m, w, 1)
    case InsertCount(w, n) => Raised(m, w, n)
    case UpdateCount(w, n) => if w in m then Raised(m, w, n) else m
    case Remove(w) => m - {w}
    case GetCount(_) => m
    case Exists(_) => m
    case GetAllKeys => m
  }

  /** What a call on the map may answer: only the order of the keys is free. */
  predicate Right(m: Counts, c: Call, r: Reply) {
    match c
    case Insert(_) => r == Done
    case InsertCount(_, _) => r == Done
    case UpdateCount(w, _) => r == Flag(w in m)
    case Remove(_) => r == Done
    case GetCount(w) => r == Number(CountOf(m, w))
    case Exists(w) => r == Flag(w in m)
    case GetAllKeys => r.Listing? && NoDup(r.ws) && (set w | w in r.ws) == m.Keys
  }

  function Replay(m: Counts, calls: seq<Call>): Counts {
    if calls == [] then m else Next(Replay(m, calls[..|calls| - 1]), calls[|calls| - 1])
  }

  method Serve(t: WordTable, c: Call) returns (r: Reply)
    requires t.Valid()
    modifies t.table
    ensures t.Valid() && AsMap(t.View()) == Next(old(AsMap(t.View())), c)
    ensures Right(old(AsMap(t.View())), c, r)
  {
    hide Ok, Get, Has, Add, Without, Keys, NoDup;
    ghost var v := t.View();
    r := Done;
    match c
    case Insert(w) =>
      TableIsMap(v, w, 1);
      t.Insert(w);
    case InsertCount(w, n) =>
      TableIsMap(v, w, n);
      t.InsertCount(w, n);
    case UpdateCount(w, n) =>
      TableIsMap(v, w, n);
      var found := t.UpdateCount(w, n);
      r := Flag(found);
    case Remove(w) =>
      TableIsMap(v, w, 0);
      t.Remove(w);
    case GetCount(w) =>
      TableIsMap(v, w, 0);
      var n := t.GetCount(w);
      r := Number(n);
    case Exists(w) =>
      TableIsMap(v, w, 0);
      var b := t.Exists(w);
      r := Flag(b);
    case GetAllKeys =>
      KeysAreTheDomain(v, []);
      var ws := t.GetAllKeys();
      r := Listing(ws);
  }

  /** Any sequence of calls: the table is the map obtained by replaying them, every answer is the map's, and
      each word stays in one node, in the chain of its hash. */
  method ServeAll(t: WordTable, calls: seq<Call>) returns (rs: seq<Reply>)
    requires t.Valid()
    modifies t.table
    ensures t.Valid() && AsMap(t.View()) == Replay(old(AsMap(t.View())), calls)
    ensures |rs| == |calls|
    ensures forall i :: 0 <= i < |calls| ==> Right(Replay(old(AsMap(t.View())), calls[..i]), calls[i], rs[i])
  {
    hide Right, Next, AsMap, Ok;
    ghost var m := AsMap(t.View());
    rs := [];
    for i := 0 to |calls|
      invariant t.Valid() && AsMap(t.View()) == Replay(m, calls[..i]) && |rs| == i
      invariant forall k :: 0 <= k < i ==> Right(Replay(m, calls[..k]), calls[k], rs[k])
    {
      assert calls[..i + 1][..i] == calls[..i];
      var r := Serve(t, calls[i]);
      rs := rs + [r];
    }
    assert calls[..|calls|] == calls;
  }
}
