/** The Bucket the user wrote: a linked list of words with counts, newest word first. */
module UserBucket {

  type Text = seq<int>
  datatype Entry = Entry(word: Text, count: int)

  /** The first entry of the word, or |es|. */
  function Find(es: seq<Entry>, w: Text): (i: nat)
    ensures i <= |es|
    ensures i < |es| ==> es[i].word == w
    ensures forall j :: 0 <= j < i ==> es[j].word != w
  {
    if es == [] || es[0].word == w then 0 else 1 + Find(es[1..], w)
  }

  function Added(es: seq<Entry>, w: Text): seq<Entry> {
    var i := Find(es, w);
    if i < |es| then es[i := Entry(w, es[i].count + 1)] else [Entry(w, 1)] + es
  }

  function Count(es: seq<Entry>, w: Text): int {
    var i := Find(es, w);
    if i < |es| then es[i].count else 0
  }

  function AddedAll(es: seq<Entry>, ws: seq<Text>): seq<Entry> {
    if ws == [] then es else Added(AddedAll(es, ws[..|ws| - 1]), ws[|ws| - 1])
  }

  function Occurrences(ws: seq<Text>, w: Text): nat {
    if ws == [] then 0 else Occurrences(ws[..|ws| - 1], w) + (if ws[|ws| - 1] == w then 1 else 0)
  }

  /** Occurrences are multiplicity. */
  lemma {:induction false} OccurrencesCount(ws: seq<Text>, w: Text)
    ensures Occurrences(ws, w) == multiset(ws)[w]
  {
    if ws != [] {
      OccurrencesCount(ws[..|ws| - 1], w);
      assert ws == ws[..|ws| - 1] + [ws[|ws| - 1]];
    }
  }

  predicate Unique(es: seq<Entry>) {
    forall i, j :: 0 <= i < j < |es| ==> es[i].word != es[j].word
  }

  lemma FindUnique(es: seq<Entry>, w: Text, i: nat)
    requires Unique(es) && i < |es| && es[i].word == w
    ensures Find(es, w) == i
  {
  }

  lemma AddedCounts(es: seq<Entry>, v: Text, w: Text)
    requires Unique(es)
    ensures Unique(Added(es, v))
    ensures Count(Added(es, v), w) == Count(es, w) + (if v == w then 1 else 0)
  {
    var k, es' := Find(es, v), Added(es, v);
    var i := Find(es, w);
    if k < |es| {
      assert forall j :: 0 <= j < |es| ==> es'[j].word == es[j].word;
      if i < |es| {
        FindUnique(es', w, i);
      } else {
        assert Find(es', w) == |es'|;
      }
    } else if v == w {
      FindUnique(es', w, 0);
    } else if i < |es| {
      assert es'[i + 1] == es[i];
      FindUnique(es', w, i + 1);
    } else {
      forall j | 0 <= j < |es'| ensures es'[j].word != w {
        assert j > 0 ==> es'[j] == es[j - 1];
      }
    }
  }

  /** Whatever the calls, each word has one entry and its count is the number of its insertions. */
  lemma {:induction false} CountsOccurrences(ws: seq<Text>, w: Text)
    ensures Unique(AddedAll([], ws))
    ensures Count(AddedAll([], ws), w) == Occurrences(ws, w)
    decreases |ws|
  {
    if ws != [] {
      CountsOccurrences(ws[..|ws| - 1], w);
      AddedCounts(AddedAll([], ws[..|ws| - 1]), ws[|ws| - 1], w);
    }
  }

  lemma AddedAllMore(es: seq<Entry>, ws: seq<Text>, i: nat)
    requires i < |ws|
    ensures AddedAll(es, ws[..i + 1]) == Added(AddedAll(es, ws[..i]), ws[i])
  {
    assert ws[..i + 1][..i] == ws[..i];
  }

  datatype Call = Insert(word: Text) | GetCount(word: Text)

  function Next(es: seq<Entry>, c: Call): seq<Entry> {
    if c.Insert? then Added(es, c.word) else es
  }

  function Replay(es: seq<Entry>, calls: seq<Call>): seq<Entry> {
    if calls == [] then es else Next(Replay(es, calls[..|calls| - 1]), calls[|calls| - 1])
  }

  /** The answers of the getCount calls, in order. */
  function Answers(es: seq<Entry>, calls: seq<Call>): seq<int> {
    if calls == [] then []
    else
      var init, c := calls[..|calls| - 1], calls[|calls| - 1];
      if c.Insert? then Answers(es, init) else Answers(es, init) + [Count(Replay(es, init), c.word)]
  }

  /** The words that the calls insert. */
  function Inserted(calls: seq<Call>): seq<Text> {
    if calls == [] then []
    else
      var init, c := calls[..|calls| - 1], calls[|calls| - 1];
      if c.Insert? then Inserted(init) + [c.word] else Inserted(init)
  }

  lemma {:induction false} ReplayInserts(calls: seq<Call>)
    ensures Replay([], calls) == AddedAll([], Inserted(calls))
    decreases |calls|
  {
    if calls != [] {
      var init, c := calls[..|calls| - 1], calls[|calls| - 1];
      ReplayInserts(init);
      if c.Insert? {
        var ws := Inserted(init) + [c.word];
        assert ws[..|ws| - 1] == Inserted(init);
      }
    }
  }

  /** Every count ever answered is the number of insertions of that word so far. */
  lemma CountIsOccurrences(calls: seq<Call>, w: Text)
    ensures Count(Replay([], calls), w) == Occurrences(Inserted(calls), w)
  {
    ReplayInserts(calls);
    CountsOccurrences(Inserted(calls), w);
  }

  lemma ReplayMore(es: seq<Entry>, calls: seq<Call>, i: nat)
    requires i < |calls|
    ensures Replay(es, calls[..i + 1]) == Next(Replay(es, calls[..i]), calls[i])
    ensures Answers(es, calls[..i + 1]) ==
            if calls[i].Insert? then Answers(es, calls[..i])
            else Answers(es, calls[..i]) + [Count(Replay(es, calls[..i]), calls[i].word)]
  {
    assert calls[..i + 1][..i] == calls[..i];
  }

  lemma {:induction false} ReplayConcat(es: seq<Entry>, a: seq<Call>, b: seq<Call>)
    ensures Replay(es, a + b) == Replay(Replay(es, a), b)
    decreases |b|
  {
    if b == [] {
      assert a + b == a;
    } else {
      assert (a + b)[..|a + b| - 1] == a + b[..|b| - 1];
      ReplayConcat(es, a, b[..|b| - 1]);
    }
  }

  class Node {
    var key: Text
    var count: int
    var next: Node?

    constructor (word: Text)
      ensures key == word && count == 1 && next == null
    {
      key, count, next := word, 1, null;
    }
  }

  ghost function Follow(nodes: seq<Node>, i: nat): Node? {
    if i < |nodes| then nodes[i] else null
  }

  class Bucket {
    var head: Node?
    var size: int
    ghost var nodes: seq<Node>
    ghost var es: seq<Entry>

    ghost predicate Valid()
      reads this, nodes
    {
      && |nodes| == |es| == size
      && head == Follow(nodes, 0)
      && (forall i :: 0 <= i < |nodes| ==>
                        Entry(nodes[i].key, nodes[i].count) == es[i] && nodes[i].next == Follow(nodes, i + 1))
      && (forall i, j :: 0 <= i < j < |nodes| ==> nodes[i] != nodes[j])
    }

    constructor ()
      ensures Valid() && es == [] && nodes == []
    {
      head, size := null, 0;
      nodes, es := [], [];
    }

    /** The walk shared by both methods: the first node of the word. */
    method Locate(word: Text) returns (cur: Node?, ghost i: nat)
      requires Valid()
      ensures i == Find(es, word) && cur == Follow(nodes, i)
    {
      cur := head;
      i := 0;
      while cur != null
        invariant i <= |nodes| && cur == Follow(nodes, i)
        invariant forall j :: 0 <= j < i ==> es[j].word != word
        decreases |nodes| - i
      {
        if cur.key == word {
          return;
        }
        cur := cur.next;
        i := i + 1;
      }
    }

    method Insert(word: Text)
      requires Valid()
      modifies this, nodes
      ensures Valid() && es == Added(old(es), word)
      ensures fresh(set n | n in nodes && n !in old(nodes))
    {
      hide Find;
      ghost var i;
      var cur;
      cur, i := Locate(word);
      if cur != null {
        Bump(cur, i);
        return;
      }
      Prepend(word);
    }

    /** `cur->count++`. */
    method Bump(cur: Node, ghost i: nat)
      requires Valid() && i < |nodes| && cur == nodes[i]
      modifies `es, cur
      ensures Valid() && es == old(es)[i := Entry(old(es)[i].word, old(es)[i].count + 1)]
    {
      cur.count := cur.count + 1;
      es := es[i := Entry(es[i].word, es[i].count + 1)];
    }

    /** The insertion of a new word at the head. */
    method Prepend(word: Text)
      requires Valid()
      modifies this
      ensures Valid() && es == [Entry(word, 1)] + old(es)
      ensures fresh(set n | n in nodes && n !in old(nodes))
    {
      var n := new Node(word);
      n.next := head;
      head := n;
      size := size + 1;
      ghost var rest := nodes;
      nodes, es := [n] + rest, [Entry(word, 1)] + es;
      forall j | 0 <= j < |nodes|
        ensures Entry(nodes[j].key, nodes[j].count) == es[j] && nodes[j].next == Follow(nodes, j + 1)
      {
        if j > 0 {
          assert nodes[j] == rest[j - 1] && Follow(nodes, j + 1) == Follow(rest, j);
        }
      }
    }

    method GetCount(word: Text) returns (c: int)
      requires Valid()
      ensures c == Count(es, word)
    {
      ghost var i;
      var cur;
      cur, i := Locate(word);
      return if cur != null then cur.count else 0;
    }

    /** Any sequence of insertions. */
    method InsertEach(ws: seq<Text>)
      requires Valid()
      modifies this, nodes
      ensures Valid() && es == AddedAll(old(es), ws)
    {
      for i := 0 to |ws|
        invariant Valid() && es == AddedAll(old(es), ws[..i])
        invariant fresh(set n | n in nodes && n !in old(nodes))
      {
        AddedAllMore(old(es), ws, i);
        Insert(ws[i]);
      }
      assert ws[..|ws|] == ws;
    }

    method Serve(c: Call) returns (r: int)
      requires Valid()
      modifies this, nodes
      ensures Valid() && es == Next(old(es), c)
      ensures c.GetCount? ==> r == Count(old(es), c.word)
      ensures fresh(set n | n in nodes && n !in old(nodes))
    {
      r := 0;
      match c
      case Insert(word) => Insert(word);
      case GetCount(word) => r := GetCount(word);
    }

    /** Any sequence of calls. */
    method ServeAll(calls: seq<Call>) returns (rs: seq<int>)
      requires Valid()
      modifies this, nodes
      ensures Valid() && es == Replay(old(es), calls) && rs == Answers(old(es), calls)
    {
      rs := [];
      for i := 0 to |calls|
        invariant Valid() && es == Replay(old(es), calls[..i]) && rs == Answers(old(es), calls[..i])
        invariant fresh(set n | n in nodes && n !in old(nodes))
      {
        ReplayMore(old(es), calls, i);
        var r := Serve(calls[i]);
        if calls[i].GetCount? {
          rs := rs + [r];
        }
      }
      assert calls[..|calls|] == calls;
    }
  }
}
