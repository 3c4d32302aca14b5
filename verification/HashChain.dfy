/** One chain of the word table as linked nodes: the walks with one or two pointers, and the unlinking
    and deletion of a node. */
module HashChain {
  import opened UserBucket
  import opened HashTable

  class HashNode {
    var word: Text
    var count: int
    var next: HashNode?

    constructor (word: Text, count: int, next: HashNode?)
      ensures this.word == word && this.count == count && this.next == next
    {
      this.word, this.count, this.next := word, count, next;
    }
  }

  ghost function After(nodes: seq<HashNode>, i: nat): HashNode? {
    if i < |nodes| then nodes[i] else null
  }

  ghost predicate Distinct(nodes: seq<HashNode>) {
    forall i, j :: 0 <= i < j < |nodes| ==> nodes[i] != nodes[j]
  }

  ghost function SetOf(nodes: seq<HashNode>): set<HashNode> {
    set n | n in nodes
  }

  /** Node i holds entry i and points to the next node. */
  ghost predicate Linked(nodes: seq<HashNode>, es: seq<Entry>, i: nat)
    reads nodes
  {
    i < |nodes| == |es| && Entry(nodes[i].word, nodes[i].count) == es[i] && nodes[i].next == After(nodes, i + 1)
  }

  class HashChain {
    var head: HashNode?
    /** The nodes created and not deleted. */
    var live: set<HashNode>
    ghost var nodes: seq<HashNode>
    ghost var es: seq<Entry>

    /** The nodes spell the entries; none occurs twice, none is leaked. */
    ghost predicate Valid()
      reads this, nodes
    {
      && |nodes| == |es| && head == After(nodes, 0)
      && (forall i :: 0 <= i < |nodes| ==> Linked(nodes, es, i))
      && Distinct(nodes) && live == SetOf(nodes)
    }

    constructor ()
      ensures Valid() && es == []
    {
      head, live, nodes, es := null, {}, [], [];
    }

    /** The walk of `remove`: the first node of the word, and the node before it. */
    method Locate(word: Text) returns (prev: HashNode?, curr: HashNode?, ghost i: nat)
      requires Valid()
      ensures i == Find(es, word) && curr == After(nodes, Find(es, word))
      ensures prev == if Find(es, word) == 0 then null else nodes[Find(es, word) - 1]
    {
      prev, curr, i := null, head, 0;
      while curr != null && curr.word != word
        invariant i <= |nodes| && curr == After(nodes, i) && prev == if i == 0 then null else nodes[i - 1]
        invariant forall j :: 0 <= j < i ==> es[j].word != word
        invariant curr != null ==> Linked(nodes, es, i)
        decreases |nodes| - i
      {
        assert Linked(nodes, es, i);
        prev := curr;
        curr := curr.next;
        i := i + 1;
        assert curr != null ==> Linked(nodes, es, i);
      }
    }

    /** `insert(word, count)`. */
    method Insert(word: Text, count: int)
      requires Valid()
      modifies this, nodes
      ensures Valid() && es == AddedN(old(es), word, count)
    {
      var prev, curr;
      ghost var i;
      prev, curr, i := Locate(word);
      if curr != null {
        Raise(curr, i, count);
      } else {
        Prepend(word, count);
      }
    }

    method Raise(curr: HashNode, ghost i: nat, count: int)
      requires Valid() && i < |nodes| && curr == nodes[i]
      modifies `es, curr
      ensures Valid() && es == old(es)[i := Entry(old(es)[i].word, old(es)[i].count + count)]
    {
      hide Distinct, SetOf;
      ghost var was := es;
      Others(nodes, i);
      curr.count := curr.count + count;
      es := was[i := Entry(was[i].word, was[i].count + count)];
      forall j | 0 <= j < |nodes| ensures Linked(nodes, es, j) {
        assert old(Linked(nodes, was, j));
      }
    }

    method Prepend(word: Text, count: int)
      requires Valid()
      modifies this
      ensures Valid() && es == [Entry(word, count)] + old(es)
    {
      var n := new HashNode(word, count, head);
      head := n;
      live := live + {n};
      ghost var rest, was := nodes, es;
      nodes, es := [n] + rest, [Entry(word, count)] + was;
      forall j | 0 <= j < |nodes| ensures Linked(nodes, es, j) {
        if j > 0 {
          assert Linked(rest, was, j - 1);
          assert nodes[j] == rest[j - 1] && After(nodes, j + 1) == After(rest, j);
        }
      }
      assert SetOf(nodes) == SetOf(rest) + {n};
    }

    /** `remove(word)`. */
    method Remove(word: Text)
      requires Valid()
      modifies this, nodes
      ensures Valid() && es == Dropped(old(es), word)
      ensures live == old(live) - (if Find(old(es), word) < |old(es)| then {old(nodes)[Find(old(es), word)]} else {})
    {
      var prev, curr;
      ghost var i;
      prev, curr, i := Locate(word);
      if curr != null {
        Unlink(prev, curr, i);
      }
    }

    /** The node before it, or the bucket, is made to skip the node, and the node is deleted. */
    method Unlink(prev: HashNode?, curr: HashNode, ghost i: nat)
      requires Valid() && i < |nodes| && curr == nodes[i] && prev == if i == 0 then null else nodes[i - 1]
      modifies this, nodes
      ensures Valid() && es == old(es)[..i] + old(es)[i + 1..] && live == old(live) - {curr}
    {
      hide Distinct, SetOf;
      ghost var was, es0 := nodes, es;
      assert Linked(was, es0, i);
      if prev != null {
        Others(was, i - 1);
        prev.next := curr.next;
      } else {
        head := curr.next;
      }
      live := live - {curr};
      nodes, es := was[..i] + was[i + 1..], es0[..i] + es0[i + 1..];
      Unlinked(was, i, nodes);
      forall j | 0 <= j < |nodes| ensures Linked(nodes, es, j) {
        var k := if j < i then j else j + 1;
        assert old(Linked(was, es0, k)) && old(Linked(was, es0, i));
        assert nodes[j] == was[k] && es[j] == es0[k];
        assert After(nodes, j + 1) == if j + 1 == i then After(was, i + 1) else After(was, k + 1);
      }
    }

    method GetCount(word: Text) returns (c: int)
      requires Valid()
      ensures c == Count(es, word)
    {
      var prev, curr;
      ghost var i;
      prev, curr, i := Locate(word);
      assert curr != null ==> Linked(nodes, es, i);
      return if curr != null then curr.count else 0;
    }
  }

  lemma Others(nodes: seq<HashNode>, i: nat)
    requires Distinct(nodes) && i < |nodes|
    ensures forall j :: 0 <= j < |nodes| && j != i ==> nodes[j] != nodes[i]
  {
  }

  lemma Unlinked(was: seq<HashNode>, i: nat, now: seq<HashNode>)
    requires i < |was| && now == was[..i] + was[i + 1..] && Distinct(was)
    ensures Distinct(now) && SetOf(now) == SetOf(was) - {was[i]}
    ensures forall j :: 0 <= j < |now| ==> now[j] == was[if j < i then j else j + 1]
  {
    forall n | n in was && n != was[i] ensures n in now {
      var j :| 0 <= j < |was| && was[j] == n;
      assert now[if j < i then j else j - 1] == n;
    }
  }
}
