/** The Stack the user wrote, in ordinary memory, and the sequences of calls that both it and the
    generated class answer. */
module UserStack {

  datatype Call = Push(v: int) | Pop | IsEmpty | Print
  datatype Reply = Done | Value(v: int) | Flag(b: bool) | Listing(vs: seq<int>)

  /** A stack as the list of its values, top first. */
  function Next(vals: seq<int>, c: Call): seq<int> {
    match c
    case Push(v) => [v] + vals
    case Pop => if vals == [] then [] else vals[1..]
    case IsEmpty => vals
    case Print => vals
  }

  function Answer(vals: seq<int>, c: Call): Reply {
    match c
    case Push(_) => Done
    case Pop => Value(if vals == [] then 0 else vals[0])
    case IsEmpty => Flag(vals == [])
    case Print => Listing(vals)
  }

  function Replay(vals: seq<int>, calls: seq<Call>): seq<int> {
    if calls == [] then vals else Next(Replay(vals, calls[..|calls| - 1]), calls[|calls| - 1])
  }

  function Answers(vals: seq<int>, calls: seq<Call>): seq<Reply> {
    if calls == [] then []
    else
      var init := calls[..|calls| - 1];
      Answers(vals, init) + [Answer(Replay(vals, init), calls[|calls| - 1])]
  }

  lemma ReplayMore(vals: seq<int>, calls: seq<Call>, i: nat)
    requires i < |calls|
    ensures Replay(vals, calls[..i + 1]) == Next(Replay(vals, calls[..i]), calls[i])
    ensures Answers(vals, calls[..i + 1]) == Answers(vals, calls[..i]) + [Answer(Replay(vals, calls[..i]), calls[i])]
  {
    assert calls[..i + 1][..i] == calls[..i];
  }

  /** Last in, first out; an empty stack answers 0. */
  lemma PopUndoesPush(vals: seq<int>, v: int)
    ensures Next(Next(vals, Push(v)), Pop) == vals && Answer(Next(vals, Push(v)), Pop) == Value(v)
    ensures Next([], Pop) == [] && Answer([], Pop) == Value(0)
    ensures Answer(Next(vals, Push(v)), IsEmpty) == Flag(false) && Answer([], IsEmpty) == Flag(true)
  {
  }

  lemma {:induction false} ReplayConcat(vals: seq<int>, a: seq<Call>, b: seq<Call>)
    ensures Replay(vals, a + b) == Replay(Replay(vals, a), b)
    decreases |b|
  {
    if b == [] {
      assert a + b == a;
    } else {
      assert (a + b)[..|a + b| - 1] == a + b[..|b| - 1];
      ReplayConcat(vals, a, b[..|b| - 1]);
    }
  }

  class Node {
    var value: int
    var next: Node?

    constructor (v: int)
      ensures value == v && next == null
    {
      value, next := v, null;
    }
  }

  ghost function Follow(nodes: seq<Node>, i: nat): Node? {
    if i < |nodes| then nodes[i] else null
  }

  lemma PopNodes(nodes: seq<Node>)
    requires nodes != [] && forall i, j :: 0 <= i < j < |nodes| ==> nodes[i] != nodes[j]
    ensures forall n :: n in nodes[1..] <==> n in nodes && n != nodes[0]
  {
    forall n | n in nodes && n != nodes[0] ensures n in nodes[1..] {
      var i :| 0 <= i < |nodes| && nodes[i] == n;
      assert nodes[1..][i - 1] == n;
    }
  }

  class Stack {
    var top: Node?
    var size: int
    /** The nodes created and not deleted. */
    var live: set<Node>
    ghost var nodes: seq<Node>
    ghost var vals: seq<int>

    /** The chain is acyclic, spells the values, and no node is leaked. */
    ghost predicate Valid()
      reads this, nodes
    {
      && |nodes| == |vals| == size
      && top == Follow(nodes, 0)
      && (forall i :: 0 <= i < |nodes| ==> nodes[i].value == vals[i] && nodes[i].next == Follow(nodes, i + 1))
      && (forall i, j :: 0 <= i < j < |nodes| ==> nodes[i] != nodes[j])
      && live == (set n | n in nodes)
    }

    constructor ()
      ensures Valid() && vals == []
    {
      top, size, live := null, 0, {};
      nodes, vals := [], [];
    }

    method Push(v: int)
      requires Valid()
      modifies this
      ensures Valid() && vals == Next(old(vals), Call.Push(v))
    {
      var n := new Node(v);
      live := live + {n};
      n.next := top;
      top := n;
      size := size + 1;
      ghost var rest := nodes;
      nodes, vals := [n] + rest, [v] + vals;
      forall i | 0 <= i < |nodes| ensures nodes[i].value == vals[i] && nodes[i].next == Follow(nodes, i + 1) {
        if i > 0 {
          assert nodes[i] == rest[i - 1] && Follow(nodes, i + 1) == Follow(rest, i);
        }
      }
    }

    method Pop() returns (v: int)
      requires Valid()
      modifies this
      ensures Valid() && vals == Next(old(vals), Call.Pop)
      ensures Value(v) == Answer(old(vals), Call.Pop)
    {
      if top == null {
        return 0;
      }
      var old' := top;
      v := old'.value;
      top := old'.next;
      size := size - 1;
      live := live - {old'};
      PopNodes(nodes);
      nodes, vals := nodes[1..], vals[1..];
    }

    method IsEmpty() returns (b: bool)
      requires Valid()
      ensures Flag(b) == Answer(vals, Call.IsEmpty)
    {
      return size == 0;
    }

    method Print() returns (out: seq<int>)
      requires Valid()
      ensures Listing(out) == Answer(vals, Call.Print)
    {
      var cur := top;
      out := [];
      ghost var i := 0;
      while cur != null
        invariant 0 <= i <= |nodes| && cur == Follow(nodes, i)
        invariant out == vals[..i]
        decreases |nodes| - i
      {
        out := out + [cur.value];
        cur := cur.next;
        i := i + 1;
      }
    }

    method Serve(c: Call) returns (r: Reply)
      requires Valid()
      modifies this
      ensures Valid() && vals == Next(old(vals), c) && r == Answer(old(vals), c)
    {
      match c
      case Push(v) => Push(v); r := Done;
      case Pop => var v := Pop(); r := Value(v);
      case IsEmpty => var b := IsEmpty(); r := Flag(b);
      case Print => var out := Print(); r := Listing(out);
    }

    /** Any sequence of calls. */
    method ServeAll(calls: seq<Call>) returns (rs: seq<Reply>)
      requires Valid()
      modifies this
      ensures Valid() && vals == Replay(old(vals), calls) && rs == Answers(old(vals), calls)
    {
      rs := [];
      for i := 0 to |calls|
        invariant Valid() && vals == Replay(old(vals), calls[..i]) && rs == Answers(old(vals), calls[..i])
      {
        ReplayMore(old(vals), calls, i);
        var r := Serve(calls[i]);
        rs := rs + [r];
      }
      assert calls[..|calls|] == calls;
    }
  }
}
