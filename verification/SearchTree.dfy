/** The plain binary search tree of the data-structure benchmark: nodes on the heap, and the tree of
    keys that they spell. */
module SearchTree {
  class BinaryNode {
    var data: int
    var left: BinaryNode?
    var right: BinaryNode?

    constructor (data: int)
      ensures this.data == data && left == null && right == null
    {
      this.data, left, right := data, null, null;
    }
  }

  /** A tree of keys, each with the node that holds it. */
  datatype Tree = Leaf | Branch(at: BinaryNode, left: Tree, key: int, right: Tree)

  ghost function Nodes(t: Tree): set<BinaryNode> {
    if t.Leaf? then {} else Nodes(t.left) + {t.at} + Nodes(t.right)
  }

  /** The nodes reachable from `n` are the tree `t`: no node occurs twice. */
  ghost predicate Spells(n: BinaryNode?, t: Tree)
    reads Nodes(t)
  {
    if t.Leaf? then n == null
    else
      && n == t.at && n.data == t.key
      && Spells(n.left, t.left) && Spells(n.right, t.right)
      && n !in Nodes(t.left) && n !in Nodes(t.right) && Nodes(t.left) !! Nodes(t.right)
  }

  ghost function Keys(t: Tree): set<int> {
    if t.Leaf? then {} else Keys(t.left) + {t.key} + Keys(t.right)
  }

  ghost predicate Ordered(t: Tree) {
    t.Branch? ==>
      && Ordered(t.left) && Ordered(t.right)
      && (forall k :: k in Keys(t.left) ==> k < t.key)
      && (forall k :: k in Keys(t.right) ==> t.key < k)
  }

  /** The key sits `d` links below the root, on whatever side. */
  ghost predicate AtDepth(t: Tree, k: int, d: nat) {
    t.Branch? && if d == 0 then t.key == k else AtDepth(t.left, k, d - 1) || AtDepth(t.right, k, d - 1)
  }

  function Depth(t: Tree): nat {
    if t.Leaf? then 0
    else
      var l, r := Depth(t.left), Depth(t.right);
      (if l < r then r else l) + 1
  }

  /** The depth is one more than the depth of the deepest key. */
  lemma {:induction false} DepthIsDeepest(t: Tree) returns (k: int)
    ensures forall j: int, d: nat :: AtDepth(t, j, d) ==> d < Depth(t) && j in Keys(t)
    ensures t.Branch? ==> AtDepth(t, k, Depth(t) - 1)
  {
    k := 0;
    if t.Branch? {
      var l := DepthIsDeepest(t.left);
      var r := DepthIsDeepest(t.right);
      k := if t.left.Leaf? && t.right.Leaf? then t.key else if Depth(t.left) < Depth(t.right) then r else l;
    }
  }

  /** The way of the search for `k`: the side it takes at a branch. */
  function Towards(t: Tree, k: int): Tree
    requires t.Branch?
  {
    if k < t.key then t.left else t.right
  }

  /** The links that the search for `k` follows. */
  function Steps(t: Tree, k: int): nat {
    if t.Leaf? || t.key == k then 0 else 1 + Steps(Towards(t, k), k)
  }

  /** The search meets `k`. */
  predicate Found(t: Tree, k: int) {
    t.Branch? && (t.key == k || Found(Towards(t, k), k))
  }

  lemma {:induction false} SearchIsExact(t: Tree, k: int)
    requires Ordered(t)
    ensures Found(t, k) <==> k in Keys(t)
    ensures Steps(t, k) <= Depth(t) && (k in Keys(t) ==> AtDepth(t, k, Steps(t, k)) && Steps(t, k) < Depth(t))
  {
    if t.Branch? {
      SearchIsExact(t.left, k);
      SearchIsExact(t.right, k);
    }
  }

  /** The node whose missing child ends an unsuccessful search. */
  function LastMet(t: Tree, k: int): BinaryNode
    requires t.Branch?
  {
    if t.key == k || Towards(t, k).Leaf? then t.at else LastMet(Towards(t, k), k)
  }

  /** The tree with a new leaf for `k`. */
  function Grown(t: Tree, k: int, leaf: BinaryNode): Tree {
    if t.Leaf? then Branch(leaf, Leaf, k, Leaf)
    else if k < t.key then t.(left := Grown(t.left, k, leaf))
    else t.(right := Grown(t.right, k, leaf))
  }

  lemma {:induction false} GrownAddsTheKey(t: Tree, k: int, leaf: BinaryNode)
    requires Ordered(t) && k !in Keys(t)
    ensures Ordered(Grown(t, k, leaf)) && Keys(Grown(t, k, leaf)) == Keys(t) + {k}
    ensures AtDepth(Grown(t, k, leaf), k, Steps(t, k))
    ensures Nodes(Grown(t, k, leaf)) == Nodes(t) + {leaf}
  {
    if t.Branch? {
      GrownAddsTheKey(Towards(t, k), k, leaf);
    }
  }

  /** The heap would spell `t` if the fields of `p` had the given values. */
  ghost predicate WouldSpell(n: BinaryNode?, t: Tree, p: BinaryNode, data: int, left: BinaryNode?, right: BinaryNode?)
    reads Nodes(t) - {p}
  {
    if t.Leaf? then n == null
    else
      && n == t.at
      && (if n == p then data else n.data) == t.key
      && WouldSpell(if n == p then left else n.left, t.left, p, data, left, right)
      && WouldSpell(if n == p then right else n.right, t.right, p, data, left, right)
      && n !in Nodes(t.left) && n !in Nodes(t.right) && Nodes(t.left) !! Nodes(t.right)
  }

  lemma {:induction false} WouldIfHas(n: BinaryNode?, t: Tree, p: BinaryNode)
    ensures WouldSpell(n, t, p, p.data, p.left, p.right) <==> Spells(n, t)
  {
    if t.Branch? && n == t.at {
      WouldIfHas(n.left, t.left, p);
      WouldIfHas(n.right, t.right, p);
    }
  }

  /** The fields of a node elsewhere do not matter. */
  lemma {:induction false} WouldElsewhere(n: BinaryNode?, t: Tree, p: BinaryNode, data: int, left: BinaryNode?, right: BinaryNode?)
    requires Spells(n, t) && p !in Nodes(t)
    ensures WouldSpell(n, t, p, data, left, right)
  {
    if t.Branch? {
      WouldElsewhere(n.left, t.left, p, data, left, right);
      WouldElsewhere(n.right, t.right, p, data, left, right);
    }
  }

  /** With the leaf below the last node met, the heap would spell the grown tree. */
  lemma {:induction false} Hung(n: BinaryNode, t: Tree, k: int, leaf: BinaryNode, p: BinaryNode)
    requires t.Branch? && Spells(n, t) && !Found(t, k) && p == LastMet(t, k)
    requires leaf !in Nodes(t) && leaf.data == k && leaf.left == leaf.right == null
    ensures WouldSpell(n, Grown(t, k, leaf), p, p.data, if k < p.data then leaf else p.left, if k < p.data then p.right else leaf)
    ensures Nodes(Grown(t, k, leaf)) == Nodes(t) + {leaf}
  {
    MetIsANode(t, k);
    var l, r := if k < p.data then leaf else p.left, if k < p.data then p.right else leaf;
    var u := Towards(t, k);
    if u.Branch? {
      Hung(u.at, u, k, leaf, p);
    } else {
      WouldElsewhere(leaf, Branch(leaf, Leaf, k, Leaf), p, p.data, l, r);
    }
    if k < t.key {
      WouldElsewhere(n.right, t.right, p, p.data, l, r);
    } else {
      WouldElsewhere(n.left, t.left, p, p.data, l, r);
    }
  }

  lemma FirstLeaf(t: Tree, k: int, leaf: BinaryNode)
    requires leaf.data == k && leaf.left == leaf.right == null && t == Leaf
    ensures Spells(leaf, Grown(t, k, leaf)) && Steps(t, k) == 0
  {
  }

  lemma {:induction false} MetIsANode(t: Tree, k: int)
    requires t.Branch?
    ensures LastMet(t, k) in Nodes(t)
    ensures !Found(t, k) && Towards(t, k).Branch? ==> LastMet(t, k) in Nodes(Towards(t, k))
  {
    if Towards(t, k).Branch? {
      MetIsANode(Towards(t, k), k);
    }
  }

  /** The search ends at a node with two children. */
  predicate Crowded(t: Tree, k: int) {
    t.Branch? && if t.key == k then t.left.Branch? && t.right.Branch? else Crowded(Towards(t, k), k)
  }

  ghost predicate Subtree(t: Tree, u: Tree) {
    t == u || (t.Branch? && (Subtree(t.left, u) || Subtree(t.right, u)))
  }

  lemma {:induction false} SubtreeKey(t: Tree, u: Tree)
    requires Subtree(t, u) && u.Branch?
    ensures u.key in Keys(t)
  {
    if t != u {
      if Subtree(t.left, u) {
        SubtreeKey(t.left, u);
      } else {
        SubtreeKey(t.right, u);
      }
    }
  }

  /** In an ordered tree that is: the node of `k` has two children. */
  lemma {:induction false} CrowdedMeans(t: Tree, k: int)
    requires Ordered(t)
    ensures Crowded(t, k) <==> exists u :: Subtree(t, u) && u.Branch? && u.key == k && u.left.Branch? && u.right.Branch?
  {
    if t.Branch? {
      CrowdedMeans(Towards(t, k), k);
      if Crowded(t, k) {
        if t.key == k {
          assert Subtree(t, t);
        } else {
          var u :| Subtree(Towards(t, k), u) && u.Branch? && u.key == k && u.left.Branch? && u.right.Branch?;
          assert Subtree(t, u);
        }
      }
      forall u | Subtree(t, u) && u.Branch? && u.key == k && u.left.Branch? && u.right.Branch? ensures Crowded(t, k) {
        OnTheWay(t, u);
      }
    }
  }

  lemma OnTheWay(t: Tree, u: Tree)
    requires Ordered(t) && t.Branch? && Subtree(t, u) && u.Branch?
    ensures if t.key == u.key then t == u else Subtree(Towards(t, u.key), u)
  {
    if t != u {
      if Subtree(t.left, u) {
        SubtreeKey(t.left, u);
      } else {
        SubtreeKey(t.right, u);
      }
    }
  }

  /** The tree without the node of `k`, whose only child takes its place. */
  function Cut(t: Tree, k: int): Tree {
    if t.Leaf? then t
    else if k < t.key then t.(left := Cut(t.left, k))
    else if k > t.key then t.(right := Cut(t.right, k))
    else if t.left.Leaf? then t.right else t.left
  }

  lemma {:induction false} CutTakesTheKey(t: Tree, k: int)
    requires Ordered(t) && !Crowded(t, k)
    ensures Ordered(Cut(t, k)) && Keys(Cut(t, k)) == Keys(t) - {k}
  {
    if t.Branch? && t.key != k {
      CutTakesTheKey(Towards(t, k), k);
    }
  }

  lemma {:induction false} CutNodes(t: Tree, k: int)
    requires !Crowded(t, k)
    ensures Nodes(Cut(t, k)) <= Nodes(t) && (!Found(t, k) ==> Cut(t, k) == t)
  {
    if t.Branch? && t.key != k {
      CutNodes(Towards(t, k), k);
    }
  }

  function Leftmost(t: Tree): BinaryNode
    requires t.Branch?
  {
    if t.left.Leaf? then t.at else Leftmost(t.left)
  }

  /** The node at which the search meets `k`. */
  function Holder(t: Tree, k: int): BinaryNode
    requires Found(t, k)
  {
    if t.key == k then t.at else Holder(Towards(t, k), k)
  }

  lemma {:induction false} Allocated(n: BinaryNode?, t: Tree)
    requires Spells(n, t)
    ensures forall o: BinaryNode :: o in Nodes(t) ==> allocated(o)
  {
    if t.Branch? {
      Allocated(n.left, t.left);
      Allocated(n.right, t.right);
    }
  }

  /** What `remove` leaves. */
  function Removed(t: Tree, k: int): Tree {
    if t.Branch? && t.key == k then Leaf else t
  }

  /** `remove` takes out exactly the key when the key is absent or alone in the tree, and only then. */
  lemma RemovesExactly(t: Tree, k: int)
    requires Ordered(t)
    ensures Keys(Removed(t, k)) == Keys(t) - {k} <==> k !in Keys(t) || Keys(t) == {k}
  {
    if t.Branch? && t.key == k && Keys(t) != {k} {
      var j :| j in Keys(t) && j != k;
      assert j in Keys(t) - {k} && Keys(Leaf) == {};
    }
  }

  /** Two keys are enough: removing the lower one does nothing, removing the upper one drops both. */
  lemma RemoveMisses(a: BinaryNode, b: BinaryNode, t: Tree)
    requires t == Grown(Grown(Leaf, 2, a), 1, b)
    ensures Ordered(t) && Keys(t) == {1, 2}
    ensures Keys(Removed(t, 1)) == {1, 2} && Keys(Removed(t, 2)) == {}
  {
    assert t == Branch(a, Branch(b, Leaf, 1, Leaf), 2, Leaf);
  }

  /** How `deleteHelper` ends.  At a node with two children it deletes the node, and then writes to it
      and returns it. */
  datatype Fate = NotFound | Spliced | UsesDeletedNode

  class BinarySearchTree {
    var root: BinaryNode?
    /** The nodes created and not deleted. */
    var live: set<BinaryNode>
    ghost var tree: Tree

    ghost predicate Valid()
      reads this, Nodes(tree)
    {
      Spells(root, tree) && Ordered(tree) && Nodes(tree) <= live
    }

    constructor ()
      ensures Valid() && tree == Leaf && live == {}
    {
      root, live, tree := null, {}, Leaf;
    }

    method Insert(data: int) returns (level: nat)
      requires Valid()
      modifies this, Nodes(tree)
      ensures Valid() && Keys(tree) == old(Keys(tree)) + {data} && AtDepth(tree, data, level)
      ensures data in old(Keys(tree)) ==> tree == old(tree) && root == old(root) && live == old(live)
      ensures data !in old(Keys(tree)) ==>
                exists leaf: BinaryNode :: fresh(leaf) && live == old(live) + {leaf} && tree == Grown(old(tree), data, leaf)
      ensures fresh(Nodes(tree) - old(Nodes(tree)))
      ensures root != null && (old(root) != null ==> root == old(root))
    {
      hide Ordered, Grown, Keys, Steps, AtDepth, Found, LastMet;
      SearchIsExact(tree, data);
      var leaf := new BinaryNode(data);
      if root == null {
        FirstLeaf(tree, data, leaf);
        GrownAddsTheKey(tree, data, leaf);
        live := live + {leaf};
        root := leaf;
        tree := Grown(tree, data, leaf);
        return 0;
      }
      var parent, present;
      parent, level, present := Descend(data);
      if present {
        return;
      }
      GrownAddsTheKey(tree, data, leaf);
      Hang(parent, leaf, data);
      live := live + {leaf};
      tree := Grown(tree, data, leaf);
    }

    /** The last step of `insert`. */
    method Hang(parent: BinaryNode, leaf: BinaryNode, data: int)
      requires Valid() && root != null && !Found(tree, data) && parent == LastMet(tree, data)
      requires leaf !in Nodes(tree) && leaf.data == data && leaf.left == leaf.right == null
      modifies parent
      ensures Spells(root, Grown(tree, data, leaf))
    {
      MetIsANode(tree, data);
      Hung(root, tree, data, leaf, parent);
      if data < parent.data {
        parent.left := leaf;
      } else {
        parent.right := leaf;
      }
      WouldIfHas(root, Grown(tree, data, leaf), parent);
    }

    /** The search loop of `insert`. */
    method Descend(data: int) returns (parent: BinaryNode, level: nat, present: bool)
      requires Valid() && root != null
      ensures level == Steps(tree, data) && present == Found(tree, data)
      ensures !present ==> parent == LastMet(tree, data)
      ensures parent in Nodes(tree)
    {
      var current: BinaryNode? := root;
      parent := root;
      level := 0;
      ghost var t := tree;
      while current != null
        invariant Spells(current, t) && Nodes(t) <= Nodes(tree)
        invariant t.Branch? ==> LastMet(t, data) == LastMet(tree, data)
        invariant t.Leaf? ==> parent == LastMet(tree, data)
        invariant parent in Nodes(tree)
        invariant Steps(tree, data) == level + Steps(t, data) && Found(tree, data) == Found(t, data)
        decreases t
      {
        parent := current;
        if data < current.data {
          current := current.left;
          level := level + 1;
        } else if data > current.data {
          current := current.right;
          level := level + 1;
        } else {
          return current, level, true;
        }
        t := Towards(t, data);
      }
      present := false;
    }

    method Lookup(data: int) returns (level: nat)
      requires Valid()
      ensures data in Keys(tree) ==> AtDepth(tree, data, level) && level < Depth(tree)
      ensures data !in Keys(tree) ==> forall leaf: BinaryNode :: AtDepth(Grown(tree, data, leaf), data, level)
      ensures level <= Depth(tree)
    {
      SearchIsExact(tree, data);
      ghost var whole := tree;
      if data !in Keys(whole) {
        forall leaf: BinaryNode ensures AtDepth(Grown(whole, data, leaf), data, Steps(whole, data)) {
          GrownAddsTheKey(whole, data, leaf);
        }
      }
      var current := root;
      level := 0;
      ghost var t := tree;
      while current != null
        invariant Spells(current, t)
        invariant Steps(tree, data) == level + Steps(t, data) && Found(tree, data) == Found(t, data)
        decreases t
      {
        if current.data == data {
          return;
        }
        current := if data < current.data then current.left else current.right;
        level := level + 1;
        t := Towards(t, data);
      }
    }

    function GetDepth(): (depth: nat)
      requires Valid()
      reads this, Nodes(tree)
      ensures depth == Depth(tree)
    {
      GetDepthHelper(root, tree)
    }

    function GetDepthHelper(node: BinaryNode?, ghost t: Tree): (depth: nat)
      requires Spells(node, t)
      reads Nodes(t)
      ensures depth == Depth(t)
      decreases t
    {
      if node == null then 0
      else
        var l, r := GetDepthHelper(node.left, t.left), GetDepthHelper(node.right, t.right);
        (if l < r then r else l) + 1
    }

    /** The leftmost node, which in an ordered tree holds the least key. */
    method FindMin(node: BinaryNode?, ghost t: Tree) returns (least: BinaryNode?)
      requires Spells(node, t)
      ensures least == null <==> t.Leaf?
      ensures t.Branch? ==> least == Leftmost(t) && least in Nodes(t)
      ensures t.Branch? && Ordered(t) ==> least.data in Keys(t) && forall k :: k in Keys(t) ==> least.data <= k
    {
      least := node;
      ghost var u := t;
      if node == null {
        return;
      }
      while least.left != null
        invariant u.Branch? && Spells(least, u) && Leftmost(u) == Leftmost(t) && Nodes(u) <= Nodes(t)
        invariant Ordered(t) ==> Ordered(u) && Keys(u) <= Keys(t) && forall k :: k in Keys(t) && k !in Keys(u) ==> u.key < k
        decreases u
      {
        least := least.left;
        u := u.left;
      }
    }

    /** Nothing about the tree is assumed but its shape: the fate is decided by where the search ends. */
    method DeleteHelper(node: BinaryNode?, key: int, ghost t: Tree) returns (rest: BinaryNode?, fate: Fate)
      requires Spells(node, t)
      modifies this`live, Nodes(t)
      ensures fate == NotFound <==> !Found(t, key)
      ensures fate == UsesDeletedNode <==> Crowded(t, key)
      ensures fate != UsesDeletedNode ==> Spells(rest, Cut(t, key))
      ensures fate == NotFound ==> rest == node && live == old(live)
      ensures fate == Spliced ==> live == old(live) - {Holder(t, key)}
      decreases t
    {
      rest := node;
      Allocated(node, t);
      if node == null {
        return null, NotFound;
      }
      if key < node.data {
        var child;
        child, fate := DeleteHelper(node.left, key, t.left);
        if fate != UsesDeletedNode {
          CutNodes(t.left, key);
          node.left := child;
        }
      } else if key > node.data {
        var child;
        child, fate := DeleteHelper(node.right, key, t.right);
        if fate != UsesDeletedNode {
          CutNodes(t.right, key);
          node.right := child;
        }
      } else if node.left == null {
        live := live - {node};
        return node.right, Spliced;
      } else if node.right == null {
        live := live - {node};
        return node.left, Spliced;
      } else {
        var least := FindMin(node.right, t.right);
        assert least != null;
        fate := UsesDeletedNode;
      }
    }

    /** As written: it looks for keys above the root in the left subtree, where there are none. */
    method Remove(data: int) returns (fate: Fate)
      requires Valid()
      modifies this, Nodes(tree)
      ensures Valid() && tree == Removed(old(tree), data) && fate == NotFound
      ensures live == if old(tree).Branch? && old(tree).key == data then old(live) - {old(tree).at} else old(live)
    {
      fate := NotFound;
      if root == null {
        return;
      }
      if root.data == data {
        live := live - {root};
        root := null;
        tree := Leaf;
      } else if root.data < data {
        SearchIsExact(tree.left, data);
        var child;
        child, fate := DeleteHelper(root.left, data, tree.left);
        CutNodes(tree.left, data);
        root.left := child;
      } else if data > root.data {
        assert false;
      }
    }
  }

  /** The keys and the root key after a sequence of calls. */
  datatype Content = Content(keys: set<int>, root: int)

  datatype Call = Insert(key: int) | Remove(key: int)

  /** An insertion adds its key; removing the root key empties the tree, any other removal does nothing. */
  function Contents(calls: seq<Call>): Content {
    if calls == [] then Content({}, 0)
    else
      var c := Contents(calls[..|calls| - 1]);
      match calls[|calls| - 1]
      case Insert(k) => Content(c.keys + {k}, if c.keys == {} then k else c.root)
      case Remove(k) => if c.keys != {} && c.root == k then Content({}, 0) else c
  }

  /** Every run of insertions and removals from the empty tree: no removal ever finds a key below the root. */
  method Run(calls: seq<Call>) returns (t: BinarySearchTree, fates: seq<Fate>)
    ensures t.Valid() && Keys(t.tree) == Contents(calls).keys
    ensures t.tree.Branch? ==> t.tree.key == Contents(calls).root
    ensures |fates| == |calls| && forall i :: 0 <= i < |fates| ==> fates[i] == NotFound
  {
    t := new BinarySearchTree();
    fates := [];
    var i := 0;
    while i < |calls|
      invariant 0 <= i == |fates| <= |calls| && t.Valid() && fresh(t) && fresh(Nodes(t.tree))
      invariant Keys(t.tree) == Contents(calls[..i]).keys
      invariant t.tree.Branch? ==> t.tree.key == Contents(calls[..i]).root
      invariant forall k :: 0 <= k < i ==> fates[k] == NotFound
    {
      assert calls[..i + 1][..i] == calls[..i];
      var fate := NotFound;
      match calls[i] {
        case Insert(k) =>
          var _ := t.Insert(k);
        case Remove(k) =>
          fate := t.Remove(k);
      }
      fates := fates + [fate];
      i := i + 1;
    }
    assert calls[..|calls|] == calls;
  }
}
