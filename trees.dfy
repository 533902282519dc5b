/** The shape layer: heap nodes, the ghost tree that describes how they are
    linked, and the facts about in-order sequences, node sets and search-tree
    order that every operation of the engine relies on. */
module Trees {

  /** An intrusive tree node. `left` and `right` are the links the engine
      rewrites; `key` stands for the caller's payload, which only the
      comparator reads and which the engine never changes. */
  class Node {
    var left: Node?
    var right: Node?
    const key: int

    constructor (key: int)
      ensures this.key == key && left == null && right == null
    {
      this.key := key;
      left := null;
      right := null;
    }
  }

  /** The abstract shape of a subtree: which node sits where. */
  datatype Tree = Leaf | Br(l: Tree, n: Node, r: Tree)

  function Root(t: Tree): Node? {
    if t.Leaf? then null else t.n
  }

  function Nodes(t: Tree): set<Node> {
    match t
    case Leaf => {}
    case Br(l, n, r) => Nodes(l) + {n} + Nodes(r)
  }

  /** The nodes in in-order (left subtree, node, right subtree). */
  function Elems(t: Tree): seq<Node> {
    match t
    case Leaf => []
    case Br(l, n, r) => Elems(l) + [n] + Elems(r)
  }

  /** The heap realises the shape: every node's two links point at the roots
      of its two subtrees. */
  ghost predicate Linked(t: Tree)
    reads Nodes(t)`left, Nodes(t)`right
  {
    match t
    case Leaf => true
    case Br(l, n, r) => n.left == Root(l) && n.right == Root(r) && Linked(l) && Linked(r)
  }

  /** No node occurs twice in the shape (the links form a tree, not a DAG). */
  ghost predicate Distinct(t: Tree) {
    match t
    case Leaf => true
    case Br(l, n, r) =>
      Distinct(l) && Distinct(r) && n !in Nodes(l) && n !in Nodes(r) && Nodes(l) !! Nodes(r)
  }

  /** Binary-search-tree order under the comparator: everything left of a
      node precedes it, everything right of it follows it. */
  ghost predicate Bst(t: Tree) {
    match t
    case Leaf => true
    case Br(l, n, r) =>
      Bst(l) && Bst(r) &&
      (forall m :: m in Nodes(l) ==> m.key < n.key) &&
      (forall m :: m in Nodes(r) ==> n.key < m.key)
  }

  /** A node sequence in strictly ascending key order. */
  ghost predicate Ordered(s: seq<Node>) {
    forall i, j :: 0 <= i < j < |s| ==> s[i].key < s[j].key
  }

  /** Some node of the tree compares equal to `k`. */
  ghost predicate HasKey(t: Tree, k: int) {
    exists m :: m in Nodes(t) && m.key == k
  }

  ghost predicate Below(t: Tree, k: int) {
    forall m :: m in Nodes(t) ==> m.key < k
  }

  ghost predicate Above(t: Tree, k: int) {
    forall m :: m in Nodes(t) ==> k < m.key
  }

  /** Every node of a shape is an allocated object. */
  lemma {:induction false} NodesAllocated(t: Tree)
    ensures forall m :: m in Nodes(t) ==> allocated(m)
  {
    if t.Br? {
      NodesAllocated(t.l);
      NodesAllocated(t.r);
    }
  }

  lemma Assoc<T>(a: seq<T>, b: seq<T>, c: seq<T>)
    ensures a + (b + c) == (a + b) + c
  {
  }

  /** Moving one concatenation boundary across two others. */
  lemma Regroup<T>(a: seq<T>, b: seq<T>, c: seq<T>, d: seq<T>, e: seq<T>)
    ensures a + b + (c + d + e) == a + (b + c + d) + e
  {
  }

  lemma {:induction false} ElemsAreNodes(t: Tree)
    ensures forall m :: m in Elems(t) ==> m in Nodes(t)
    ensures forall m :: m in Nodes(t) ==> m in Elems(t)
  {
    match t
    case Leaf =>
    case Br(l, n, r) =>
      ElemsAreNodes(l);
      ElemsAreNodes(r);
  }

  /** A search tree never holds the same node twice. */
  lemma {:induction false} BstIsDistinct(t: Tree)
    requires Bst(t)
    ensures Distinct(t)
  {
    match t
    case Leaf =>
    case Br(l, n, r) =>
      BstIsDistinct(l);
      BstIsDistinct(r);
  }

  /** An in-order sequence around one node is ordered exactly when both
      sides are ordered and lie on the right sides of the node. */
  lemma OrderedAround(a: seq<Node>, n: Node, b: seq<Node>)
    ensures Ordered(a + [n] + b) <==>
      Ordered(a) && Ordered(b) &&
      (forall x :: x in a ==> x.key < n.key) && (forall y :: y in b ==> n.key < y.key)
  {
    var s := a + [n] + b;
    assert s[|a|] == n;
    if Ordered(s) {
      forall i, j | 0 <= i < j < |a| ensures a[i].key < a[j].key {
        assert a[i] == s[i] && a[j] == s[j];
      }
      forall i, j | 0 <= i < j < |b| ensures b[i].key < b[j].key {
        assert b[i] == s[|a| + 1 + i] && b[j] == s[|a| + 1 + j];
      }
      forall x | x in a ensures x.key < n.key {
        var i :| 0 <= i < |a| && a[i] == x;
        assert s[i] == x;
      }
      forall y | y in b ensures n.key < y.key {
        var j :| 0 <= j < |b| && b[j] == y;
        assert s[|a| + 1 + j] == y;
      }
    }
    if Ordered(a) && Ordered(b) &&
       (forall x :: x in a ==> x.key < n.key) && (forall y :: y in b ==> n.key < y.key)
    {
      forall i, j | 0 <= i < j < |s| ensures s[i].key < s[j].key {
        if j < |a| {
          assert s[i] == a[i] && s[j] == a[j];
        } else if i < |a| {
          assert s[i] == a[i] && a[i] in a;
          if j > |a| {
            assert s[j] == b[j - |a| - 1] && b[j - |a| - 1] in b;
          }
        } else if i == |a| {
          assert s[j] == b[j - |a| - 1] && b[j - |a| - 1] in b;
        } else {
          assert s[i] == b[i - |a| - 1] && s[j] == b[j - |a| - 1];
        }
      }
    }
  }

  lemma {:induction false} BstOrdered(t: Tree)
    requires Bst(t)
    ensures Ordered(Elems(t))
  {
    match t
    case Leaf =>
    case Br(l, n, r) =>
      BstOrdered(l);
      BstOrdered(r);
      ElemsAreNodes(l);
      ElemsAreNodes(r);
      assert forall x :: x in Elems(l) ==> x.key < n.key;
      assert forall y :: y in Elems(r) ==> n.key < y.key;
      OrderedAround(Elems(l), n, Elems(r));
  }

  lemma {:induction false} OrderedBst(t: Tree)
    requires Ordered(Elems(t))
    ensures Bst(t)
  {
    match t
    case Leaf =>
    case Br(l, n, r) =>
      OrderedAround(Elems(l), n, Elems(r));
      OrderedBst(l);
      OrderedBst(r);
      ElemsAreNodes(l);
      ElemsAreNodes(r);
      assert forall m :: m in Nodes(l) ==> m.key < n.key by {
        forall m | m in Nodes(l) ensures m.key < n.key {
          assert m in Elems(l);
        }
      }
      assert forall m :: m in Nodes(r) ==> n.key < m.key by {
        forall m | m in Nodes(r) ensures n.key < m.key {
          assert m in Elems(r);
        }
      }
  }

  /** Search-tree order is exactly in-order sortedness. */
  lemma BstIffOrdered(t: Tree)
    ensures Bst(t) <==> Ordered(Elems(t))
  {
    if Bst(t) {
      BstOrdered(t);
    }
    if Ordered(Elems(t)) {
      OrderedBst(t);
    }
  }

  /** The same nodes in the same in-order sequence keep search-tree order. */
  lemma SameElemsKeepBst(t: Tree, u: Tree)
    requires Bst(t) && Elems(u) == Elems(t)
    ensures Bst(u) && Nodes(u) == Nodes(t)
  {
    BstOrdered(t);
    OrderedBst(u);
    ElemsAreNodes(t);
    ElemsAreNodes(u);
    assert forall m :: m in Nodes(u) <==> m in Nodes(t) by {
      forall m ensures m in Nodes(u) <==> m in Nodes(t) {
        assert m in Elems(u) <==> m in Elems(t);
      }
    }
  }

  // ---------------------------------------------------------------------
  // Extremes. The leftmost node is the first in in-order, the rightmost the
  // last; removing one of them splices its only child into its place.

  function MinNode(t: Tree): (m: Node)
    requires t.Br?
    ensures m in Nodes(t)
  {
    if t.l.Leaf? then t.n else MinNode(t.l)
  }

  function MaxNode(t: Tree): (m: Node)
    requires t.Br?
    ensures m in Nodes(t)
  {
    if t.r.Leaf? then t.n else MaxNode(t.r)
  }

  function RemoveMin(t: Tree): (r: Tree)
    requires t.Br?
    ensures Elems(t) == [MinNode(t)] + Elems(r)
  {
    if t.l.Leaf? then t.r else Br(RemoveMin(t.l), t.n, t.r)
  }

  function RemoveMax(t: Tree): (r: Tree)
    requires t.Br?
    ensures Elems(t) == Elems(r) + [MaxNode(t)]
  {
    if t.r.Leaf? then t.l else Br(t.l, t.n, RemoveMax(t.r))
  }

  /** The leftmost node of a search tree is its least node. */
  lemma {:induction false} MinNodeIsLeast(t: Tree)
    requires t.Br? && Bst(t)
    ensures forall m :: m in Nodes(t) ==> MinNode(t).key <= m.key
  {
    if t.l.Br? {
      MinNodeIsLeast(t.l);
    }
  }

  /** The rightmost node of a search tree is its greatest node. */
  lemma {:induction false} MaxNodeIsGreatest(t: Tree)
    requires t.Br? && Bst(t)
    ensures forall m :: m in Nodes(t) ==> m.key <= MaxNode(t).key
  {
    if t.r.Br? {
      MaxNodeIsGreatest(t.r);
    }
  }

  // ---------------------------------------------------------------------
  // Trees with a hole. The top-down splay assembles the nodes it has passed
  // into two trees whose rightmost (resp. leftmost) empty subtree is still
  // to be filled; a pointer walk splits a tree the same way at the node it
  // has reached. A `Tree` stands for such a tree, its last (first) Leaf
  // being the hole, and `PlugRight` (`PlugLeft`) fills the hole.

  function PlugRight(t: Tree, h: Tree): (r: Tree)
    ensures Elems(r) == Elems(t) + Elems(h)
    ensures Nodes(r) == Nodes(t) + Nodes(h)
    ensures t.Br? ==> r.Br? && r.n == t.n && r.l == t.l
  {
    if t.Leaf? then h else Br(t.l, t.n, PlugRight(t.r, h))
  }

  function PlugLeft(t: Tree, h: Tree): (r: Tree)
    ensures Elems(r) == Elems(h) + Elems(t)
    ensures Nodes(r) == Nodes(h) + Nodes(t)
    ensures t.Br? ==> r.Br? && r.n == t.n && r.r == t.r
  {
    if t.Leaf? then h else Br(PlugLeft(t.l, h), t.n, t.r)
  }

  /** A filled tree repeats no node exactly when neither part does and the
      two parts share none; its extreme node on the hole's side is the
      filling's. */
  lemma {:induction false} PlugRightDistinct(t: Tree, h: Tree)
    ensures Distinct(PlugRight(t, h)) <==> Distinct(t) && Distinct(h) && Nodes(t) !! Nodes(h)
    ensures h.Br? ==> MaxNode(PlugRight(t, h)) == MaxNode(h)
  {
    if t.Br? {
      PlugRightDistinct(t.r, h);
    }
  }

  lemma {:induction false} PlugLeftDistinct(t: Tree, h: Tree)
    ensures Distinct(PlugLeft(t, h)) <==> Distinct(t) && Distinct(h) && Nodes(t) !! Nodes(h)
    ensures h.Br? ==> MinNode(PlugLeft(t, h)) == MinNode(h)
  {
    if t.Br? {
      PlugLeftDistinct(t.l, h);
    }
  }

  lemma {:induction false} PlugRightAssoc(t: Tree, u: Tree, h: Tree)
    ensures PlugRight(PlugRight(t, u), h) == PlugRight(t, PlugRight(u, h))
  {
    if t.Br? {
      PlugRightAssoc(t.r, u, h);
    }
  }

  lemma {:induction false} PlugLeftAssoc(t: Tree, u: Tree, h: Tree)
    ensures PlugLeft(PlugLeft(t, u), h) == PlugLeft(t, PlugLeft(u, h))
  {
    if t.Br? {
      PlugLeftAssoc(t.l, u, h);
    }
  }

  /** Removing the greatest node of a tree whose hole is filled removes it
      from the filling. */
  lemma {:induction false} RemoveMaxPlug(t: Tree, h: Tree)
    requires h.Br?
    ensures RemoveMax(PlugRight(t, h)) == PlugRight(t, RemoveMax(h))
  {
    if t.Br? {
      RemoveMaxPlug(t.r, h);
    }
  }

  lemma {:induction false} RemoveMinPlug(t: Tree, h: Tree)
    requires h.Br?
    ensures RemoveMin(PlugLeft(t, h)) == PlugLeft(t, RemoveMin(h))
  {
    if t.Br? {
      RemoveMinPlug(t.l, h);
    }
  }

  /** The location of the hole of a right-open tree: the right link of its
      rightmost node. */
  function HoleR(t: Tree): set<Node> {
    if t.Leaf? then {} else {MaxNode(t)}
  }

  function HoleL(t: Tree): set<Node> {
    if t.Leaf? then {} else {MinNode(t)}
  }

  /** The heap realises a right-open tree: every link is as in `Linked`
      except the right link of the rightmost node, which is not read. */
  ghost predicate OpenR(t: Tree)
    requires Distinct(t)
    reads Nodes(t)`left, (Nodes(t) - HoleR(t))`right
  {
    match t
    case Leaf => true
    case Br(l, n, r) =>
      n.left == Root(l) && Linked(l) && (r.Br? ==> n.right == Root(r) && OpenR(r))
  }

  ghost predicate OpenL(t: Tree)
    requires Distinct(t)
    reads Nodes(t)`right, (Nodes(t) - HoleL(t))`left
  {
    match t
    case Leaf => true
    case Br(l, n, r) =>
      n.right == Root(r) && Linked(r) && (l.Br? ==> n.left == Root(l) && OpenL(l))
  }

  /** Filling the hole of a right-open tree with a linked tree gives a linked
      tree exactly when the hole's link points at the filling. */
  lemma {:induction false} LinkedPlugRight(t: Tree, h: Tree)
    requires Distinct(t) && Distinct(h) && Nodes(t) !! Nodes(h) && Distinct(PlugRight(t, h))
    ensures Linked(PlugRight(t, h)) <==>
      OpenR(t) && Linked(h) && (t.Br? ==> MaxNode(t).right == Root(h))
  {
    if t.Br? {
      LinkedPlugRight(t.r, h);
    }
  }

  lemma {:induction false} LinkedPlugLeft(t: Tree, h: Tree)
    requires Distinct(t) && Distinct(h) && Nodes(t) !! Nodes(h) && Distinct(PlugLeft(t, h))
    ensures Linked(PlugLeft(t, h)) <==>
      OpenL(t) && Linked(h) && (t.Br? ==> MinNode(t).left == Root(h))
  {
    if t.Br? {
      LinkedPlugLeft(t.l, h);
    }
  }

  /** Filling the hole of a right-open tree with another right-open tree
      gives a right-open tree whose hole is the filling's. */
  lemma {:induction false} OpenPlugRight(t: Tree, h: Tree)
    requires Distinct(t) && Distinct(h) && Nodes(t) !! Nodes(h) && Distinct(PlugRight(t, h))
    ensures OpenR(PlugRight(t, h)) <==>
      OpenR(t) && OpenR(h) && (t.Br? && h.Br? ==> MaxNode(t).right == Root(h))
  {
    if t.Br? {
      OpenPlugRight(t.r, h);
    }
  }

  lemma {:induction false} OpenPlugLeft(t: Tree, h: Tree)
    requires Distinct(t) && Distinct(h) && Nodes(t) !! Nodes(h) && Distinct(PlugLeft(t, h))
    ensures OpenL(PlugLeft(t, h)) <==>
      OpenL(t) && OpenL(h) && (t.Br? && h.Br? ==> MinNode(t).left == Root(h))
  {
    if t.Br? {
      OpenPlugLeft(t.l, h);
    }
  }
}
