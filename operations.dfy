/** The public operations of the splay tree on shapes: what each of them
    leaves as the tree and what it returns. The imperative engine is proved
    to produce exactly these; the lemmas here state what they mean. */
module Operations {
  import opened Trees
  import opened TopDown

  /** `splay_insert`: splay towards the new node's key; an equal root means
      the key is present and the tree is left as splayed; otherwise the new
      node becomes the root with the splayed root on the appropriate side. */
  function Insert(t: Tree, x: Node): Tree {
    if t.Leaf? then Br(Leaf, x, Leaf)
    else
      var s := Splay(t, x.key);
      if s.n.key == x.key then s else Graft(s, x)
  }

  /** The new node `x` takes the place of the splayed root, which becomes
      its right child (keeping its right subtree) when it follows `x` and its
      left child (keeping its left subtree) otherwise. */
  function Graft(s: Tree, x: Node): Tree
    requires s.Br?
  {
    if s.n.key > x.key then Br(s.l, x, Br(Leaf, s.n, s.r))
    else Br(Br(s.l, s.n, Leaf), x, s.r)
  }

  /** The matching root of a splayed tree is replaced by its right subtree
      when it has no left one, and otherwise by the greatest node of its left
      subtree, cut out of that subtree. */
  function RemoveRoot(s: Tree): Tree
    requires s.Br?
  {
    if s.l.Leaf? then s.r else Br(RemoveMax(s.l), MaxNode(s.l), s.r)
  }

  /** `splay_delete`: splay towards the key; if the root matches, it is
      replaced by its right subtree when it has no left one, and otherwise
      by the greatest node of its left subtree, cut out of that subtree. */
  function Delete(t: Tree, q: int): Tree {
    if t.Leaf? then Leaf
    else
      var s := Splay(t, q);
      if s.n.key != q then s else RemoveRoot(s)
  }

  /** `splay_search`: the splayed root when it matches, else none. */
  function Search(t: Tree, q: int): Node?
    requires t.Br?
  {
    var s := Splay(t, q);
    if s.n.key == q then s.n else null
  }

  /** `splay_search_lower`: the splayed root when it does not follow the
      query, else the greatest node of its left subtree, if any. */
  function SearchLower(t: Tree, q: int): Node?
    requires t.Br?
  {
    var s := Splay(t, q);
    if s.n.key <= q then s.n
    else if s.l.Leaf? then null
    else MaxNode(s.l)
  }

  /** `splay_search_greater`: the splayed root when it does not precede the
      query, else the least node of its right subtree, if any. */
  function SearchGreater(t: Tree, q: int): Node?
    requires t.Br?
  {
    var s := Splay(t, q);
    if s.n.key >= q then s.n
    else if s.r.Leaf? then null
    else MinNode(s.r)
  }

  /** `splay_first` with `to_splay`: the leftmost node is lifted to the root;
      it keeps no left child and the rest of the tree becomes its right
      subtree. */
  function PromoteMin(t: Tree): (u: Tree)
    requires t.Br?
    ensures Elems(u) == Elems(t)
    ensures u.Br? && u.n == MinNode(t) && u.l.Leaf?
  {
    Br(Leaf, MinNode(t), RemoveMin(t))
  }

  /** `splay_last` with `to_splay`: the mirror image of `PromoteMin`. */
  function PromoteMax(t: Tree): (u: Tree)
    requires t.Br?
    ensures Elems(u) == Elems(t)
    ensures u.Br? && u.n == MaxNode(t) && u.r.Leaf?
  {
    Br(RemoveMax(t), MaxNode(t), Leaf)
  }

  // ---------------------------------------------------------------------
  // What the operations mean.

  /** Inserting a key that is present changes neither the nodes nor their
      order; inserting a new key adds exactly the new node, as the root, and
      keeps search-tree order. */
  lemma InsertCorrect(t: Tree, x: Node)
    requires Bst(t) && x !in Nodes(t)
    ensures Bst(Insert(t, x))
    ensures HasKey(t, x.key) ==> Elems(Insert(t, x)) == Elems(t) && Nodes(Insert(t, x)) == Nodes(t)
    ensures !HasKey(t, x.key) ==> Nodes(Insert(t, x)) == Nodes(t) + {x} && Root(Insert(t, x)) == x
  {
    if t.Br? {
      var s := Splay(t, x.key);
      SplayKeepsElems(t, x.key);
      SplaySplits(t, x.key);
      SplayFindsKey(t, x.key);
      if s.n.key != x.key {
        GraftCorrect(s, x);
      }
    }
  }

  /** Grafting a new node at a splayed root that is a neighbour of its key
      keeps search-tree order, adds exactly that node and makes it the root. */
  lemma GraftCorrect(s: Tree, x: Node)
    requires Bst(s) && SplitsAt(s, x.key) && s.n.key != x.key && x !in Nodes(s)
    ensures Bst(Graft(s, x)) && Nodes(Graft(s, x)) == Nodes(s) + {x} && Root(Graft(s, x)) == x
  {
    if s.n.key > x.key {
      JoinBst(Leaf, s.n, s.r);
      JoinBst(s.l, x, Br(Leaf, s.n, s.r));
    } else {
      JoinBst(s.l, s.n, Leaf);
      JoinBst(Br(s.l, s.n, Leaf), x, s.r);
    }
  }

  /** Removing the greatest node of a search tree leaves a search tree of
      the other nodes, all of which precede it. */
  lemma {:induction false} RemoveMaxCorrect(t: Tree)
    requires t.Br? && Bst(t)
    ensures Bst(RemoveMax(t))
    ensures Nodes(RemoveMax(t)) == Nodes(t) - {MaxNode(t)}
    ensures Below(RemoveMax(t), MaxNode(t).key)
  {
    if t.r.Br? {
      RemoveMaxCorrect(t.r);
    }
  }

  /** Removing the root of a search tree leaves a search tree of exactly
      the other nodes. */
  lemma RemoveRootCorrect(s: Tree)
    requires s.Br? && Bst(s)
    ensures Bst(RemoveRoot(s))
    ensures Nodes(RemoveRoot(s)) == Nodes(s) - {s.n}
  {
    assert s.n !in Nodes(s.l) && s.n !in Nodes(s.r);
    if s.l.Br? {
      var m := MaxNode(s.l);
      RemoveMaxCorrect(s.l);
      assert m.key < s.n.key;
      assert Above(s.r, m.key);
      JoinBst(RemoveMax(s.l), m, s.r);
    }
    RemoveRootNodes(s);
  }

  /** A node between two search trees makes a search tree. */
  lemma JoinBst(l: Tree, n: Node, r: Tree)
    requires Bst(l) && Bst(r) && Below(l, n.key) && Above(r, n.key)
    ensures Bst(Br(l, n, r))
  {
  }

  /** The node set left by `RemoveRoot`, given that the greatest node of
      the left subtree is cut out of it. */
  lemma RemoveRootNodes(s: Tree)
    requires s.Br? && s.n !in Nodes(s.l) && s.n !in Nodes(s.r)
    requires s.l.Br? ==> Nodes(RemoveMax(s.l)) == Nodes(s.l) - {MaxNode(s.l)}
    ensures Nodes(RemoveRoot(s)) == Nodes(s) - {s.n}
  {
  }

  /** Deleting removes exactly the nodes that compare equal to the query
      (at most one in a search tree), keeps search-tree order, and leaves
      the in-order sequence untouched when no node matches. */
  lemma DeleteCorrect(t: Tree, q: int)
    requires Bst(t)
    ensures Bst(Delete(t, q))
    ensures Nodes(Delete(t, q)) == set m | m in Nodes(t) && m.key != q
    ensures !HasKey(t, q) ==> Elems(Delete(t, q)) == Elems(t)
  {
    if t.Br? {
      var s := Splay(t, q);
      SplayKeepsElems(t, q);
      SplayFindsKey(t, q);
      if s.n.key == q {
        RemoveRootCorrect(s);
        assert Nodes(s) - {s.n} == set m | m in Nodes(t) && m.key != q;
      }
    }
  }

  /** The search returns a node equal to the query exactly when one exists. */
  lemma SearchCorrect(t: Tree, q: int)
    requires t.Br? && Bst(t)
    ensures Search(t, q) != null <==> HasKey(t, q)
    ensures Search(t, q) != null ==> Search(t, q) in Nodes(t) && Search(t, q).key == q
    ensures Search(t, q) != null ==> Search(t, q) == Root(Splay(t, q))
  {
    SplayKeepsElems(t, q);
    SplayFindsKey(t, q);
  }

  /** The lower-bound search returns the greatest node not following the
      query, and none exactly when every node follows it. */
  lemma SearchLowerCorrect(t: Tree, q: int)
    requires t.Br? && Bst(t)
    ensures SearchLower(t, q) == null <==> Above(t, q)
    ensures SearchLower(t, q) != null ==>
      SearchLower(t, q) in Nodes(t) && SearchLower(t, q).key <= q &&
      forall m :: m in Nodes(t) && m.key <= q ==> m.key <= SearchLower(t, q).key
  {
    var s := Splay(t, q);
    SplayKeepsElems(t, q);
    SplaySplits(t, q);
    if s.n.key > q && s.l.Br? {
      MaxNodeIsGreatest(s.l);
    }
  }

  /** The upper-bound search returns the least node not preceding the
      query, and none exactly when every node precedes it. */
  lemma SearchGreaterCorrect(t: Tree, q: int)
    requires t.Br? && Bst(t)
    ensures SearchGreater(t, q) == null <==> Below(t, q)
    ensures SearchGreater(t, q) != null ==>
      SearchGreater(t, q) in Nodes(t) && q <= SearchGreater(t, q).key &&
      forall m :: m in Nodes(t) && q <= m.key ==> SearchGreater(t, q).key <= m.key
  {
    var s := Splay(t, q);
    SplayKeepsElems(t, q);
    SplaySplits(t, q);
    if s.n.key < q && s.r.Br? {
      MinNodeIsLeast(s.r);
    }
  }

  /** After a deletion, searching for the deleted key finds nothing. */
  lemma DeleteThenSearch(t: Tree, q: int)
    requires Bst(t)
    ensures Delete(t, q).Br? ==> Search(Delete(t, q), q) == null
  {
    DeleteCorrect(t, q);
    if Delete(t, q).Br? {
      SearchCorrect(Delete(t, q), q);
    }
  }

  /** After an insertion, searching for the inserted key finds a node with
      that key: the new node itself unless the key was already present. */
  lemma InsertThenSearch(t: Tree, x: Node)
    requires Bst(t) && x !in Nodes(t)
    ensures Insert(t, x).Br?
    ensures Search(Insert(t, x), x.key) != null && Search(Insert(t, x), x.key).key == x.key
    ensures !HasKey(t, x.key) ==> Search(Insert(t, x), x.key) == x
  {
    InsertCorrect(t, x);
    var u := Insert(t, x);
    ElemsAreNodes(t);
    ElemsAreNodes(u);
    assert HasKey(u, x.key) by {
      if HasKey(t, x.key) {
        var m :| m in Nodes(t) && m.key == x.key;
        assert m in Elems(t);
      } else {
        assert x in Nodes(u);
      }
    }
    SearchCorrect(u, x.key);
  }

  /** Lifting the leftmost node keeps the in-order sequence, so the node set
      and search-tree order, and the new root is the least node. */
  lemma PromoteMinCorrect(t: Tree)
    requires t.Br? && Bst(t)
    ensures Bst(PromoteMin(t)) && Nodes(PromoteMin(t)) == Nodes(t)
    ensures forall m :: m in Nodes(t) ==> PromoteMin(t).n.key <= m.key
  {
    SameElemsKeepBst(t, PromoteMin(t));
    MinNodeIsLeast(t);
  }

  lemma PromoteMaxCorrect(t: Tree)
    requires t.Br? && Bst(t)
    ensures Bst(PromoteMax(t)) && Nodes(PromoteMax(t)) == Nodes(t)
    ensures forall m :: m in Nodes(t) ==> m.key <= PromoteMax(t).n.key
  {
    SameElemsKeepBst(t, PromoteMax(t));
    MaxNodeIsGreatest(t);
  }
}
