/** The top-down splay as a function on shapes. `SplayFrom` takes exactly the
    decisions of the loop in `_splay`, carrying the two assembled trees
    (nodes known to precede and to follow the query) as trees with a hole;
    the imperative engine is proved to produce the shape it computes. */
module TopDown {
  import opened Trees

  /** `_right_rotate`: the left child is promoted over its parent. */
  function RotateRight(t: Tree): (u: Tree)
    requires t.Br? && t.l.Br?
    ensures u.Br? && u.n == t.l.n && u.r.Br? && u.r.n == t.n
    ensures Elems(u) == Elems(t) && Nodes(u) == Nodes(t)
  {
    Br(t.l.l, t.l.n, Br(t.l.r, t.n, t.r))
  }

  /** `_left_rotate`: the right child is promoted over its parent. */
  function RotateLeft(t: Tree): (u: Tree)
    requires t.Br? && t.r.Br?
    ensures u.Br? && u.n == t.r.n && u.l.Br? && u.l.n == t.n
    ensures Elems(u) == Elems(t) && Nodes(u) == Nodes(t)
  {
    Br(Br(t.l, t.n, t.r.l), t.r.n, t.r.r)
  }

  /** A rotation of a tree that repeats no node repeats none either. */
  lemma RotateRightDistinct(t: Tree)
    requires t.Br? && t.l.Br? && Distinct(t)
    ensures Distinct(RotateRight(t))
  {
    var u := RotateRight(t);
    assert Distinct(u.r);
  }

  lemma RotateLeftDistinct(t: Tree)
    requires t.Br? && t.r.Br? && Distinct(t)
    ensures Distinct(RotateLeft(t))
  {
    var u := RotateLeft(t);
    assert Distinct(u.l);
  }

  /** The final re-assembly: the stopping node's children fill the holes of
      the two assembled trees, which become its new children. */
  function Assemble(lt: Tree, t: Tree, rt: Tree): Tree
    requires t.Br?
  {
    Br(PlugRight(lt, t.l), t.n, PlugLeft(rt, t.r))
  }

  /** Re-assembly keeps the in-order sequence: the left assembled tree, the
      stopping subtree, the right assembled tree. */
  lemma AssembleElems(lt: Tree, t: Tree, rt: Tree)
    requires t.Br?
    ensures Elems(Assemble(lt, t, rt)) == Elems(lt) + Elems(t) + Elems(rt)
  {
  }

  /** One pass of the loop of `_splay` from the current subtree `t`, with the
      assembled trees `lt` (all preceding the query) and `rt` (all following
      it). */
  function SplayFrom(lt: Tree, t: Tree, rt: Tree, q: int): (s: Tree)
    requires t.Br?
    ensures s.Br?
    decreases t
  {
    if t.n.key == q then Assemble(lt, t, rt)
    else if t.n.key > q then
      if t.l.Leaf? then Assemble(lt, t, rt)
      else if t.l.n.key > q then
        var u := RotateRight(t);
        if u.l.Leaf? then Assemble(lt, u, rt)
        else SplayFrom(lt, u.l, PlugLeft(rt, Br(Leaf, u.n, u.r)), q)
      else SplayFrom(lt, t.l, PlugLeft(rt, Br(Leaf, t.n, t.r)), q)
    else
      if t.r.Leaf? then Assemble(lt, t, rt)
      else if t.r.n.key < q then
        var u := RotateLeft(t);
        if u.r.Leaf? then Assemble(lt, u, rt)
        else SplayFrom(PlugRight(lt, Br(u.l, u.n, Leaf)), u.r, rt, q)
      else SplayFrom(PlugRight(lt, Br(t.l, t.n, Leaf)), t.r, rt, q)
  }

  /** The ways a pass stops: at a match, or where the way towards the query
      is empty (possibly after a rotation). */
  lemma SplayFromStops(lt: Tree, t: Tree, rt: Tree, q: int)
    requires t.Br?
    requires t.n.key == q || (t.n.key > q && t.l.Leaf?) || (t.n.key < q && t.r.Leaf?)
    ensures SplayFrom(lt, t, rt, q) == Assemble(lt, t, rt)
  {
  }

  /** One step of a pass to the left: a zig-zig rotation, then the rotated
      root joins the right assembled tree; or, without rotation, the root
      itself joins it. */
  lemma SplayFromLeft(lt: Tree, t: Tree, rt: Tree, q: int)
    requires t.Br? && t.n.key > q && t.l.Br?
    ensures var u := RotateRight(t);
      t.l.n.key > q ==>
        if u.l.Leaf? then SplayFrom(lt, t, rt, q) == Assemble(lt, u, rt)
        else SplayFrom(lt, t, rt, q) == SplayFrom(lt, u.l, PlugLeft(rt, Br(Leaf, u.n, u.r)), q)
    ensures t.l.n.key <= q ==>
      SplayFrom(lt, t, rt, q) == SplayFrom(lt, t.l, PlugLeft(rt, Br(Leaf, t.n, t.r)), q)
  {
  }

  lemma SplayFromRight(lt: Tree, t: Tree, rt: Tree, q: int)
    requires t.Br? && t.n.key < q && t.r.Br?
    ensures var u := RotateLeft(t);
      t.r.n.key < q ==>
        if u.r.Leaf? then SplayFrom(lt, t, rt, q) == Assemble(lt, u, rt)
        else SplayFrom(lt, t, rt, q) == SplayFrom(PlugRight(lt, Br(u.l, u.n, Leaf)), u.r, rt, q)
    ensures t.r.n.key >= q ==>
      SplayFrom(lt, t, rt, q) == SplayFrom(PlugRight(lt, Br(t.l, t.n, Leaf)), t.r, rt, q)
  {
  }

  /** `_splay`: an empty tree stays empty; otherwise one top-down pass. */
  function Splay(t: Tree, q: int): Tree {
    if t.Leaf? then Leaf else SplayFrom(Leaf, t, Leaf, q)
  }

  /** The splayed root is the query or a neighbour of it: if it follows the
      query, its whole left subtree precedes the query; if it precedes the
      query, its whole right subtree follows it. */
  ghost predicate SplitsAt(s: Tree, q: int) {
    s.Br? &&
    (s.n.key == q ||
     (q < s.n.key && Below(s.l, q)) ||
     (s.n.key < q && Above(s.r, q)))
  }

  lemma {:induction false} SplayFromElems(lt: Tree, t: Tree, rt: Tree, q: int)
    requires t.Br?
    ensures Elems(SplayFrom(lt, t, rt, q)) == Elems(lt) + Elems(t) + Elems(rt)
    decreases |Elems(t)|, 1
  {
    if t.n.key == q {
      AssembleElems(lt, t, rt);
    } else if t.n.key > q {
      if t.l.Leaf? {
        AssembleElems(lt, t, rt);
      } else if t.l.n.key > q {
        var u := RotateRight(t);
        if u.l.Br? {
          StepLeftElems(lt, u, rt, q);
        } else {
          AssembleElems(lt, u, rt);
        }
      } else {
        StepLeftElems(lt, t, rt, q);
      }
    } else {
      if t.r.Leaf? {
        AssembleElems(lt, t, rt);
      } else if t.r.n.key < q {
        var u := RotateLeft(t);
        if u.r.Br? {
          StepRightElems(lt, u, rt, q);
        } else {
          AssembleElems(lt, u, rt);
        }
      } else {
        StepRightElems(lt, t, rt, q);
      }
    }
  }

  /** One descent to the left: `u`'s root joins the right assembled tree. */
  lemma {:induction false} StepLeftElems(lt: Tree, u: Tree, rt: Tree, q: int)
    requires u.Br? && u.l.Br?
    ensures Elems(SplayFrom(lt, u.l, PlugLeft(rt, Br(Leaf, u.n, u.r)), q)) ==
            Elems(lt) + Elems(u) + Elems(rt)
    decreases |Elems(u)|, 0
  {
    var rt' := PlugLeft(rt, Br(Leaf, u.n, u.r));
    SplayFromElems(lt, u.l, rt', q);
    assert Elems(Br(Leaf, u.n, u.r)) == [u.n] + Elems(u.r);
    Regroup(Elems(lt), Elems(u.l), [u.n], Elems(u.r), Elems(rt));
  }

  /** One descent to the right: `u`'s root joins the left assembled tree. */
  lemma {:induction false} StepRightElems(lt: Tree, u: Tree, rt: Tree, q: int)
    requires u.Br? && u.r.Br?
    ensures Elems(SplayFrom(PlugRight(lt, Br(u.l, u.n, Leaf)), u.r, rt, q)) ==
            Elems(lt) + Elems(u) + Elems(rt)
    decreases |Elems(u)|, 0
  {
    var lt' := PlugRight(lt, Br(u.l, u.n, Leaf));
    SplayFromElems(lt', u.r, rt, q);
    assert Elems(Br(u.l, u.n, Leaf)) == Elems(u.l) + [u.n];
    Assoc(Elems(lt), Elems(u.l) + [u.n], Elems(u.r));
  }

  /** Re-assembly at a stopping node keeps the split: the assembled trees
      join the stopping node's subtrees on the same sides of the query. */
  lemma AssembleSplits(lt: Tree, t: Tree, rt: Tree, q: int)
    requires t.Br? && Below(lt, q) && Above(rt, q)
    requires t.n.key == q || (q < t.n.key && Below(t.l, q)) || (t.n.key < q && Above(t.r, q))
    ensures SplitsAt(Assemble(lt, t, rt), q)
  {
  }

  /** A pass whose assembled trees lie on the right sides of the query
      ends at a root that is the query or a neighbour of it. */
  lemma {:induction false} SplayFromSplits(lt: Tree, t: Tree, rt: Tree, q: int)
    requires t.Br? && Bst(t) && Below(lt, q) && Above(rt, q)
    ensures SplitsAt(SplayFrom(lt, t, rt, q), q)
    decreases |Elems(t)|, 1
  {
    if t.n.key == q {
      AssembleSplits(lt, t, rt, q);
    } else if t.n.key > q {
      if t.l.Leaf? {
        AssembleSplits(lt, t, rt, q);
      } else if t.l.n.key > q {
        var u := RotateRight(t);
        assert Bst(u.r) && Above(u.r, q);
        if u.l.Br? {
          StepLeftSplits(lt, u, rt, q);
        } else {
          AssembleSplits(lt, u, rt, q);
        }
      } else {
        assert Above(t.r, q);
        StepLeftSplits(lt, t, rt, q);
      }
    } else {
      if t.r.Leaf? {
        AssembleSplits(lt, t, rt, q);
      } else if t.r.n.key < q {
        var u := RotateLeft(t);
        assert Bst(u.l) && Below(u.l, q);
        if u.r.Br? {
          StepRightSplits(lt, u, rt, q);
        } else {
          AssembleSplits(lt, u, rt, q);
        }
      } else {
        assert Below(t.l, q);
        StepRightSplits(lt, t, rt, q);
      }
    }
  }

  lemma {:induction false} StepLeftSplits(lt: Tree, u: Tree, rt: Tree, q: int)
    requires u.Br? && u.l.Br? && Bst(u.l) && Below(lt, q) && Above(rt, q)
    requires q < u.n.key && Above(u.r, q)
    ensures SplitsAt(SplayFrom(lt, u.l, PlugLeft(rt, Br(Leaf, u.n, u.r)), q), q)
    decreases |Elems(u)|, 0
  {
    assert Nodes(Br(Leaf, u.n, u.r)) == {u.n} + Nodes(u.r);
    SplayFromSplits(lt, u.l, PlugLeft(rt, Br(Leaf, u.n, u.r)), q);
  }

  lemma {:induction false} StepRightSplits(lt: Tree, u: Tree, rt: Tree, q: int)
    requires u.Br? && u.r.Br? && Bst(u.r) && Below(lt, q) && Above(rt, q)
    requires u.n.key < q && Below(u.l, q)
    ensures SplitsAt(SplayFrom(PlugRight(lt, Br(u.l, u.n, Leaf)), u.r, rt, q), q)
    decreases |Elems(u)|, 0
  {
    assert Nodes(Br(u.l, u.n, Leaf)) == Nodes(u.l) + {u.n};
    SplayFromSplits(PlugRight(lt, Br(u.l, u.n, Leaf)), u.r, rt, q);
  }

  /** Splaying keeps exactly the same nodes in the same in-order sequence,
      and with them search-tree order. */
  lemma SplayKeepsElems(t: Tree, q: int)
    ensures Elems(Splay(t, q)) == Elems(t)
    ensures Bst(t) ==> Bst(Splay(t, q)) && Nodes(Splay(t, q)) == Nodes(t)
  {
    if t.Br? {
      SplayFromElems(Leaf, t, Leaf, q);
      if Bst(t) {
        SameElemsKeepBst(t, Splay(t, q));
      }
    }
  }

  /** After splaying a non-empty search tree the root is the query or a
      neighbour of it, in the sense of `SplitsAt`. */
  lemma SplaySplits(t: Tree, q: int)
    requires t.Br? && Bst(t)
    ensures SplitsAt(Splay(t, q), q)
  {
    SplayFromSplits(Leaf, t, Leaf, q);
  }

  /** The root compares equal to the query exactly when some node does. */
  lemma SplayFindsKey(t: Tree, q: int)
    requires t.Br? && Bst(t)
    ensures Splay(t, q).Br?
    ensures Splay(t, q).n.key == q <==> HasKey(t, q)
  {
    SplayKeepsElems(t, q);
    SplaySplits(t, q);
  }
}
