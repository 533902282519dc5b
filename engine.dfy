/** The engine on heap nodes: the rotations, the top-down splay loop and the
    public operations of a splay tree, each proved to leave the nodes linked
    as the corresponding function on shapes says. */
module Engine {
  import opened Trees
  import TopDown
  import Operations

  /** `_right_rotate`: the left child `y` of `x` takes `x`'s place, `x`
      becomes `y`'s right child and adopts `y`'s former right subtree. */
  method RightRotate(x: Node, ghost t: Tree) returns (y: Node)
    requires t.Br? && t.l.Br? && x == t.n && Linked(t) && Distinct(t)
    modifies x, t.l.n
    ensures y == t.l.n && y == Root(TopDown.RotateRight(t))
    ensures Linked(TopDown.RotateRight(t))
  {
    assert Linked(t.l) && Linked(t.l.l) && Linked(t.l.r) && Linked(t.r);
    y := x.left;
    x.left := y.right;
    y.right := x;
  }

  /** `_left_rotate`: the mirror image of `RightRotate`. */
  method LeftRotate(x: Node, ghost t: Tree) returns (y: Node)
    requires t.Br? && t.r.Br? && x == t.n && Linked(t) && Distinct(t)
    modifies x, t.r.n
    ensures y == t.r.n && y == Root(TopDown.RotateLeft(t))
    ensures Linked(TopDown.RotateLeft(t))
  {
    assert Linked(t.r) && Linked(t.r.l) && Linked(t.r.r) && Linked(t.l);
    y := x.right;
    x.right := y.left;
    y.left := x;
  }

  /** `_init_splay_node`: both links are cleared. */
  method InitNode(p: Node)
    modifies p
    ensures p.left == null && p.right == null
  {
    p.left, p.right := null, null;
  }

  /** The pieces of a splay pass in progress: the tree `lt` of nodes found to
      precede the query, the subtree `cur` still to be searched and the tree
      `rt` of nodes found to follow it. No node repeats and the header node
      `hdr` is none of them. */
  ghost predicate Parts(lt: Tree, cur: Tree, rt: Tree, hdr: Node) {
    cur.Br? && Distinct(lt) && Distinct(cur) && Distinct(rt) &&
    Nodes(lt) !! Nodes(cur) && Nodes(lt) !! Nodes(rt) && Nodes(cur) !! Nodes(rt) &&
    hdr !in Nodes(lt) + Nodes(cur) + Nodes(rt)
  }

  /** The heap holds the pieces: `x` is the root of the linked subtree
      `cur`; `lt` hangs from `hdr.right` with its hole at `leftT.right`;
      `rt` hangs from `hdr.left` with its hole at `rightT.left`. An empty
      assembled tree has the header itself as its hole. */
  ghost predicate Held(hdr: Node, leftT: Node, rightT: Node, x: Node, lt: Tree, cur: Tree, rt: Tree)
    requires Parts(lt, cur, rt, hdr)
    reads hdr, Nodes(lt), Nodes(cur), Nodes(rt)
  {
    x == cur.n && Linked(cur) && OpenR(lt) && OpenL(rt) &&
    leftT == (if lt.Leaf? then hdr else MaxNode(lt)) &&
    rightT == (if rt.Leaf? then hdr else MinNode(rt)) &&
    (lt.Br? ==> hdr.right == Root(lt)) &&
    (rt.Br? ==> hdr.left == Root(rt))
  }

  /** The step of `_splay` that hangs the current root, with its right
      subtree, into the hole of the right assembled tree and descends to its
      left child. */
  method LinkRight(hdr: Node, leftT: Node, rightT: Node, x: Node, ghost lt: Tree, ghost cur: Tree, ghost rt: Tree)
    returns (rightT': Node, x': Node, ghost cur': Tree, ghost rt': Tree)
    requires Parts(lt, cur, rt, hdr) && Held(hdr, leftT, rightT, x, lt, cur, rt) && cur.l.Br?
    modifies rightT
    ensures cur' == cur.l && rt' == PlugLeft(rt, Br(Leaf, cur.n, cur.r)) && rightT' == cur.n
    ensures Parts(lt, cur', rt', hdr) && Held(hdr, leftT, rightT', x', lt, cur', rt')
  {
    assert HoleL(rt) == (if rt.Leaf? then {} else {rightT});
    assert Linked(cur.l) && Linked(cur.r);
    rightT.left := x;
    rightT' := x;
    x' := x.left;
    ghost var piece := Br(Leaf, cur.n, cur.r);
    PlugLeftDistinct(rt, piece);
    OpenPlugLeft(rt, piece);
    cur', rt' := cur.l, PlugLeft(rt, piece);
  }

  /** The mirror step: the current root, with its left subtree, goes into
      the hole of the left assembled tree and the pass descends right. */
  method LinkLeft(hdr: Node, leftT: Node, rightT: Node, x: Node, ghost lt: Tree, ghost cur: Tree, ghost rt: Tree)
    returns (leftT': Node, x': Node, ghost lt': Tree, ghost cur': Tree)
    requires Parts(lt, cur, rt, hdr) && Held(hdr, leftT, rightT, x, lt, cur, rt) && cur.r.Br?
    modifies leftT
    ensures cur' == cur.r && lt' == PlugRight(lt, Br(cur.l, cur.n, Leaf)) && leftT' == cur.n
    ensures Parts(lt', cur', rt, hdr) && Held(hdr, leftT', rightT, x', lt', cur', rt)
  {
    assert HoleR(lt) == (if lt.Leaf? then {} else {leftT});
    assert Linked(cur.l) && Linked(cur.r);
    leftT.right := x;
    leftT' := x;
    x' := x.right;
    ghost var piece := Br(cur.l, cur.n, Leaf);
    PlugRightDistinct(lt, piece);
    OpenPlugRight(lt, piece);
    lt', cur' := PlugRight(lt, piece), cur.r;
  }

  /** The zig-zig step to the left: `_right_rotate` on the current root;
      the assembled trees and the header are untouched. */
  method RotateCurrentRight(hdr: Node, leftT: Node, rightT: Node, x: Node, ghost lt: Tree, ghost cur: Tree, ghost rt: Tree)
    returns (x': Node, ghost cur': Tree)
    requires Parts(lt, cur, rt, hdr) && Held(hdr, leftT, rightT, x, lt, cur, rt) && cur.l.Br?
    modifies x, cur.l.n
    ensures cur' == TopDown.RotateRight(cur) && Nodes(cur') == Nodes(cur)
    ensures Parts(lt, cur', rt, hdr) && Held(hdr, leftT, rightT, x', lt, cur', rt)
  {
    TopDown.RotateRightDistinct(cur);
    assert x in Nodes(cur) && cur.l.n in Nodes(cur) && hdr !in Nodes(cur);
    assert OpenR(lt) && OpenL(rt);
    NodesAllocated(lt);
    NodesAllocated(rt);
    x' := RightRotate(x, cur);
    cur' := TopDown.RotateRight(cur);
  }

  method RotateCurrentLeft(hdr: Node, leftT: Node, rightT: Node, x: Node, ghost lt: Tree, ghost cur: Tree, ghost rt: Tree)
    returns (x': Node, ghost cur': Tree)
    requires Parts(lt, cur, rt, hdr) && Held(hdr, leftT, rightT, x, lt, cur, rt) && cur.r.Br?
    modifies x, cur.r.n
    ensures cur' == TopDown.RotateLeft(cur) && Nodes(cur') == Nodes(cur)
    ensures Parts(lt, cur', rt, hdr) && Held(hdr, leftT, rightT, x', lt, cur', rt)
  {
    TopDown.RotateLeftDistinct(cur);
    assert x in Nodes(cur) && cur.r.n in Nodes(cur) && hdr !in Nodes(cur);
    assert OpenR(lt) && OpenL(rt);
    NodesAllocated(lt);
    NodesAllocated(rt);
    x' := LeftRotate(x, cur);
    cur' := TopDown.RotateLeft(cur);
  }

  /** The first write of the re-assembly that ends `_splay`: the current
      root's left subtree fills the hole of the left assembled tree. */
  method FillLeftHole(hdr: Node, leftT: Node, rightT: Node, x: Node, ghost lt: Tree, ghost cur: Tree, ghost rt: Tree)
    requires Parts(lt, cur, rt, hdr) && Held(hdr, leftT, rightT, x, lt, cur, rt)
    modifies leftT
    ensures Linked(PlugRight(lt, cur.l)) && hdr.right == Root(PlugRight(lt, cur.l))
    ensures Parts(Leaf, cur, rt, hdr) && Held(hdr, hdr, rightT, x, Leaf, cur, rt)
  {
    ghost var a := cur.l;
    assert Linked(a) && OpenR(lt) && OpenL(rt);
    assert HoleR(lt) == (if lt.Leaf? then {} else {leftT});
    leftT.right := x.left;
    assert Linked(a) && OpenR(lt) && OpenL(rt) && Linked(cur);
    PlugRightDistinct(lt, a);
    LinkedPlugRight(lt, a);
  }

  /** The second write: the current root's right subtree fills the hole of
      the right assembled tree. */
  method FillRightHole(hdr: Node, rightT: Node, x: Node, ghost cur: Tree, ghost rt: Tree)
    requires Parts(Leaf, cur, rt, hdr) && Held(hdr, hdr, rightT, x, Leaf, cur, rt)
    modifies rightT
    ensures Linked(PlugLeft(rt, cur.r)) && hdr.left == Root(PlugLeft(rt, cur.r))
    ensures hdr.right == old(hdr.right)
  {
    ghost var b := cur.r;
    assert Linked(b) && OpenL(rt);
    assert HoleL(rt) == (if rt.Leaf? then {} else {rightT});
    rightT.left := x.right;
    assert Linked(b) && OpenL(rt);
    PlugLeftDistinct(rt, b);
    LinkedPlugLeft(rt, b);
  }

  /** The re-assembly that ends `_splay`: after the holes are filled, the
      two assembled trees become the current root's children. */
  method Reassemble(hdr: Node, leftT: Node, rightT: Node, x: Node, ghost lt: Tree, ghost cur: Tree, ghost rt: Tree)
    returns (r: Node)
    requires Parts(lt, cur, rt, hdr) && Held(hdr, leftT, rightT, x, lt, cur, rt)
    modifies leftT, rightT, x
    ensures r == Root(TopDown.Assemble(lt, cur, rt))
    ensures Linked(TopDown.Assemble(lt, cur, rt))
  {
    ghost var lt', rt' := PlugRight(lt, cur.l), PlugLeft(rt, cur.r);
    assert x !in Nodes(lt') && x !in Nodes(rt');
    FillLeftHole(hdr, leftT, rightT, x, lt, cur, rt);
    NodesAllocated(lt');
    assert rightT !in Nodes(lt');
    FillRightHole(hdr, rightT, x, cur, rt);
    x.left := hdr.right;
    x.right := hdr.left;
    r := x;
  }

  /** `_splay`: one top-down pass towards the key `q`. The local header node
      `hdr` collects the nodes found to precede `q` through its `right` link
      and those found to follow it through its `left` link. The result is
      linked exactly as the function `TopDown.Splay` says. */
  method Splay(root: Node?, q: int, ghost t: Tree) returns (r: Node?)
    requires root == Root(t) && Linked(t) && Distinct(t)
    modifies Nodes(t)
    ensures r == Root(TopDown.Splay(t, q))
    ensures Linked(TopDown.Splay(t, q))
  {
    if root == null {
      return null;
    }
    NodesAllocated(t);
    var hdr := new Node(0);
    var leftT, rightT := hdr, hdr;
    var x: Node := root;
    ghost var lt, cur, rt := Leaf, t, Leaf;
    while true
      invariant Parts(lt, cur, rt, hdr) && Held(hdr, leftT, rightT, x, lt, cur, rt)
      invariant Nodes(cur) <= Nodes(t)
      invariant leftT == hdr || leftT in Nodes(t)
      invariant rightT == hdr || rightT in Nodes(t)
      invariant TopDown.SplayFrom(lt, cur, rt, q) == TopDown.SplayFrom(Leaf, t, Leaf, q)
      decreases cur
    {
      if x.key == q {
        TopDown.SplayFromStops(lt, cur, rt, q);
        break;
      }
      if x.key > q {
        if x.left == null {
          TopDown.SplayFromStops(lt, cur, rt, q);
          break;
        }
        TopDown.SplayFromLeft(lt, cur, rt, q);
        if x.left.key > q {
          x, cur := RotateCurrentRight(hdr, leftT, rightT, x, lt, cur, rt);
          if x.left == null {
            assert TopDown.Assemble(lt, cur, rt) == TopDown.SplayFrom(Leaf, t, Leaf, q);
            break;
          }
        }
        rightT, x, cur, rt := LinkRight(hdr, leftT, rightT, x, lt, cur, rt);
      } else {
        if x.right == null {
          TopDown.SplayFromStops(lt, cur, rt, q);
          break;
        }
        TopDown.SplayFromRight(lt, cur, rt, q);
        if x.right.key < q {
          x, cur := RotateCurrentLeft(hdr, leftT, rightT, x, lt, cur, rt);
          if x.right == null {
            assert TopDown.Assemble(lt, cur, rt) == TopDown.SplayFrom(Leaf, t, Leaf, q);
            break;
          }
        }
        leftT, x, lt, cur := LinkLeft(hdr, leftT, rightT, x, lt, cur, rt);
      }
    }
    assert TopDown.Assemble(lt, cur, rt) == TopDown.SplayFrom(Leaf, t, Leaf, q);
    r := Reassemble(hdr, leftT, rightT, x, lt, cur, rt);
  }

  /** The tail of `splay_insert` for a key that is not present: the new
      node takes the splayed root's place with that root on the side its key
      falls. */
  method Graft(node: Node, r: Node, ghost s: Tree)
    requires s.Br? && r == s.n && Linked(s) && Distinct(s) && node !in Nodes(s)
    modifies node, r
    ensures Linked(Operations.Graft(s, node))
  {
    assert Linked(s.l) && Linked(s.r);
    if r.key > node.key {
      node.right := r;
      node.left := r.left;
      r.left := null;
    } else {
      node.left := r;
      node.right := r.right;
      r.right := null;
    }
  }

  /** The removal step of `splay_delete` for a root `r` with a left subtree:
      a walk finds the greatest node `p` of that subtree (with its parent
      `pp`), which is cut out and takes the root's place. */
  method RemoveRoot(r: Node, ghost s: Tree) returns (r': Node)
    requires s.Br? && s.l.Br? && r == s.n && Linked(s) && Distinct(s)
    modifies Nodes(s)
    ensures r' == Root(Operations.RemoveRoot(s)) && Linked(Operations.RemoveRoot(s))
  {
    assert Linked(s.l) && Linked(s.r);
    NodesAllocated(s);
    var pp, p, P, c := FindMax(r.left, s.l);
    SpliceParts(s, P, c);
    LinkedPlugRight(P, c);
    assert Linked(c.l);
    Splice(r, pp, p, P, c.l, s.r);
    LinkedPlugRight(P, c.l);
    r' := p;
  }

  /** The walk down the right links of a subtree `l` (in `splay_delete` and
      `splay_last`): it ends at the rightmost node `p`, with `pp` its parent
      (none when `p` is the top of `l`); `l` is the open tree `P` above `p`
      with `p`'s subtree `c` in its hole. */
  method FindMax(top: Node, ghost l: Tree) returns (pp: Node?, p: Node, ghost P: Tree, ghost c: Tree)
    requires l.Br? && top == l.n && Linked(l)
    ensures p.right == null && (pp == null ==> p == top) && (pp != null ==> pp.right == p)
    ensures c.Br? && c.r.Leaf? && p == c.n && Linked(c) && l == PlugRight(P, c)
    ensures pp == (if P.Leaf? then null else MaxNode(P))
  {
    pp := null;
    p := top;
    P, c := Leaf, l;
    while p.right != null
      invariant c.Br? && p == c.n && Linked(c) && l == PlugRight(P, c)
      invariant pp == (if P.Leaf? then null else MaxNode(P))
      invariant (pp == null ==> p == top) && (pp != null ==> pp.right == p)
      decreases c
    {
      pp := p;
      PlugRightAssoc(P, Br(c.l, c.n, Leaf), c.r);
      PlugRightDistinct(P, Br(c.l, c.n, Leaf));
      P, c := PlugRight(P, Br(c.l, c.n, Leaf)), c.r;
      p := p.right;
    }
  }

  /** The walk down the left links of a subtree in `splay_first`: the
      mirror image of `FindMax`. */
  method FindMin(top: Node, ghost l: Tree) returns (pp: Node?, p: Node, ghost P: Tree, ghost c: Tree)
    requires l.Br? && top == l.n && Linked(l)
    ensures p.left == null && (pp == null ==> p == top) && (pp != null ==> pp.left == p)
    ensures c.Br? && c.l.Leaf? && p == c.n && Linked(c) && l == PlugLeft(P, c)
    ensures pp == (if P.Leaf? then null else MinNode(P))
  {
    pp := null;
    p := top;
    P, c := Leaf, l;
    while p.left != null
      invariant c.Br? && p == c.n && Linked(c) && l == PlugLeft(P, c)
      invariant pp == (if P.Leaf? then null else MinNode(P))
      invariant (pp == null ==> p == top) && (pp != null ==> pp.left == p)
      decreases c
    {
      pp := p;
      PlugLeftAssoc(P, Br(Leaf, c.n, c.r), c.l);
      PlugLeftDistinct(P, Br(Leaf, c.n, c.r));
      P, c := PlugLeft(P, Br(Leaf, c.n, c.r)), c.l;
      p := p.left;
    }
  }

  /** How the root's left subtree of a splayed tree splits at its rightmost
      node `c.n`: the pieces are disjoint and removing the maximum leaves the
      open part `P` with the rightmost node's left subtree in its hole. */
  lemma SpliceParts(s: Tree, P: Tree, c: Tree)
    requires s.Br? && Distinct(s) && s.l == PlugRight(P, c) && c.Br? && c.r.Leaf?
    ensures Distinct(P) && Distinct(c.l) && Distinct(PlugRight(P, c)) && Distinct(PlugRight(P, c.l))
    ensures Nodes(P) !! Nodes(c) && Nodes(P) !! Nodes(c.l) && Nodes(P) !! Nodes(s.r)
    ensures c.n !in Nodes(P) && c.n !in Nodes(c.l) && c.n !in Nodes(s.r) && c.n != s.n
    ensures s.n !in Nodes(P) && s.n !in Nodes(c.l) && s.n !in Nodes(s.r)
    ensures P.Br? ==> Root(s.l) == Root(P)
    ensures MaxNode(s.l) == c.n && RemoveMax(s.l) == PlugRight(P, c.l)
  {
    PlugRightDistinct(P, c);
    PlugRightDistinct(P, c.l);
    RemoveMaxPlug(P, c);
  }

  /** The pointer writes that end `splay_delete`: `p`, the rightmost node
      below the open tree `P` with left subtree `a`, is cut out (`a` taking
      its place under its parent `pp`) and adopts the root's subtrees, the
      rest of the left one and the right one `b`. */
  method Splice(r: Node, pp: Node?, p: Node, ghost P: Tree, ghost a: Tree, ghost b: Tree)
    requires Distinct(P) && OpenR(P) && Linked(a) && Linked(b)
    requires pp == (if P.Leaf? then null else MaxNode(P))
    requires p.left == Root(a) && r.right == Root(b) && (P.Br? ==> r.left == Root(P))
    requires p !in Nodes(P) && p !in Nodes(a) && p !in Nodes(b) && p != r
    requires r !in Nodes(P) && r !in Nodes(a) && r !in Nodes(b)
    requires Nodes(P) !! Nodes(a) && Nodes(P) !! Nodes(b)
    modifies r, p, pp
    ensures OpenR(P) && Linked(a) && Linked(b)
    ensures P.Br? ==> MaxNode(P).right == Root(a)
    ensures p.left == Root(PlugRight(P, a)) && p.right == Root(b)
  {
    assert HoleR(P) == (if P.Leaf? then {} else {pp});
    if pp != null {
      pp.right := p.left;
      p.left := r.left;
      r.left := p;
    }
    p.right := r.right;
  }

  /** `splay_insert` on the root pointer: the node's links are cleared, the
      tree is splayed towards its key, and unless that key is present the
      node is grafted in as the new root. */
  method InsertAt(root: Node?, node: Node, ghost t: Tree) returns (r: Node)
    requires root == Root(t) && Linked(t) && Bst(t) && node !in Nodes(t)
    modifies Nodes(t), node
    ensures r == Root(Operations.Insert(t, node)) && Linked(Operations.Insert(t, node))
    ensures HasKey(t, node.key) ==> node.left == null && node.right == null
  {
    NodesAllocated(t);
    InitNode(node);
    if root == null {
      return node;
    }
    BstIsDistinct(t);
    r := Splay(root, node.key, t);
    TopDown.SplayFindsKey(t, node.key);
    TopDown.SplayKeepsElems(t, node.key);
    ghost var s := TopDown.Splay(t, node.key);
    if r.key == node.key {
      return;
    }
    BstIsDistinct(s);
    Graft(node, r, s);
    r := node;
  }

  /** `splay_delete` on the root pointer: the tree is splayed towards `q`
      and a matching root is removed. */
  method DeleteAt(root: Node?, q: int, ghost t: Tree) returns (r: Node?)
    requires root == Root(t) && Linked(t) && Bst(t)
    modifies Nodes(t)
    ensures r == Root(Operations.Delete(t, q)) && Linked(Operations.Delete(t, q))
  {
    if root == null {
      return null;
    }
    BstIsDistinct(t);
    r := Splay(root, q, t);
    TopDown.SplayKeepsElems(t, q);
    ghost var s := TopDown.Splay(t, q);
    if r.key != q {
      return;
    }
    if r.left == null {
      assert Linked(s.r);
      r := r.right;
    } else {
      BstIsDistinct(s);
      r := RemoveRoot(r, s);
    }
  }

  /** `splay_search` on the root pointer: splay towards `q`; the new root is
      the answer when it matches. */
  method SearchAt(root: Node?, q: int, ghost t: Tree) returns (r: Node, found: Node?)
    requires t.Br? && root == Root(t) && Linked(t) && Distinct(t)
    modifies Nodes(t)
    ensures r == Root(TopDown.Splay(t, q)) && Linked(TopDown.Splay(t, q))
    ensures found == Operations.Search(t, q)
  {
    r := Splay(root, q, t);
    if r.key == q {
      found := r;
    } else {
      found := null;
    }
  }

  /** `splay_search_lower` on the root pointer: splay towards `q`; a root
      that does not follow `q` is the answer, otherwise the rightmost node of
      its left subtree, found by a walk. */
  method SearchLowerAt(root: Node?, q: int, ghost t: Tree) returns (r: Node, found: Node?)
    requires t.Br? && root == Root(t) && Linked(t) && Distinct(t)
    modifies Nodes(t)
    ensures r == Root(TopDown.Splay(t, q)) && Linked(TopDown.Splay(t, q))
    ensures found == Operations.SearchLower(t, q)
  {
    r := Splay(root, q, t);
    ghost var s := TopDown.Splay(t, q);
    if r.key <= q {
      return r, r;
    }
    if r.left == null {
      return r, null;
    }
    NodesAllocated(s);
    var cur: Node := r.left;
    ghost var c := s.l;
    while cur.right != null
      modifies {}
      invariant c.Br? && cur == c.n && Linked(c) && MaxNode(c) == MaxNode(s.l)
      decreases c
    {
      cur := cur.right;
      c := c.r;
    }
    found := cur;
  }

  /** `splay_search_greater` on the root pointer: the mirror image of
      `SearchLowerAt`. */
  method SearchGreaterAt(root: Node?, q: int, ghost t: Tree) returns (r: Node, found: Node?)
    requires t.Br? && root == Root(t) && Linked(t) && Distinct(t)
    modifies Nodes(t)
    ensures r == Root(TopDown.Splay(t, q)) && Linked(TopDown.Splay(t, q))
    ensures found == Operations.SearchGreater(t, q)
  {
    r := Splay(root, q, t);
    ghost var s := TopDown.Splay(t, q);
    if r.key >= q {
      return r, r;
    }
    if r.right == null {
      return r, null;
    }
    NodesAllocated(s);
    var cur: Node := r.right;
    ghost var c := s.r;
    while cur.left != null
      modifies {}
      invariant c.Br? && cur == c.n && Linked(c) && MinNode(c) == MinNode(s.r)
      decreases c
    {
      cur := cur.left;
      c := c.l;
    }
    found := cur;
  }

  /** How a tree splits at its leftmost node `c.n` below the open tree `P`:
      the pieces are disjoint, and lifting that node leaves `P` with the
      node's right subtree in its hole. */
  lemma LiftFirstParts(t: Tree, P: Tree, c: Tree)
    requires Distinct(t) && t == PlugLeft(P, c) && c.Br? && c.l.Leaf?
    ensures Distinct(P) && Distinct(c.r) && Distinct(PlugLeft(P, c)) && Distinct(PlugLeft(P, c.r))
    ensures Nodes(P) !! Nodes(c) && Nodes(P) !! Nodes(c.r)
    ensures c.n !in Nodes(P) && c.n !in Nodes(c.r)
    ensures P.Br? ==> Root(t) == Root(P)
    ensures MinNode(t) == c.n && RemoveMin(t) == PlugLeft(P, c.r)
  {
    PlugLeftDistinct(P, c);
    PlugLeftDistinct(P, c.r);
    RemoveMinPlug(P, c);
  }

  /** The mirror image of `LiftFirstParts`. */
  lemma LiftLastParts(t: Tree, P: Tree, c: Tree)
    requires Distinct(t) && t == PlugRight(P, c) && c.Br? && c.r.Leaf?
    ensures Distinct(P) && Distinct(c.l) && Distinct(PlugRight(P, c)) && Distinct(PlugRight(P, c.l))
    ensures Nodes(P) !! Nodes(c) && Nodes(P) !! Nodes(c.l)
    ensures c.n !in Nodes(P) && c.n !in Nodes(c.l)
    ensures P.Br? ==> Root(t) == Root(P)
    ensures MaxNode(t) == c.n && RemoveMax(t) == PlugRight(P, c.l)
  {
    PlugRightDistinct(P, c);
    PlugRightDistinct(P, c.l);
    RemoveMaxPlug(P, c);
  }

  /** The pointer writes of `splay_first` with `to_splay`: the leftmost node
      `p` (below the open tree `P`, whose hole is at its parent `pp`) is cut
      out, its right subtree `b` taking its place, and the old root becomes
      its right child. */
  method LiftFirst(root: Node, pp: Node, p: Node, ghost P: Tree, ghost b: Tree)
    requires P.Br? && Distinct(P) && OpenL(P) && Linked(b) && pp == MinNode(P) && root == Root(P)
    requires p.right == Root(b) && p !in Nodes(P) && p !in Nodes(b) && Nodes(P) !! Nodes(b)
    modifies pp, p
    ensures OpenL(P) && Linked(b) && MinNode(P).left == Root(b)
    ensures p.right == root && p.left == old(p.left)
  {
    assert HoleL(P) == {pp};
    pp.left := p.right;
    p.right := root;
  }

  /** The pointer writes of `splay_last` with `to_splay`: the mirror image of
      `LiftFirst`. */
  method LiftLast(root: Node, pp: Node, p: Node, ghost P: Tree, ghost b: Tree)
    requires P.Br? && Distinct(P) && OpenR(P) && Linked(b) && pp == MaxNode(P) && root == Root(P)
    requires p.left == Root(b) && p !in Nodes(P) && p !in Nodes(b) && Nodes(P) !! Nodes(b)
    modifies pp, p
    ensures OpenR(P) && Linked(b) && MaxNode(P).right == Root(b)
    ensures p.left == root && p.right == old(p.right)
  {
    assert HoleR(P) == {pp};
    pp.right := p.left;
    p.left := root;
  }

  /** `splay_first` on the root pointer: a walk down the left links finds the
      least node; with `toSplay` it is lifted to the root. Without `toSplay`
      no link changes. */
  method FirstAt(root: Node?, toSplay: bool, ghost t: Tree) returns (r: Node?, m: Node?)
    requires root == Root(t) && Linked(t) && Distinct(t)
    modifies if toSplay then Nodes(t) else {}
    ensures t.Leaf? ==> r == null && m == null
    ensures t.Br? ==> m == MinNode(t)
    ensures t.Br? ==> var u := if toSplay then Operations.PromoteMin(t) else t; r == Root(u) && Linked(u)
    ensures !toSplay ==> r == root
  {
    if root == null {
      return null, null;
    }
    NodesAllocated(t);
    var pp, p, P, c := FindMin(root, t);
    LiftFirstParts(t, P, c);
    if pp != null && toSplay {
      LinkedPlugLeft(P, c);
      assert Linked(c.r);
      LiftFirst(root, pp, p, P, c.r);
      LinkedPlugLeft(P, c.r);
      return p, p;
    }
    return root, p;
  }

  /** `splay_last` on the root pointer: the mirror image of `FirstAt`. */
  method LastAt(root: Node?, toSplay: bool, ghost t: Tree) returns (r: Node?, m: Node?)
    requires root == Root(t) && Linked(t) && Distinct(t)
    modifies if toSplay then Nodes(t) else {}
    ensures t.Leaf? ==> r == null && m == null
    ensures t.Br? ==> m == MaxNode(t)
    ensures t.Br? ==> var u := if toSplay then Operations.PromoteMax(t) else t; r == Root(u) && Linked(u)
    ensures !toSplay ==> r == root
  {
    if root == null {
      return null, null;
    }
    NodesAllocated(t);
    var pp, p, P, c := FindMax(root, t);
    LiftLastParts(t, P, c);
    if pp != null && toSplay {
      LinkedPlugRight(P, c);
      assert Linked(c.l);
      LiftLast(root, pp, p, P, c.l);
      LinkedPlugRight(P, c.l);
      return p, p;
    }
    return root, p;
  }

  /** `struct splay_tree`: the root pointer, with the ghost shape the nodes
      reachable from it are linked as. */
  class SplayTree {
    var root: Node?
    ghost var shape: Tree

    /** The root realises a linked search tree. */
    ghost predicate Valid()
      reads this, Nodes(shape)
    {
      root == Root(shape) && Linked(shape) && Bst(shape)
    }

    /** `splay_tree_init`: an empty tree. */
    constructor Init()
      ensures Valid() && shape == Leaf && root == null
    {
      root := null;
      shape := Leaf;
    }

    /** `splay_insert`: the node is linked in as `Operations.Insert` says;
        a node whose key is present is left out, with both links cleared. */
    method Insert(node: Node)
      requires Valid() && node !in Nodes(shape)
      modifies this, Nodes(shape), node
      ensures Valid()
      ensures shape == Operations.Insert(old(shape), node)
      ensures HasKey(old(shape), node.key) ==>
        Elems(shape) == Elems(old(shape)) && Nodes(shape) == Nodes(old(shape)) &&
        node.left == null && node.right == null
      ensures !HasKey(old(shape), node.key) ==>
        Nodes(shape) == Nodes(old(shape)) + {node} && root == node
    {
      ghost var t := shape;
      Operations.InsertCorrect(t, node);
      root := InsertAt(root, node, t);
      shape := Operations.Insert(t, node);
    }

    /** `splay_delete`: the node with key `q`, if any, is removed as
        `Operations.Delete` says. */
    method Delete(q: int)
      requires Valid()
      modifies this, Nodes(shape)
      ensures Valid()
      ensures shape == Operations.Delete(old(shape), q)
      ensures Nodes(shape) == set m | m in Nodes(old(shape)) && m.key != q
      ensures !HasKey(old(shape), q) ==> Elems(shape) == Elems(old(shape))
    {
      ghost var t := shape;
      Operations.DeleteCorrect(t, q);
      root := DeleteAt(root, q, t);
      shape := Operations.Delete(t, q);
    }

    /** `splay_search`: the tree is splayed towards `q` (a non-empty tree
        is required: the source compares the new root unconditionally); the
        node with key `q` is returned if there is one. */
    method Search(q: int) returns (r: Node?)
      requires Valid() && shape.Br?
      modifies this, Nodes(shape)
      ensures Valid() && shape == TopDown.Splay(old(shape), q)
      ensures r == Operations.Search(old(shape), q)
      ensures Elems(shape) == Elems(old(shape)) && Nodes(shape) == Nodes(old(shape))
      ensures r != null <==> HasKey(old(shape), q)
      ensures r != null ==> r == root && r.key == q
    {
      ghost var t := shape;
      Operations.SearchCorrect(t, q);
      BstIsDistinct(t);
      TopDown.SplayKeepsElems(t, q);
      root, r := SearchAt(root, q, t);
      shape := TopDown.Splay(t, q);
    }

    /** `splay_search_lower`: the greatest node not following `q`, if any. */
    method SearchLower(q: int) returns (r: Node?)
      requires Valid() && shape.Br?
      modifies this, Nodes(shape)
      ensures Valid() && shape == TopDown.Splay(old(shape), q)
      ensures r == Operations.SearchLower(old(shape), q)
      ensures Elems(shape) == Elems(old(shape)) && Nodes(shape) == Nodes(old(shape))
      ensures r == null <==> Above(old(shape), q)
      ensures r != null ==>
        r in Nodes(shape) && r.key <= q &&
        forall m :: m in Nodes(shape) && m.key <= q ==> m.key <= r.key
    {
      ghost var t := shape;
      Operations.SearchLowerCorrect(t, q);
      BstIsDistinct(t);
      TopDown.SplayKeepsElems(t, q);
      root, r := SearchLowerAt(root, q, t);
      shape := TopDown.Splay(t, q);
    }

    /** `splay_search_greater`: the least node not preceding `q`, if any. */
    method SearchGreater(q: int) returns (r: Node?)
      requires Valid() && shape.Br?
      modifies this, Nodes(shape)
      ensures Valid() && shape == TopDown.Splay(old(shape), q)
      ensures r == Operations.SearchGreater(old(shape), q)
      ensures Elems(shape) == Elems(old(shape)) && Nodes(shape) == Nodes(old(shape))
      ensures r == null <==> Below(old(shape), q)
      ensures r != null ==>
        r in Nodes(shape) && q <= r.key &&
        forall m :: m in Nodes(shape) && q <= m.key ==> r.key <= m.key
    {
      ghost var t := shape;
      Operations.SearchGreaterCorrect(t, q);
      BstIsDistinct(t);
      TopDown.SplayKeepsElems(t, q);
      root, r := SearchGreaterAt(root, q, t);
      shape := TopDown.Splay(t, q);
    }

    /** `splay_first`: the least node, lifted to the root when `toSplay`;
        without `toSplay` nothing changes. */
    method First(toSplay: bool) returns (m: Node?)
      requires Valid()
      modifies if toSplay then {this} + Nodes(shape) else {}
      ensures Valid()
      ensures old(shape).Leaf? ==> m == null && shape == old(shape)
      ensures old(shape).Br? ==>
        m == MinNode(old(shape)) &&
        shape == (if toSplay then Operations.PromoteMin(old(shape)) else old(shape))
      ensures Elems(shape) == Elems(old(shape)) && Nodes(shape) == Nodes(old(shape))
      ensures m != null ==> m in Nodes(shape) && forall n :: n in Nodes(shape) ==> m.key <= n.key
      ensures toSplay && m != null ==> root == m && m.left == null
    {
      ghost var t := shape;
      BstIsDistinct(t);
      if t.Br? {
        MinNodeIsLeast(t);
      }
      var r;
      r, m := FirstAt(root, toSplay, t);
      if toSplay {
        root := r;
        if t.Br? {
          Operations.PromoteMinCorrect(t);
          shape := Operations.PromoteMin(t);
        }
      }
    }

    /** `splay_last`: the greatest node, lifted to the root when `toSplay`;
        without `toSplay` nothing changes. */
    method Last(toSplay: bool) returns (m: Node?)
      requires Valid()
      modifies if toSplay then {this} + Nodes(shape) else {}
      ensures Valid()
      ensures old(shape).Leaf? ==> m == null && shape == old(shape)
      ensures old(shape).Br? ==>
        m == MaxNode(old(shape)) &&
        shape == (if toSplay then Operations.PromoteMax(old(shape)) else old(shape))
      ensures Elems(shape) == Elems(old(shape)) && Nodes(shape) == Nodes(old(shape))
      ensures m != null ==> m in Nodes(shape) && forall n :: n in Nodes(shape) ==> n.key <= m.key
      ensures toSplay && m != null ==> root == m && m.right == null
    {
      ghost var t := shape;
      BstIsDistinct(t);
      if t.Br? {
        MaxNodeIsGreatest(t);
      }
      var r;
      r, m := LastAt(root, toSplay, t);
      if toSplay {
        root := r;
        if t.Br? {
          Operations.PromoteMaxCorrect(t);
          shape := Operations.PromoteMax(t);
        }
      }
    }
  }
}

