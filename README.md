# Top-down splay tree, modelled in Dafny

This project models the engine of an intrusive, top-down splay tree
(`splaytree/splaytree.c`). A caller embeds a node (two links, `left` and
`right`) in its own record. The tree holds only a root pointer. A caller's
comparator orders the nodes. Insert, delete and the three searches first
*splay*: one top-down pass moves the searched-for position to the root.
`splay_first` and `splay_last` do not splay; they walk the links and may lift
the extreme node to the root. The splay pass does this with
zig-zig rotations and by linking passed nodes into two assembled side trees
that hang off a local header node.

The model has four modules:

- `Trees` (trees.dfy) holds the shape layer:
  - the heap `Node` class with mutable `left`/`right` links and a constant `key`;
  - the ghost shape `Tree` that describes how nodes are linked, and `Linked` (the heap realises a shape);
  - in-order sequences (`Elems`), node sets, search-tree order (`Bst`), extremes (`MinNode`, `MaxNode`, `RemoveMin`, `RemoveMax`);
  - trees with a hole (`PlugRight`, `PlugLeft`, `OpenR`, `OpenL`), which describe the assembled side trees of the splay and the position a pointer walk has reached.
- `TopDown` (topdown.dfy) defines the rotations and the splay pass as functions on shapes, taking exactly the decisions of the loop in `_splay`. It proves what a splay achieves.
- `Operations` (operations.dfy) defines the shape each public operation leaves and the node it returns, and proves what they mean: membership, bounds, search-tree order, and how the operations compose.
- `Engine` (engine.dfy) is the imperative engine over heap nodes:
  - the rotations, the splay loop (with its header node and the `left_t`/`right_t` hole pointers) and the pointer walks of delete, search and first/last;
  - the `SplayTree` class holding the root pointer.

  Each method is proved to leave the heap linked exactly as the corresponding shape function says.

The comparator is modelled as the order of the integer `key` of each node:
`func(a, b)` is positive, zero or negative as `a.key` is greater than, equal
to or less than `b.key`. The query node passed to splay, search and delete is
modelled by its key.

## Model

| member | source | states |
|---|---|---|
| Trees.BstIffOrdered | splaytree/splaytree.c:59-101 | search-tree order holds exactly when the in-order node sequence is strictly ascending in key |
| Trees.SameElemsKeepBst | splaytree/splaytree.c:59-101 | any relinking that keeps the in-order sequence keeps the node set and search-tree order |
| Trees.MinNodeIsLeast | splaytree/splaytree.c:192-204 | the node reached by following left links from the root has the least key of the tree |
| Trees.MaxNodeIsGreatest | splaytree/splaytree.c:206-218 | the node reached by following right links from the root has the greatest key of the tree |
| Trees.RemoveMaxPlug | splaytree/splaytree.c:143-153 | cutting out the rightmost node of a tree split at the walk's position only changes the part below the walk |
| Trees.LinkedPlugRight | splaytree/splaytree.c:96 | a right-open tree (the left assembled tree, or the part above a delete or `splay_last` walk) whose hole is filled with a linked tree is linked exactly when the hole's link points at the filling |
| Trees.LinkedPlugLeft | splaytree/splaytree.c:97 | the same for a left-open tree (the right assembled tree, or the part above a `splay_first` walk) |
| Trees.OpenPlugLeft | splaytree/splaytree.c:79-81 | hanging a piece in the hole of the right assembled tree gives a left-open tree exactly when both are left-open and the hole's link points at the piece |
| Trees.OpenPlugRight | splaytree/splaytree.c:90-92 | hanging a piece in the hole of the left assembled tree gives a right-open tree exactly when both are right-open and the hole's link points at the piece |
| TopDown.RotateRight | splaytree/splaytree.c:41-46 | the left child becomes the root, the old root becomes its right child, and the in-order sequence and node set are unchanged |
| TopDown.RotateLeft | splaytree/splaytree.c:48-53 | the right child becomes the root, the old root becomes its left child, and the in-order sequence and node set are unchanged |
| TopDown.RotateRightDistinct | splaytree/splaytree.c:41-46 | a right rotation of a tree with no repeated node has no repeated node |
| TopDown.RotateLeftDistinct | splaytree/splaytree.c:48-53 | a left rotation of a tree with no repeated node has no repeated node |
| TopDown.Assemble | splaytree/splaytree.c:96-99 | the stopping node becomes the root; its left subtree fills the hole of the left assembled tree, which becomes its left child, and its right subtree fills the hole of the right assembled tree, which becomes its right child |
| TopDown.AssembleElems | splaytree/splaytree.c:96-100 | the final re-assembly keeps in-order: left assembled tree, stopping subtree, right assembled tree |
| TopDown.SplayFrom | splaytree/splaytree.c:68-99 | the loop's decisions from a given state: stop and re-assemble at an equal node or a missing child; otherwise, when the child towards the query lies beyond the query too, rotate it up (and stop if the rotated root has no child towards the query); then link the current node, with its other subtree, into the opposite assembled tree and descend; the result is never empty |
| TopDown.Splay | splaytree/splaytree.c:59-101 | an empty tree stays empty; otherwise one pass from the root with two empty assembled trees |
| TopDown.SplayFromElems | splaytree/splaytree.c:68-100 | a splay pass from any intermediate state yields the in-order sequence left assembled ++ current ++ right assembled |
| TopDown.SplayFromSplits | splaytree/splaytree.c:68-100 | if the assembled trees lie on the correct sides of the query, a pass ends at a root that equals the query, or follows it with everything on its left preceding the query, or precedes it with everything on its right following it |
| TopDown.SplayKeepsElems | splaytree/splaytree.c:59-101 | splaying keeps the in-order sequence; on a search tree it keeps the node set and search-tree order |
| TopDown.SplaySplits | splaytree/splaytree.c:59-101 | after splaying a non-empty search tree, a root greater than the query has a left subtree entirely below it, and a root less than the query has a right subtree entirely above it |
| TopDown.SplayFindsKey | splaytree/splaytree.c:59-101 | after splaying a non-empty search tree, the root equals the query exactly when some node does |
| Operations.Insert | splaytree/splaytree.c:110-129 | an empty tree becomes the new node alone; otherwise the tree is splayed, kept as splayed when the root's key equals the new key, and grafted below the new node when not |
| Operations.Graft | splaytree/splaytree.c:117-125 | the new node becomes the root: a following splayed root becomes its right child with its right subtree, handing its left subtree to the new node; a preceding one becomes its left child with its left subtree, handing over its right subtree |
| Operations.InsertCorrect | splaytree/splaytree.c:110-129 | insertion keeps search-tree order; with a duplicate key it keeps the same nodes in the same order; otherwise it adds exactly the new node and makes it the root |
| Operations.GraftCorrect | splaytree/splaytree.c:117-128 | hanging the splayed root (a neighbour of the new key) below the new node keeps search-tree order, adds exactly that node and makes it the root |
| Operations.RemoveRoot | splaytree/splaytree.c:137-153 | a root without a left subtree is replaced by its right subtree; otherwise the greatest node of the left subtree becomes the root over the rest of the left subtree and the old right subtree |
| Operations.RemoveMaxCorrect | splaytree/splaytree.c:142-153 | cutting out the greatest node leaves a search tree of exactly the other nodes, all below it |
| Operations.RemoveRootCorrect | splaytree/splaytree.c:137-154 | replacing the root by its right subtree, or by the greatest node of its left subtree, leaves a search tree of exactly the other nodes |
| Operations.Delete | splaytree/splaytree.c:131-155 | an empty tree stays empty; otherwise the tree is splayed and its root removed when its key equals the query, and kept as splayed when not |
| Operations.DeleteCorrect | splaytree/splaytree.c:131-155 | deletion keeps search-tree order and removes exactly the nodes equal to the query; with no such node the in-order sequence is unchanged, and on an empty tree the tree stays empty |
| Operations.Search | splaytree/splaytree.c:157-164 | the splayed root when its key equals the query, null otherwise |
| Operations.SearchCorrect | splaytree/splaytree.c:157-164 | search returns non-null exactly when a node equals the query; that node is in the tree, equals the query, and is the new root |
| Operations.SearchLower | splaytree/splaytree.c:166-177 | the splayed root when its key is not above the query; otherwise the greatest node of its left subtree, or null when that subtree is empty |
| Operations.SearchLowerCorrect | splaytree/splaytree.c:166-177 | returns the node with the greatest key not above the query; returns null exactly when every key is above it |
| Operations.SearchGreater | splaytree/splaytree.c:179-190 | the splayed root when its key is not below the query; otherwise the least node of its right subtree, or null when that subtree is empty |
| Operations.SearchGreaterCorrect | splaytree/splaytree.c:179-190 | returns the node with the least key not below the query; returns null exactly when every key is below it |
| Operations.DeleteThenSearch | splaytree/splaytree.c:131-164 | after deleting a key, searching the (non-empty) result for it returns null |
| Operations.InsertThenSearch | splaytree/splaytree.c:110-164 | after an insertion, searching for the key finds a node with that key: the new node itself unless the key was already present |
| Operations.PromoteMin | splaytree/splaytree.c:198-202 | lifting the leftmost node keeps the in-order sequence; the leftmost node becomes the root with no left child |
| Operations.PromoteMax | splaytree/splaytree.c:212-216 | lifting the rightmost node keeps the in-order sequence; the rightmost node becomes the root with no right child |
| Operations.PromoteMinCorrect | splaytree/splaytree.c:192-204 | lifting keeps search-tree order and the node set, and the new root's key is the least |
| Operations.PromoteMaxCorrect | splaytree/splaytree.c:206-218 | lifting keeps search-tree order and the node set, and the new root's key is the greatest |
| Engine.RightRotate | splaytree/splaytree.c:41-46 | returns the former left child, and the heap is linked as the right-rotated shape |
| Engine.LeftRotate | splaytree/splaytree.c:48-53 | returns the former right child, and the heap is linked as the left-rotated shape |
| Engine.InitNode | splaytree/splaytree.c:55-57 | both links of the node are null |
| Engine.RotateCurrentRight | splaytree/splaytree.c:75-78 | the zig-zig rotation relinks the current subtree as its right rotation and leaves the assembled trees and header intact |
| Engine.RotateCurrentLeft | splaytree/splaytree.c:85-88 | the mirror rotation, with the same guarantees |
| Engine.LinkRight | splaytree/splaytree.c:79-81 | the current root and its right subtree join the hole of the right assembled tree, which moves to the current root's left link; the pass descends left |
| Engine.LinkLeft | splaytree/splaytree.c:90-92 | the current root and its left subtree join the hole of the left assembled tree, which moves to the current root's right link; the pass descends right |
| Engine.FillLeftHole | splaytree/splaytree.c:96 | the current root's left subtree fills the left assembled tree, which is then linked and hangs from the header |
| Engine.FillRightHole | splaytree/splaytree.c:97 | the current root's right subtree fills the right assembled tree, which is then linked and hangs from the header |
| Engine.Reassemble | splaytree/splaytree.c:96-100 | the final writes link the heap as the assembled shape, rooted at the current node |
| Engine.Splay | splaytree/splaytree.c:59-101 | returns null on an empty tree; otherwise returns the root of the shape `TopDown.Splay` computes, with the heap linked as that shape |
| Engine.Graft | splaytree/splaytree.c:117-125 | the new node and the splayed root are relinked as the grafted shape |
| Engine.FindMax | splaytree/splaytree.c:142-145 | the walk ends at the rightmost node, with its parent (or null at the top) as the hole of the part above it |
| Engine.FindMin | splaytree/splaytree.c:194-197 | the walk ends at the leftmost node, with its parent (or null at the top) as the hole of the part above it |
| Engine.SpliceParts | splaytree/splaytree.c:146-153 | the pieces the splice relinks are pairwise disjoint, and cutting out the rightmost node leaves its left subtree in the walk's hole |
| Engine.Splice | splaytree/splaytree.c:146-153 | the rightmost node of the left subtree takes the root's place, adopting the rest of the left subtree and the root's right subtree |
| Engine.RemoveRoot | splaytree/splaytree.c:137-154 | removing a matching root with a left subtree links the heap as the shape `Operations.RemoveRoot` computes |
| Engine.InsertAt | splaytree/splaytree.c:110-129 | the heap is linked as `Operations.Insert`'s shape, rooted at the returned node; a duplicate key leaves the new node with null links |
| Engine.DeleteAt | splaytree/splaytree.c:131-155 | the heap is linked as `Operations.Delete`'s shape, rooted at the returned node |
| Engine.SearchAt | splaytree/splaytree.c:157-164 | the heap is splayed towards the query, and the returned node is `Operations.Search`'s answer |
| Engine.SearchLowerAt | splaytree/splaytree.c:166-177 | the heap is splayed, and the walk returns `Operations.SearchLower`'s answer |
| Engine.SearchGreaterAt | splaytree/splaytree.c:179-190 | the heap is splayed, and the walk returns `Operations.SearchGreater`'s answer |
| Engine.LiftFirstParts | splaytree/splaytree.c:192-204 | at the end of the walk, the least node is the one reached, and removing it leaves its right subtree in the walk's hole |
| Engine.LiftLastParts | splaytree/splaytree.c:206-218 | at the end of the walk, the greatest node is the one reached, and removing it leaves its left subtree in the walk's hole |
| Engine.LiftFirst | splaytree/splaytree.c:198-202 | the leftmost node's right subtree replaces it under its parent, and the old root becomes its right child |
| Engine.LiftLast | splaytree/splaytree.c:212-216 | the rightmost node's left subtree replaces it under its parent, and the old root becomes its left child |
| Engine.FirstAt | splaytree/splaytree.c:192-204 | returns null on an empty tree and otherwise the leftmost node; with `toSplay` the heap is linked as `Operations.PromoteMin`'s shape; without it nothing may be written |
| Engine.LastAt | splaytree/splaytree.c:206-218 | returns null on an empty tree and otherwise the rightmost node; with `toSplay` the heap is linked as `Operations.PromoteMax`'s shape; without it nothing may be written |
| Engine.SplayTree.Init | splaytree/splaytree.c:106-108 | an empty, valid tree |
| Engine.SplayTree.Insert | splaytree/splaytree.c:110-129 | keeps a valid search tree; a new key adds exactly the node, as root; a duplicate keeps the node set and the in-order sequence, and leaves the node unlinked with null links |
| Engine.SplayTree.Delete | splaytree/splaytree.c:131-155 | keeps a valid search tree of exactly the nodes not equal to the query; an absent key changes no order |
| Engine.SplayTree.Search | splaytree/splaytree.c:157-164 | on a non-empty tree: the tree is splayed with its node set and in-order sequence unchanged; the result is non-null exactly when the key is present, and it is then the root and equals the query |
| Engine.SplayTree.SearchLower | splaytree/splaytree.c:166-177 | on a non-empty tree: the greatest node not above the query, null exactly when all nodes are above it; node set and in-order sequence unchanged |
| Engine.SplayTree.SearchGreater | splaytree/splaytree.c:179-190 | on a non-empty tree: the least node not below the query, null exactly when all nodes are below it; node set and in-order sequence unchanged |
| Engine.SplayTree.First | splaytree/splaytree.c:192-204 | null on an empty tree, otherwise the least node; with `toSplay` it becomes the root with no left child; node set and in-order sequence unchanged; without `toSplay` the frame is empty |
| Engine.SplayTree.Last | splaytree/splaytree.c:206-218 | null on an empty tree, otherwise the greatest node; with `toSplay` it becomes the root with no right child; node set and in-order sequence unchanged; without `toSplay` the frame is empty |

## Left out

- Sibling pointers (`prev`/`next`, under `_SPLAY_SIBLING_POINTER`) are not modelled. Neither is the secondary in-order list they maintain.
- `splay_prev` and `splay_next` are declared in `splaytree/splaytree.h` but have no body in `splaytree/splaytree.c`. There is nothing to model.
- Randomised insertion and amortised (logarithmic) running time are not modelled. The model states what each operation computes, not how fast.
- `_get_entry` and the `INLINE` macro are not modelled. They are C embedding and inlining details with no effect on the links.
- The comparator is the integer order of `key`. Comparators that subtract keys and can overflow, and comparators that are not a strict total order, are not modelled.
- The query node: splay, delete and the searches take a query node in the source; the model passes its key. The comparator only reads keys.
- The header node `N`: `_splay` uses a stack-allocated header. The model allocates a fresh `Node` for it.
- Engine.SplayTree.Delete: the removed node keeps stale links, as in `splaytree/splaytree.c:137-153`. Its right link is unchanged. Its left link is also unchanged, except when the greatest node of its left subtree lies deeper than its left child: then the left link points at that node, the new root. The contract says nothing about the removed node's links.
- Engine.SplayTree.Insert, Engine.InsertAt and Operations.InsertCorrect: each requires the new node not to be in the tree already. Inserting a linked node would corrupt the tree, because `_init_splay_node` (`splaytree/splaytree.c:111`) clears its links and cuts off its subtrees.
- Engine.SplayTree.Search, Engine.SplayTree.SearchLower and Engine.SplayTree.SearchGreater: each requires a non-empty tree. On an empty tree the source passes a null root to the comparator.
- Engine.SplayTree.First and Engine.SplayTree.Last: without `toSplay` the method's frame is empty, so nothing is written. The model does not add a separate `unchanged` clause over the nodes.
- `3rd/rbtree/rbwrap.c`, `app/bench.cc`, `app/example.c` and `app/test.cc` are not part of this model. They are a comparison tree, a benchmark, an example and tests.
- Memory ownership is not modelled. The caller owns every node, and the engine neither allocates nor frees one.
