# AVL step recorder, modelled in Dafny

This project models the engine behind an AVL tree visualiser. The engine
inserts and deletes numeric keys in an AVL tree and records an animation
frame at each step of the work. The model covers the simulator class in
`utils/avl.ts` and the records in `types.ts`:

- the height and balance helpers;
- the two rotations;
- recursive insertion, with its four-case rebalance chosen by key comparison;
- `find`, `minValueNode` and recursive deletion, with its four-case
  rebalance chosen by the children's balance;
- the public `insert` and `delete` calls with their opening and closing
  frames;
- `calculateLayout`, which places nodes on a 0–100 canvas.

The engine mutates nodes in place. The model uses pure functions over an
immutable `Tree` datatype instead. Each recursive call returns its new
subtree together with the frames it recorded, as a `seq<Event>`. The global
id counter is an explicit argument that insertion hands back advanced.

Modules, one per concern:

- `Types` (types.dfy): nodes, laid-out nodes, frame tags and frames.
- `Shape` (shape.dfy):
  - `getHeight`, `updateHeight` and `getBalance`, all read from the STORED
    heights as in the source;
  - the invariants `Ordered`, `Consistent`, `Balanced` and `Valid`.
- `Drawing` (layout.dfy): `calculateLayout`.
- `Trace` (trace.dfy): counting and ordering facts about frame sequences.
- `Rotations` (rotate.dfy): `rightRotate`, `leftRotate`, and the four
  rebalancing cases that both insertion and deletion use.
- `Insertion` (insert.dfy): `insertRecursive` and its return path.
- `Deletion` (delete.dfy): `find`, `minValueNode`, `deleteRecursive` and its
  return path.
- `Simulator` (simulator.dfy): `insert`, `delete`, and replaying a sequence
  of them.

Every tree the engine returns is `Valid`:

- the search order holds;
- stored heights and balance factors agree with the structure;
- every node satisfies the AVL bound.

The recursive operations require a `Valid` input. The source dereferences
`node.left!` and `node.right!` on the strength of the stored heights, so on
an ill-formed tree it could crash; the model does not describe those trees.

A no-op still records frames. A duplicate insert records the opening frame,
a comparison frame at every node on the search path, "already exists" at
the key's node, a `check` frame at every ancestor, and the closing frame:
2·depth + 4 in all (utils/avl.ts:187, 217, 224, 235, 192). Deleting an
absent key records the opening frame and the not-found frame
(utils/avl.ts:287, 291).

## Model

| member | source | states |
|---|---|---|
| Shape.StoredHeight | utils/avl.ts:97-99 | getHeight: an absent subtree has height 0; for a node it reads the stored field, which Shape.StoredHeightIsHeight ties to the real height. |
| Shape.Balance | utils/avl.ts:105-107 | getBalance: 0 for an absent subtree, and on a consistent tree exactly the stored balance factor. |
| Shape.Refresh | utils/avl.ts:101-103 | updateHeight and the balance-factor assignment change only the node's two fields. Over consistent children the node becomes consistent, and its stored balance factor is what getBalance computes for it. |
| Shape.StoredHeightIsHeight | utils/avl.ts:97-107 | In a consistent tree, the height `getHeight` reads back is the real height of the structure. The stored balance factor equals `getBalance`. |
| Shape.RefreshMakesConsistent | utils/avl.ts:101-103 | Recomputing a node's height and balance factor over consistent children makes the node consistent, with height at least 1. |
| Shape.OrderedIffIncreasing | utils/avl.ts:20-26 | The recursive search-tree order holds exactly when the inorder key sequence is strictly increasing (both directions). |
| Drawing.Place | utils/avl.ts:28-49 | Placing a subtree loses no field (forgetting the coordinates gives it back), yields one x per node, and puts its root at y = 8 + 12·depth with each level 12 lower. |
| Drawing.Layout | utils/avl.ts:13-52 | Null maps to null, and a tree to a laid-out tree. Forgetting the coordinates gives back the input, so shape, ids, keys, heights and balance factors are preserved. The root is at y = 8 and each level adds 12. |
| Drawing.LayoutRanks | utils/avl.ts:28-40 | Each node's x is `(rank+1)/(n+1)*100` for its inorder rank among the n nodes. The xs strictly increase in inorder and lie strictly between 0 and 100. |
| Rotations.RotateRight | utils/avl.ts:109-143 | The left child moves up and the pivot becomes its right child, adopting the child's former right subtree. The three outer subtrees are untouched. The pivot is recomputed from its new children first, then the new top from the pivot's new height. Two `rotate` frames are recorded, on the pivot then on the new top, both with a comparison tree. |
| Rotations.RotateLeft | utils/avl.ts:145-179 | The mirror image of the right rotation. |
| Rotations.RotatedKeeps | utils/avl.ts:109-179 | In every rebalancing case, the rotations keep the inorder key sequence, the inorder id sequence, and the sets of keys, ids and (id, key) pairs, so no node is lost, created or relabelled. |
| Rotations.RotatedKeepsDistinctIds | utils/avl.ts:109-179 | No rebalancing case makes two nodes share an id. |
| Rotations.RotatedRepairs | utils/avl.ts:238-276 | Applied where its balance conditions hold, each case (none, LL, RR, LR, RL) yields a valid AVL tree, with the resulting height stated per case. |
| Insertion.InsertCase | utils/avl.ts:238-276 | On the return path of an insertion, the case chosen by comparing the inserted key with the heavy child's key, tried in the source's order LL, RR, LR, RL, is one whose rotations repair the node. |
| Insertion.RebalanceInsert | utils/avl.ts:228-277 | The return path at one ancestor rebuilds it as the chosen case's rotations applied to the recomputed node, and its first frame is `check` on that node. |
| Insertion.RebalanceInsertHeight | utils/avl.ts:228-277 | A node within the bound is only recomputed. A rotated node ends as high as its taller child, so the rebalanced subtree is as high as before the insertion. |
| Insertion.RebalanceInsertRepairs | utils/avl.ts:228-277 | The return path leaves a valid AVL tree with the same nodes in the same inorder positions. |
| Insertion.InsertRec | utils/avl.ts:196-279 | The result is a non-empty valid AVL tree whose keys are the old keys plus `v`. A duplicate returns the tree unchanged and leaves the counter alone. The height grows by at most one, and when it grows the root leans toward `v`. |
| Insertion.DuplicateFrames | utils/avl.ts:216-235 | Inserting a present key at depth d records 2·d + 2 frames: d + 2 `info` frames and d `check` frames. These are the comparison and "already exists" at its node, and the comparison and `check` at each ancestor. |
| Insertion.InsertAddsOneNode | utils/avl.ts:198-213 | A new key adds exactly one node: the pair (counter, `v`) joins the (id, key) pairs, every old pair survives, the node count grows by one and the counter by one. |
| Insertion.InsertKeepsIdsFresh | utils/avl.ts:4-5 | The counter's value is not yet in use. After insertion, ids are still distinct and all below the advanced counter. |
| Insertion.RebalanceInsertFrames | utils/avl.ts:235-276 | The exact frames of the return path at node n:<br>no rotation: `check`(n);<br>left-left: `check`(n), `imbalance`(n), `rotate`(n), `rotate`(n.left);<br>right-right: the mirror image;<br>left-right: `check`(n), `imbalance`(n), `rotate`(n.left), then the child's rotation `rotate`(n.left), `rotate`(n.left.right), then `imbalance`(n) again, then the pivot's rotation `rotate`(n), `rotate`(n.left.right);<br>right-left: the mirror image. |
| Insertion.RebalanceInsertTrace | utils/avl.ts:235-276 | Hence the counts: a `check` frame, then 0, 1 or 2 `imbalance` frames with 0, 2 or 5 `rotate` frames for no, single or double rotation. An `imbalance` frame precedes every `rotate` frame, exactly the `rotate` frames carry a comparison tree, and no `insert` frame is recorded. |
| Insertion.InsertTrace | utils/avl.ts:196-279 | Over a whole insertRecursive call, `imbalance` precedes `rotate` and only `rotate` frames carry a comparison tree. There is at most one rebalance: 0, 2 or 5 `rotate` frames with 0, 1 or 2 `imbalance` frames. A rebalance keeps the height. A duplicate rotates nothing. There is one `insert` frame, on the fresh id, exactly when the key is new. |
| Deletion.Find | utils/avl.ts:300-304 | On a search tree, `find` answers exactly whether the key is present. |
| Deletion.Leftmost | utils/avl.ts:373-379 | The leftmost node has no left child, is a node of the tree, and on a search tree holds the least key. |
| Deletion.MinValueNode | utils/avl.ts:373-379 | The loop stops at the leftmost node, which has no left child. |
| Deletion.DeleteCase | utils/avl.ts:346-368 | The case chosen from the node's and heavy child's balance is a rotation exactly when the node is outside the bound: a left case exactly when the balance exceeds 1, a right case exactly when it is below -1. |
| Deletion.DeleteCaseFits | utils/avl.ts:346-368 | After one child lost a node, the case chosen from the balance of the node and its heavy child (`>= 0`, `< 0`, `<= 0`, `> 0`, in the source's order) is one whose rotations repair the node. |
| Deletion.RebalanceDelete | utils/avl.ts:339-370 | The return path at one ancestor rebuilds it as the chosen case's rotations applied to the recomputed node, and its first frame is `check` on that node. |
| Deletion.RebalanceDeleteRepairs | utils/avl.ts:339-370 | The return path leaves a valid AVL tree with the same nodes in the same inorder positions. |
| Deletion.RebalanceDeleteHeight | utils/avl.ts:339-370 | A node within the bound is only recomputed. Otherwise the subtree ends as high as its taller child, or one higher. |
| Deletion.Unlink | utils/avl.ts:316-326 | A node with at most one child is replaced by that child (or by nothing), which is valid, lacks only the node's key, and is one level lower. |
| Deletion.DeleteRec | utils/avl.ts:306-371 | The result is a valid AVL tree whose keys are the old keys minus `v`. The height shrinks by at most one. An absent key returns the tree unchanged. |
| Deletion.HolderOfLeast | utils/avl.ts:327-335 | The least key of a search tree is held by its leftmost node, the one `minValueNode` returns. |
| Deletion.DeleteRemovesOne | utils/avl.ts:306-371 | Deleting a present key removes exactly one id, that of the node that leaves. That is the node holding the key, or its inorder successor when the holder has two children. No id is created and the node count drops by one. |
| Deletion.DeleteEntries | utils/avl.ts:306-371 | Deleting a present key `v` changes the (id, key) pairs of the whole tree by exactly this: the holder's pair (id, `v`) leaves. When the holder has two children, the successor's pair leaves as well and the holder's id comes back paired with the successor's key. Every other node keeps its id and key, however deep the holder sits. |
| Deletion.DeleteKeepsDistinctIds | utils/avl.ts:306-371 | Deletion keeps ids distinct. |
| Deletion.DeleteTwoChildren | utils/avl.ts:327-336 | With two children, the node holding the key keeps its id and takes its successor's key, and the successor's node is the one that disappears. |
| Deletion.RebalanceDeleteTrace | utils/avl.ts:341-368 | The return path records a `check` frame and then 0, 2 or 4 `rotate` frames, for no rotation, a single one or a double one. It never records `imbalance`, `insert` or `delete`, and exactly the `rotate` frames carry a comparison tree. |
| Deletion.DeleteTrace | utils/avl.ts:306-371 | Over a whole deleteRecursive call, `rotate` frames come in pairs and only they carry a comparison tree. There is no `imbalance` or `insert` frame. An absent key records no rotation and no `delete` frame. A present key records one `delete` frame, or two when its node has two children. |
| Simulator.Insert | utils/avl.ts:181-194 | The final tree is valid and holds the old keys plus `v`, and a duplicate leaves the tree and counter unchanged. The first frame is `insert` over the entry tree and the last is `info` over the final tree. Every frame's base is the layout of the entry tree. |
| Simulator.Delete | utils/avl.ts:281-298 | The final tree is valid and holds the old keys minus `v`. The first frame is `delete` over the entry tree and the last is `info` over the final tree. Every frame's base is the entry tree's layout. An absent key gives exactly two frames and the unchanged root. |
| Simulator.InsertSteps | utils/avl.ts:181-279 | The frames of a whole insert:<br>`imbalance` before every `rotate`;<br>comparison trees exactly on `rotate` frames;<br>0, 2 or 5 `rotate` frames with 0, 1 or 2 `imbalance`.<br>A duplicate gives no rotation and 2·depth + 4 frames. A new key gives a second `insert` frame and advances the counter by exactly one. |
| Simulator.DeleteSteps | utils/avl.ts:281-371 | The frames of a whole delete: comparison trees exactly on `rotate` frames, an even number of `rotate` frames, and no `imbalance` frame. An absent key gives exactly [`delete`, `info`], the latter showing the unchanged tree. A present key gives two or three `delete` frames in all, depending on its node's children. |
| Simulator.InsertKeepsHealthy | utils/avl.ts:181-194 | Insert keeps the tree valid, its ids distinct and below the counter. |
| Simulator.DeleteKeepsHealthy | utils/avl.ts:281-298 | Delete keeps the tree valid, its ids distinct and below the counter. |
| Simulator.Run | utils/avl.ts:181-298 | Any sequence of inserts and deletes keeps the tree valid, with distinct ids below a counter that never goes back. |
| Simulator.RunDenotes | utils/avl.ts:181-298 | After any sequence of inserts and deletes, the tree holds exactly the keys the same sequence gives on a plain set (add, remove). |

## Left out

- The user interface: rendering, the playback timer and undo history. None
  of it is engine logic.
- Narration strings of the frames. A frame is modelled by its tag, its
  highlighted node and whether it carries a comparison tree.
- Intermediate frame trees:
  - The tree and comparison tree of frames taken during the recursion are
    not modelled, and those frames carry `None`.
  - The engine lays out its `root` field there. That field is relinked only
    after the top-level call returns, so those frames can show a detached
    subtree.
  - Only the opening, closing and not-found frames pin down their tree.
- The empty tree's base: the source passes no base tree when the entry tree
  is empty. The model uses the layout of the empty tree (`PNil`) instead.
- Floating point: x is computed exactly as a real, without JavaScript
  rounding.
- Node fields `x`, `y` and `highlight`. The engine sets them once, to 0, 0
  and `'insert'`, when it creates a node (utils/avl.ts:206-207), and never
  reads or changes them afterwards; layout writes coordinates only to
  copies. They are left out of `Tree`. `x` and `y` live in the laid-out
  `Placed` tree. `highlight` is dropped from `Placed` as well, although the
  layout copy carries it along: the canvas highlights by the frame's node
  id (components/TreeCanvas.tsx:36), not by this field.
- `deepClone` is the identity on immutable values. Aliasing between the
  engine's tree and its clones does not arise.
- The global id counter `idCounter` is an explicit argument and result. Ids
  are the counter's values rather than the strings `node-<n>`.
- The `balance` frame tag is declared but never recorded, so no contract
  mentions it.
- The temporary attachment of a first node to `root`, made so that its
  frame can show it, only affects intermediate frame content.
- Trees that are not `Valid` are outside the model. The recursive operations
  require a valid tree; the public calls assume the tree they are handed
  came from earlier calls, as `Simulator.Run` shows it does.
- Deletion.DeleteTrace: it states the number of `delete` frames and that
  `rotate` frames come in pairs. It does not state where on the path
  each rotation happens.
- Insertion.InsertTrace: it states counts and the order of `imbalance`
  before `rotate` frames, but not the exact position of each frame.
- Keys are `int`. The source's keys are JavaScript numbers, read with
  `Number` from the input field (components/Controls.tsx:69, 75, 81), so a key
  such as 2.5 can reach the engine; NaN is filtered out before
  (App.tsx:41, 47). The engine only compares keys (utils/avl.ts:219-221,
  240-274, 302-311), so any key set behaves like the integers of the
  same ranks.
