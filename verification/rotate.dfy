/** rightRotate and leftRotate: the pointer swap around a pivot, the
    recomputation of the two moved nodes (lower node first), and the two
    `rotate` frames each rotation records. */
module Rotations {
  import opened Types
  import opened Shape

  /** Right rotation on `y` with left child `x`: `x` moves up, `y` becomes
      its right child and adopts `x`'s former right subtree. */
  function RotateRight(y: Tree): (r: Traced)
    requires y.Node? && y.left.Node?
    ensures r.tree.Node? && r.tree.right.Node?
    // x is on top, y below it; the three outer subtrees are untouched
    ensures r.tree.id == y.left.id && r.tree.value == y.left.value
    ensures r.tree.right.id == y.id && r.tree.right.value == y.value
    ensures r.tree.left == y.left.left
    ensures r.tree.right.left == y.left.right && r.tree.right.right == y.right
    // the lower node is recomputed from its new children, then the upper
    // node from the lower node's new height
    ensures r.tree.right.height == 1 + Max(StoredHeight(y.left.right), StoredHeight(y.right))
    ensures r.tree.right.bf == StoredHeight(y.left.right) - StoredHeight(y.right)
    ensures r.tree.height == 1 + Max(StoredHeight(y.left.left), r.tree.right.height)
    ensures r.tree.bf == StoredHeight(y.left.left) - r.tree.right.height
    // a start frame on the node moving down, a completion frame on the new
    // top, both carrying the pre-rotation tree
    ensures r.events == [RotateFrame(y.id), RotateFrame(y.left.id)]
  {
    var x := y.left;
    var down := Refresh(y.(left := x.right));
    var up := Refresh(x.(right := down));
    Traced(up, [RotateFrame(y.id), RotateFrame(x.id)])
  }

  /** Left rotation on `x` with right child `y`: the mirror image. */
  function RotateLeft(x: Tree): (r: Traced)
    requires x.Node? && x.right.Node?
    ensures r.tree.Node? && r.tree.left.Node?
    ensures r.tree.id == x.right.id && r.tree.value == x.right.value
    ensures r.tree.left.id == x.id && r.tree.left.value == x.value
    ensures r.tree.right == x.right.right
    ensures r.tree.left.left == x.left && r.tree.left.right == x.right.left
    ensures r.tree.left.height == 1 + Max(StoredHeight(x.left), StoredHeight(x.right.left))
    ensures r.tree.left.bf == StoredHeight(x.left) - StoredHeight(x.right.left)
    ensures r.tree.height == 1 + Max(r.tree.left.height, StoredHeight(x.right.right))
    ensures r.tree.bf == r.tree.left.height - StoredHeight(x.right.right)
    ensures r.events == [RotateFrame(x.id), RotateFrame(x.right.id)]
  {
    var y := x.right;
    var down := Refresh(x.(right := y.left));
    var up := Refresh(y.(left := down));
    Traced(up, [RotateFrame(x.id), RotateFrame(y.id)])
  }

  /** Rotations keep every node at its inorder position: the key sequence,
      the id sequence, and so the sets of keys, ids and (id, key) pairs and
      the node count. One fact per lemma keeps each proof small. */

  lemma {:induction false} RightKeepsKeySeq(y: Tree)
    requires y.Node? && y.left.Node?
    ensures Inorder(RotateRight(y).tree) == Inorder(y)
  {
  }

  lemma {:induction false} RightKeepsIdSeq(y: Tree)
    requires y.Node? && y.left.Node?
    ensures IdOrder(RotateRight(y).tree) == IdOrder(y)
  {
  }

  lemma {:induction false} RightKeepsKeys(y: Tree)
    requires y.Node? && y.left.Node?
    ensures Keys(RotateRight(y).tree) == Keys(y)
  {
  }

  lemma {:induction false} RightKeepsIds(y: Tree)
    requires y.Node? && y.left.Node?
    ensures Ids(RotateRight(y).tree) == Ids(y)
  {
  }

  lemma {:induction false} RightKeepsEntries(y: Tree)
    requires y.Node? && y.left.Node?
    ensures Entries(RotateRight(y).tree) == Entries(y)
  {
  }

  lemma {:induction false} RightKeepsSize(y: Tree)
    requires y.Node? && y.left.Node?
    ensures Size(RotateRight(y).tree) == Size(y)
  {
  }

  lemma {:induction false} LeftKeepsKeySeq(x: Tree)
    requires x.Node? && x.right.Node?
    ensures Inorder(RotateLeft(x).tree) == Inorder(x)
  {
  }

  lemma {:induction false} LeftKeepsIdSeq(x: Tree)
    requires x.Node? && x.right.Node?
    ensures IdOrder(RotateLeft(x).tree) == IdOrder(x)
  {
  }

  lemma {:induction false} LeftKeepsKeys(x: Tree)
    requires x.Node? && x.right.Node?
    ensures Keys(RotateLeft(x).tree) == Keys(x)
  {
  }

  lemma {:induction false} LeftKeepsIds(x: Tree)
    requires x.Node? && x.right.Node?
    ensures Ids(RotateLeft(x).tree) == Ids(x)
  {
  }

  lemma {:induction false} LeftKeepsEntries(x: Tree)
    requires x.Node? && x.right.Node?
    ensures Entries(RotateLeft(x).tree) == Entries(x)
  {
  }

  lemma {:induction false} LeftKeepsSize(x: Tree)
    requires x.Node? && x.right.Node?
    ensures Size(RotateLeft(x).tree) == Size(x)
  {
  }

  /** Rotations keep search order, because they keep the inorder sequence. */
  lemma {:induction false} RotateRightKeepsOrder(y: Tree)
    requires y.Node? && y.left.Node? && Ordered(y)
    ensures Ordered(RotateRight(y).tree)
  {
    RightKeepsKeySeq(y);
    OrderedIffIncreasing(y);
    OrderedIffIncreasing(RotateRight(y).tree);
  }

  lemma {:induction false} RotateLeftKeepsOrder(x: Tree)
    requires x.Node? && x.right.Node? && Ordered(x)
    ensures Ordered(RotateLeft(x).tree)
  {
    LeftKeepsKeySeq(x);
    OrderedIffIncreasing(x);
    OrderedIffIncreasing(RotateLeft(x).tree);
  }

  /** Any tree whose inorder keys are those of a search tree is one. */
  lemma {:induction false} SameInorderKeepsOrder(s: Tree, t: Tree)
    requires Ordered(s) && Inorder(s) == Inorder(t)
    ensures Ordered(t)
  {
    OrderedIffIncreasing(s);
    OrderedIffIncreasing(t);
  }

  // ---------------------------------------------------------------------
  // Rotations restore the AVL bound at a node whose children are valid
  // AVL trees differing in height by two.

  /** A single right rotation repairs a left-heavy node whose left child
      does not lean right. The result is one level lower when the left child
      leaned left, and as high as the left child plus one when it was level. */
  lemma {:induction false} RotateRightRepairs(m: Tree)
    requires m.Node? && m.left.Node? && Ordered(m)
    requires Valid(m.left) && Valid(m.right)
    requires StoredHeight(m.left) == StoredHeight(m.right) + 2 && Balance(m.left) >= 0
    ensures Valid(RotateRight(m).tree)
    ensures StoredHeight(RotateRight(m).tree) == StoredHeight(m.left) + (if Balance(m.left) == 0 then 1 else 0)
  {
    StoredHeightIsHeight(m.right);
    StoredHeightIsHeight(m.left.left);
    StoredHeightIsHeight(m.left.right);
    RotateRightKeepsOrder(m);
  }

  lemma {:induction false} RotateLeftRepairs(m: Tree)
    requires m.Node? && m.right.Node? && Ordered(m)
    requires Valid(m.left) && Valid(m.right)
    requires StoredHeight(m.right) == StoredHeight(m.left) + 2 && Balance(m.right) <= 0
    ensures Valid(RotateLeft(m).tree)
    ensures StoredHeight(RotateLeft(m).tree) == StoredHeight(m.right) + (if Balance(m.right) == 0 then 1 else 0)
  {
    StoredHeightIsHeight(m.left);
    StoredHeightIsHeight(m.right.left);
    StoredHeightIsHeight(m.right.right);
    RotateLeftKeepsOrder(m);
  }

  /** What the left-right double rotation builds: the left child's right
      child `b` on top, the left child over the outer-left subtree and `b`'s
      left part, the pivot over `b`'s right part and the outer-right
      subtree. */
  lemma {:induction false} LeftRightShape(m: Tree)
    requires m.Node? && m.left.Node? && m.left.right.Node?
    ensures var t := RotateRight(m.(left := RotateLeft(m.left).tree)).tree;
      && t.id == m.left.right.id && t.value == m.left.right.value
      && t.left == Refresh(m.left.(right := m.left.right.left))
      && t.right == Refresh(m.(left := m.left.right.right))
      && t.height == 1 + Max(StoredHeight(t.left), StoredHeight(t.right))
      && t.bf == StoredHeight(t.left) - StoredHeight(t.right)
  {
  }

  lemma {:induction false} RightLeftShape(m: Tree)
    requires m.Node? && m.right.Node? && m.right.left.Node?
    ensures var t := RotateLeft(m.(right := RotateRight(m.right).tree)).tree;
      && t.id == m.right.left.id && t.value == m.right.left.value
      && t.right == Refresh(m.right.(left := m.right.left.right))
      && t.left == Refresh(m.(right := m.right.left.left))
      && t.height == 1 + Max(StoredHeight(t.left), StoredHeight(t.right))
      && t.bf == StoredHeight(t.left) - StoredHeight(t.right)
  {
  }

  lemma {:induction false} LeftRightKeepsOrder(m: Tree)
    requires m.Node? && m.left.Node? && m.left.right.Node? && Ordered(m)
    ensures Ordered(RotateRight(m.(left := RotateLeft(m.left).tree)).tree)
  {
    var m2 := m.(left := RotateLeft(m.left).tree);
    LeftKeepsKeySeq(m.left);
    SameInorderKeepsOrder(m, m2);
    RotateRightKeepsOrder(m2);
  }

  lemma {:induction false} RightLeftKeepsOrder(m: Tree)
    requires m.Node? && m.right.Node? && m.right.left.Node? && Ordered(m)
    ensures Ordered(RotateLeft(m.(right := RotateRight(m.right).tree)).tree)
  {
    var m2 := m.(right := RotateRight(m.right).tree);
    RightKeepsKeySeq(m.right);
    SameInorderKeepsOrder(m, m2);
    RotateLeftKeepsOrder(m2);
  }

  /** The heights inside a valid tree that leans right. */
  lemma {:induction false} LeansRightHeights(l: Tree)
    requires l.Node? && Valid(l) && Balance(l) < 0
    ensures l.right.Node?
    ensures Valid(l.left) && Valid(l.right.left) && Valid(l.right.right)
    ensures StoredHeight(l.left) >= 0 && StoredHeight(l.right) == StoredHeight(l.left) + 1 && StoredHeight(l) == StoredHeight(l.left) + 2
    ensures StoredHeight(l.left) - 1 <= StoredHeight(l.right.left) <= StoredHeight(l.left)
    ensures StoredHeight(l.left) - 1 <= StoredHeight(l.right.right) <= StoredHeight(l.left)
  {
    StoredHeightIsHeight(l.left);
    StoredHeightIsHeight(l.right);
    assert Valid(l.right);
    StoredHeightIsHeight(l.right.left);
    StoredHeightIsHeight(l.right.right);
  }

  lemma {:induction false} LeansLeftHeights(r: Tree)
    requires r.Node? && Valid(r) && Balance(r) > 0
    ensures r.left.Node?
    ensures Valid(r.right) && Valid(r.left.left) && Valid(r.left.right)
    ensures StoredHeight(r.right) >= 0 && StoredHeight(r.left) == StoredHeight(r.right) + 1 && StoredHeight(r) == StoredHeight(r.right) + 2
    ensures StoredHeight(r.right) - 1 <= StoredHeight(r.left.left) <= StoredHeight(r.right)
    ensures StoredHeight(r.right) - 1 <= StoredHeight(r.left.right) <= StoredHeight(r.right)
  {
    StoredHeightIsHeight(r.left);
    StoredHeightIsHeight(r.right);
    assert Valid(r.left);
    StoredHeightIsHeight(r.left.left);
    StoredHeightIsHeight(r.left.right);
  }

  /** A two-level tree built over four consistent, balanced subtrees whose
      heights stay within one of each other is consistent and balanced
      when its three nodes have recomputed fields. */
  lemma {:induction false} TwoLevelJoin(t: Tree)
    requires t.Node? && t.left.Node? && t.right.Node?
    requires Consistent(t.left.left) && Balanced(t.left.left)
    requires Consistent(t.left.right) && Balanced(t.left.right)
    requires Consistent(t.right.left) && Balanced(t.right.left)
    requires Consistent(t.right.right) && Balanced(t.right.right)
    requires t.left == Refresh(t.left) && t.right == Refresh(t.right) && t == Refresh(t)
    requires -1 <= StoredHeight(t.left.left) - StoredHeight(t.left.right) <= 1
    requires -1 <= StoredHeight(t.right.left) - StoredHeight(t.right.right) <= 1
    requires -1 <= StoredHeight(t.left) - StoredHeight(t.right) <= 1
    ensures Consistent(t) && Balanced(t)
  {
  }

  /** The left-right double rotation repairs a left-heavy node whose left
      child leans right; the result is as high as the left child was. */
  lemma {:induction false} LeftRightRepairs(m: Tree)
    requires m.Node? && m.left.Node? && Ordered(m)
    requires Valid(m.left) && Valid(m.right)
    requires StoredHeight(m.left) == StoredHeight(m.right) + 2 && Balance(m.left) < 0
    ensures m.left.right.Node?
    ensures Valid(RotateRight(m.(left := RotateLeft(m.left).tree)).tree)
    ensures StoredHeight(RotateRight(m.(left := RotateLeft(m.left).tree)).tree) == StoredHeight(m.left)
  {
    LeansRightHeights(m.left);
    LeftRightShape(m);
    LeftRightKeepsOrder(m);
    TwoLevelJoin(RotateRight(m.(left := RotateLeft(m.left).tree)).tree);
  }

  lemma {:induction false} RightLeftRepairs(m: Tree)
    requires m.Node? && m.right.Node? && Ordered(m)
    requires Valid(m.left) && Valid(m.right)
    requires StoredHeight(m.right) == StoredHeight(m.left) + 2 && Balance(m.right) > 0
    ensures m.right.left.Node?
    ensures Valid(RotateLeft(m.(right := RotateRight(m.right).tree)).tree)
    ensures StoredHeight(RotateLeft(m.(right := RotateRight(m.right).tree)).tree) == StoredHeight(m.right)
  {
    LeansLeftHeights(m.right);
    RightLeftShape(m);
    RightLeftKeepsOrder(m);
    TwoLevelJoin(RotateLeft(m.(right := RotateRight(m.right).tree)).tree);
  }

  // ---------------------------------------------------------------------
  // The four rebalancing cases, shared by insertion and deletion. The two
  // operations choose the case differently and record different frames,
  // but perform the same pointer work.

  datatype Case = NoRotation | LeftLeft | RightRight | LeftRight | RightLeft

  /** The nodes a case dereferences are present. */
  predicate Rotatable(m: Tree, c: Case) {
    m.Node? &&
    match c
    case NoRotation => true
    case LeftLeft => m.left.Node?
    case RightRight => m.right.Node?
    case LeftRight => m.left.Node? && m.left.right.Node?
    case RightLeft => m.right.Node? && m.right.left.Node?
  }

  /** The subtree that replaces `m`: itself, one rotation at `m`, or a
      rotation of the child followed by the opposite rotation at `m`. */
  function Rotated(m: Tree, c: Case): (r: Tree)
    requires Rotatable(m, c)
    ensures r.Node?
  {
    match c
    case NoRotation => m
    case LeftLeft => RotateRight(m).tree
    case RightRight => RotateLeft(m).tree
    case LeftRight => RotateRight(m.(left := RotateLeft(m.left).tree)).tree
    case RightLeft => RotateLeft(m.(right := RotateRight(m.right).tree)).tree
  }

  /** Whatever the case, the nodes keep their inorder positions: the same
      key and id sequences, the same (id, key) pairs, the same node count. */
  lemma {:induction false} RotatedKeeps(m: Tree, c: Case)
    requires Rotatable(m, c)
    ensures var r := Rotated(m, c);
      && Inorder(r) == Inorder(m) && IdOrder(r) == IdOrder(m)
      && Keys(r) == Keys(m) && Ids(r) == Ids(m) && Entries(r) == Entries(m)
      && Size(r) == Size(m)
  {
    match c
    case NoRotation =>
    case LeftLeft => RightKeepsAll(m);
    case RightRight => LeftKeepsAll(m);
    case LeftRight =>
      LeftKeepsAll(m.left);
      RightKeepsAll(m.(left := RotateLeft(m.left).tree));
    case RightLeft =>
      RightKeepsAll(m.right);
      LeftKeepsAll(m.(right := RotateRight(m.right).tree));
  }

  lemma {:induction false} RightKeepsAll(y: Tree)
    requires y.Node? && y.left.Node?
    ensures var t := RotateRight(y).tree;
      && Inorder(t) == Inorder(y) && IdOrder(t) == IdOrder(y)
      && Keys(t) == Keys(y) && Ids(t) == Ids(y) && Entries(t) == Entries(y)
      && Size(t) == Size(y)
  {
    RightKeepsKeySeq(y);
    RightKeepsIdSeq(y);
    RightKeepsKeys(y);
    RightKeepsIds(y);
    RightKeepsEntries(y);
    RightKeepsSize(y);
  }

  lemma {:induction false} LeftKeepsAll(x: Tree)
    requires x.Node? && x.right.Node?
    ensures var t := RotateLeft(x).tree;
      && Inorder(t) == Inorder(x) && IdOrder(t) == IdOrder(x)
      && Keys(t) == Keys(x) && Ids(t) == Ids(x) && Entries(t) == Entries(x)
      && Size(t) == Size(x)
  {
    LeftKeepsKeySeq(x);
    LeftKeepsIdSeq(x);
    LeftKeepsKeys(x);
    LeftKeepsIds(x);
    LeftKeepsEntries(x);
    LeftKeepsSize(x);
  }

  /** No rebalancing case makes two nodes share an id. */
  lemma {:induction false} RotatedKeepsDistinctIds(m: Tree, c: Case)
    requires Rotatable(m, c) && DistinctIds(m)
    ensures DistinctIds(Rotated(m, c))
  {
    RotatedKeeps(m, c);
    DistinctIdsIffCount(m);
    DistinctIdsIffCount(Rotated(m, c));
  }

  /** When each case restores the AVL bound at a node `n` whose children
      are valid, once `n`'s own fields have been recomputed. */
  ghost predicate Repairable(n: Tree, c: Case) {
    n.Node? &&
    match c
    case NoRotation => -1 <= Balance(n) <= 1
    case LeftLeft => Balance(n) == 2 && n.left.Node? && Balance(n.left) >= 0
    case LeftRight => Balance(n) == 2 && n.left.Node? && Balance(n.left) < 0
    case RightRight => Balance(n) == -2 && n.right.Node? && Balance(n.right) <= 0
    case RightLeft => Balance(n) == -2 && n.right.Node? && Balance(n.right) > 0
  }

  /** Each case, applied where it is meant to be, yields a valid AVL tree,
      with the height the textbook analysis predicts. */
  lemma {:induction false} RotatedRepairs(n: Tree, c: Case)
    requires n.Node? && Ordered(n) && Valid(n.left) && Valid(n.right)
    requires Repairable(n, c)
    ensures Rotatable(Refresh(n), c)
    ensures Valid(Rotated(Refresh(n), c))
    ensures c == NoRotation ==> StoredHeight(Rotated(Refresh(n), c)) == 1 + Max(StoredHeight(n.left), StoredHeight(n.right))
    ensures c == LeftLeft ==>
      StoredHeight(Rotated(Refresh(n), c)) == StoredHeight(n.left) + (if Balance(n.left) == 0 then 1 else 0)
    ensures c == RightRight ==>
      StoredHeight(Rotated(Refresh(n), c)) == StoredHeight(n.right) + (if Balance(n.right) == 0 then 1 else 0)
    ensures c == LeftRight ==> StoredHeight(Rotated(Refresh(n), c)) == StoredHeight(n.left)
    ensures c == RightLeft ==> StoredHeight(Rotated(Refresh(n), c)) == StoredHeight(n.right)
  {
    var m := Refresh(n);
    RefreshMakesConsistent(n);
    assert Ordered(m);
    match c
    case NoRotation =>
    case LeftLeft => RotateRightRepairs(m);
    case RightRight => RotateLeftRepairs(m);
    case LeftRight => LeftRightRepairs(m);
    case RightLeft => RightLeftRepairs(m);
  }
}
