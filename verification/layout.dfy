/** calculateLayout: a positioned copy of a logical tree. The horizontal
    position of a node comes from its inorder rank, the vertical position
    from its depth. */
module Drawing {
  import opened Types
  import opened Shape

  /** Vertical position of the root, and the distance between levels. */
  const TopOffset: int := 8
  const LevelSpacing: int := 12

  /** The horizontal position, in percent, of the node of inorder rank
      `rank` among `total` nodes: (rank + 1) / (total + 1) * 100. The source
      computes it in floating point; the model computes it exactly. */
  function XAt(rank: nat, total: nat): real {
    ((rank + 1) as real / (total + 1) as real) * 100.0
  }

  /** Forgets the coordinates of a laid-out tree. */
  function Strip(p: Placed): Tree {
    match p
    case PNil => Nil
    case PNode(id, value, height, bf, _, _, left, right) =>
      Node(id, value, height, bf, Strip(left), Strip(right))
  }

  /** The x coordinates in inorder. */
  function Xs(p: Placed): seq<real> {
    match p
    case PNil => []
    case PNode(_, _, _, _, x, _, left, right) => Xs(left) + [x] + Xs(right)
  }

  /** The root of `p` sits at height `y`, and each level below adds the
      level spacing. */
  ghost predicate Levels(p: Placed, y: int) {
    p.PNode? ==>
      && p.y == y
      && Levels(p.left, y + LevelSpacing)
      && Levels(p.right, y + LevelSpacing)
  }

  /** Places the subtree `t` whose nodes are preceded, in the inorder of the
      whole tree of `total` nodes, by `before` nodes, and whose root is at
      depth `depth`. */
  function Place(t: Tree, before: nat, depth: nat, total: nat): (p: Placed)
    ensures Strip(p) == t
    ensures |Xs(p)| == Size(t)
    ensures Levels(p, TopOffset + LevelSpacing * depth)
    decreases t
  {
    match t
    case Nil => PNil
    case Node(id, value, height, bf, left, right) =>
      PNode(id, value, height, bf,
            XAt(before + Size(left), total),
            TopOffset + LevelSpacing * depth,
            Place(left, before, depth + 1, total),
            Place(right, before + Size(left) + 1, depth + 1, total))
  }

  /** Every node's x is given by its rank in the whole tree. */
  lemma {:induction false} PlaceRanks(t: Tree, before: nat, depth: nat, total: nat)
    ensures forall i :: 0 <= i < |Xs(Place(t, before, depth, total))| ==>
              Xs(Place(t, before, depth, total))[i] == XAt(before + i, total)
    decreases t
  {
    if t.Node? {
      var p := Place(t, before, depth, total);
      var l := Place(t.left, before, depth + 1, total);
      var r := Place(t.right, before + Size(t.left) + 1, depth + 1, total);
      PlaceRanks(t.left, before, depth + 1, total);
      PlaceRanks(t.right, before + Size(t.left) + 1, depth + 1, total);
      assert Xs(p) == Xs(l) + [XAt(before + Size(t.left), total)] + Xs(r);
      forall i | 0 <= i < |Xs(p)| ensures Xs(p)[i] == XAt(before + i, total) {
        if i < |Xs(l)| {
          assert Xs(p)[i] == Xs(l)[i];
        } else if i > |Xs(l)| {
          assert Xs(p)[i] == Xs(r)[i - |Xs(l)| - 1];
        }
      }
    }
  }

  /** Positions grow strictly with the rank and stay strictly inside the
      canvas. */
  lemma {:induction false} XAtBounds(rank: nat, total: nat)
    requires rank < total
    ensures 0.0 < XAt(rank, total) < 100.0
  {
    var q := (rank + 1) as real / (total + 1) as real;
    assert q * (total + 1) as real == (rank + 1) as real;
    assert q < 1.0;
  }

  lemma {:induction false} XAtMonotone(r1: nat, r2: nat, total: nat)
    requires r1 < r2
    ensures XAt(r1, total) < XAt(r2, total)
  {
    var d := (total + 1) as real;
    var q1 := (r1 + 1) as real / d;
    var q2 := (r2 + 1) as real / d;
    assert q1 * d == (r1 + 1) as real;
    assert q2 * d == (r2 + 1) as real;
    assert q1 < q2;
  }

  /** Rank positions for `n` nodes are strictly increasing and inside the
      canvas. */
  lemma {:induction false} RankedXs(xs: seq<real>, n: nat)
    requires |xs| == n
    requires forall i :: 0 <= i < |xs| ==> xs[i] == XAt(i, n)
    ensures forall i :: 0 <= i < |xs| ==> 0.0 < xs[i] < 100.0
    ensures forall i, j :: 0 <= i < j < |xs| ==> xs[i] < xs[j]
  {
    forall i | 0 <= i < |xs| ensures 0.0 < xs[i] < 100.0 {
      XAtBounds(i, n);
    }
    forall i, j | 0 <= i < j < |xs| ensures xs[i] < xs[j] {
      XAtMonotone(i, j, n);
    }
  }

  /** calculateLayout: null stays null; the copy has the same shape, ids,
      values, heights and balance factors; the root is at y = 8 and each
      level adds 12. */
  function Layout(t: Tree): (p: Placed)
    ensures t.Nil? <==> p.PNil?
    ensures Strip(p) == t
    ensures Levels(p, TopOffset)
  {
    Place(t, 0, 0, Size(t))
  }

  /** The x coordinates of the layout: the rank formula for each node in
      inorder, strictly increasing, strictly between 0 and 100. */
  lemma {:induction false} LayoutRanks(t: Tree)
    ensures var p := Layout(t);
      && |Xs(p)| == Size(t)
      && (forall i :: 0 <= i < |Xs(p)| ==> Xs(p)[i] == XAt(i, Size(t)))
      && (forall i :: 0 <= i < |Xs(p)| ==> 0.0 < Xs(p)[i] < 100.0)
      && (forall i, j :: 0 <= i < j < |Xs(p)| ==> Xs(p)[i] < Xs(p)[j])
  {
    var p := Place(t, 0, 0, Size(t));
    PlaceRanks(t, 0, 0, Size(t));
    RankedXs(Xs(p), Size(t));
  }
}
