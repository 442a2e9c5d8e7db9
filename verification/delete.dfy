/** find, minValueNode and deleteRecursive: search-tree descent, removal of
    a node with at most one child by its child, replacement of a node with
    two children by its inorder successor's key followed by deletion of the
    successor, and on the way back up the recomputation of each ancestor
    followed by the four-case rebalance decided by the children's balance. */
module Deletion {
  import opened Types
  import opened Shape
  import opened Rotations
  import opened Trace

  /** find: plain search-tree lookup. On a search tree it answers whether
      the key is present. */
  function Find(t: Tree, v: int): (found: bool)
    ensures Ordered(t) ==> (found <==> v in Keys(t))
  {
    if t.Nil? then false
    else if t.value == v then true
    else if v < t.value then Find(t.left, v)
    else Find(t.right, v)
  }

  /** The node reached by always following the left link. */
  function Leftmost(t: Tree): (m: Tree)
    requires t.Node?
    ensures m.Node? && m.left.Nil?
    ensures (m.id, m.value) in Entries(t) && m.value in Keys(t) && m.id in Ids(t)
    ensures Ordered(t) ==> forall k :: k in Keys(t) ==> m.value <= k
  {
    if t.left.Nil? then t else Leftmost(t.left)
  }

  /** minValueNode: walks left from `node` while there is a left child. It
      stops at the leftmost node, which holds the least key of a search
      tree. */
  method MinValueNode(node: Tree) returns (current: Tree)
    requires node.Node?
    ensures current == Leftmost(node)
    ensures current.left.Nil?
  {
    current := node;
    while current.left.Node?
      invariant current.Node? && Leftmost(current) == Leftmost(node)
      decreases current
    {
      current := current.left;
    }
  }

  // ---------------------------------------------------------------------
  // The return path.

  /** The case deleteRecursive picks at an ancestor, from the balance of
      the node and of its heavy child, tried in the source's order:
      left-left, left-right, right-right, right-left. A rotation is chosen
      exactly when the node is outside the bound, on its heavy side. */
  function DeleteCase(n: Tree): (c: Case)
    ensures c == NoRotation <==> -1 <= Balance(n) <= 1
    ensures c == LeftLeft || c == LeftRight <==> Balance(n) > 1
    ensures c == RightRight || c == RightLeft <==> Balance(n) < -1
  {
    var balance := Balance(n);
    if balance > 1 && Balance(n.left) >= 0 then LeftLeft
    else if balance > 1 && Balance(n.left) < 0 then LeftRight
    else if balance < -1 && Balance(n.right) <= 0 then RightRight
    else if balance < -1 && Balance(n.right) > 0 then RightLeft
    else NoRotation
  }

  /** A node one of whose children has just lost a node: valid children,
      search order, heights differing by at most two. */
  ghost predicate DeleteShape(n: Tree) {
    && n.Node? && Ordered(n) && Valid(n.left) && Valid(n.right)
    && -2 <= StoredHeight(n.left) - StoredHeight(n.right) <= 2
  }

  /** Under that shape the balance-driven choice picks the case the balance
      analysis prescribes, and what it dereferences is present. */
  lemma {:induction false} DeleteCaseFits(n: Tree)
    requires DeleteShape(n)
    ensures Repairable(n, DeleteCase(n))
    ensures Rotatable(n, DeleteCase(n))
  {
    StoredHeightIsHeight(n.left);
    StoredHeightIsHeight(n.right);
    RotatedRepairs(n, DeleteCase(n));
  }

  /** The return path of deleteRecursive at one ancestor: recompute height
      and balance factor, record a `check` frame, then perform the case's
      rotations with no announcing frame; each rotation records its two
      `rotate` frames. */
  function RebalanceDelete(n: Tree): (r: Traced)
    requires n.Node? && Rotatable(n, DeleteCase(n))
    ensures r.tree == Rotated(Refresh(n), DeleteCase(n))
    ensures |r.events| >= 1 && r.events[0] == TaggedFrame(ActCheck, n.id)
  {
    var m := Refresh(n);
    var check := TaggedFrame(ActCheck, m.id);
    match DeleteCase(n)
    case LeftLeft =>
      var rot := RotateRight(m);
      Traced(rot.tree, [check] + rot.events)
    case LeftRight =>
      var inner := RotateLeft(m.left);
      var outer := RotateRight(m.(left := inner.tree));
      Traced(outer.tree, [check] + inner.events + outer.events)
    case RightRight =>
      var rot := RotateLeft(m);
      Traced(rot.tree, [check] + rot.events)
    case RightLeft =>
      var inner := RotateRight(m.right);
      var outer := RotateLeft(m.(right := inner.tree));
      Traced(outer.tree, [check] + inner.events + outer.events)
    case NoRotation =>
      Traced(m, [check])
  }

  /** The return path leaves a valid AVL tree holding the same nodes in the
      same order. */
  lemma {:induction false} RebalanceDeleteRepairs(n: Tree)
    requires DeleteShape(n)
    ensures Rotatable(n, DeleteCase(n))
    ensures var f := RebalanceDelete(n).tree;
      && Valid(f)
      && Inorder(f) == Inorder(n) && IdOrder(f) == IdOrder(n)
      && Keys(f) == Keys(n) && Ids(f) == Ids(n) && Entries(f) == Entries(n)
      && Size(f) == Size(n)
  {
    DeleteCaseFits(n);
    RotatedRepairs(n, DeleteCase(n));
    RotatedKeeps(Refresh(n), DeleteCase(n));
  }

  /** A node within the bound is only recomputed; otherwise the rotation
      leaves the subtree as high as its taller child, or one level higher. */
  lemma {:induction false} RebalanceDeleteHeight(n: Tree)
    requires DeleteShape(n)
    ensures Rotatable(n, DeleteCase(n))
    ensures var f := RebalanceDelete(n).tree;
      && (-1 <= Balance(n) <= 1 ==> f == Refresh(n))
      && Max(StoredHeight(n.left), StoredHeight(n.right)) <= StoredHeight(f) <= 1 + Max(StoredHeight(n.left), StoredHeight(n.right))
  {
    DeleteCaseFits(n);
    RotatedRepairs(n, DeleteCase(n));
    StoredHeightIsHeight(n.left);
    StoredHeightIsHeight(n.right);
  }

  /** The node holding the key goes away entirely when it has at most one
      child: its place is taken by that child (or by nothing). */
  lemma {:induction false} Unlink(t: Tree)
    requires t.Node? && Valid(t) && (t.left.Nil? || t.right.Nil?)
    ensures var rest := if t.left.Node? then t.left else t.right;
      && Valid(rest)
      && Keys(rest) == Keys(t) - {t.value}
      && StoredHeight(rest) == StoredHeight(t) - 1
  {
    StoredHeightIsHeight(t.left);
    StoredHeightIsHeight(t.right);
  }

  /** After deleting `v` below the left child, the node has the shape the
      return path expects. */
  lemma {:induction false} ShapeLeft(t: Tree, v: int, s: Tree)
    requires t.Node? && Valid(t) && v < t.value
    requires Valid(s) && Keys(s) == Keys(t.left) - {v}
    requires StoredHeight(t.left) - 1 <= StoredHeight(s) <= StoredHeight(t.left)
    ensures DeleteShape(t.(left := s))
  {
  }

  lemma {:induction false} ShapeRight(t: Tree, v: int, s: Tree)
    requires t.Node? && Valid(t) && t.value < v
    requires Valid(s) && Keys(s) == Keys(t.right) - {v}
    requires StoredHeight(t.right) - 1 <= StoredHeight(s) <= StoredHeight(t.right)
    ensures DeleteShape(t.(right := s))
  {
  }

  lemma {:induction false} ShapeSuccessor(t: Tree, m: int, s: Tree)
    requires t.Node? && Valid(t) && t.right.Node? && m == Leftmost(t.right).value
    requires Valid(s) && Keys(s) == Keys(t.right) - {m}
    requires StoredHeight(t.right) - 1 <= StoredHeight(s) <= StoredHeight(t.right)
    ensures m in Keys(t.right)
    ensures DeleteShape(t.(value := m, right := s))
  {
    OrderSuccessor(t, m, s);
    assert Valid(t.left);
  }

  /** The successor's key sits between the left subtree and what is left
      of the right one. */
  lemma {:induction false} OrderSuccessor(t: Tree, m: int, s: Tree)
    requires t.Node? && Ordered(t) && t.right.Node? && m == Leftmost(t.right).value
    requires Ordered(s) && Keys(s) == Keys(t.right) - {m}
    ensures m in Keys(t.right)
    ensures Ordered(t.(value := m, right := s))
  {
    assert forall k :: k in Keys(t.left) ==> k < m;
    assert forall k :: k in Keys(s) ==> m < k;
  }

  /** One step of the return path after deleting `v` below the left child:
      the node is valid again and has lost exactly `v`. */
  lemma {:induction false} ShrinkLeft(t: Tree, v: int, s: Tree)
    requires t.Node? && Valid(t) && v < t.value
    requires Valid(s) && Keys(s) == Keys(t.left) - {v}
    requires StoredHeight(t.left) - 1 <= StoredHeight(s) <= StoredHeight(t.left)
    ensures DeleteShape(t.(left := s))
    ensures Rotatable(t.(left := s), DeleteCase(t.(left := s)))
    ensures var f := RebalanceDelete(t.(left := s)).tree;
      Valid(f) && Keys(f) == Keys(t) - {v}
  {
    ShapeLeft(t, v, s);
    RebalanceDeleteRepairs(t.(left := s));
    RemoveLeft(Keys(t.left), t.value, Keys(t.right), v);
  }

  lemma {:induction false} ShrinkRight(t: Tree, v: int, s: Tree)
    requires t.Node? && Valid(t) && t.value < v
    requires Valid(s) && Keys(s) == Keys(t.right) - {v}
    requires StoredHeight(t.right) - 1 <= StoredHeight(s) <= StoredHeight(t.right)
    ensures DeleteShape(t.(right := s))
    ensures Rotatable(t.(right := s), DeleteCase(t.(right := s)))
    ensures var f := RebalanceDelete(t.(right := s)).tree;
      Valid(f) && Keys(f) == Keys(t) - {v}
  {
    ShapeRight(t, v, s);
    RebalanceDeleteRepairs(t.(right := s));
    RemoveRight(Keys(t.left), t.value, Keys(t.right), v);
  }

  /** The same step for the node with two children that took its
      successor's key `m` and then lost `m` from its right subtree. */
  lemma {:induction false} ShrinkSuccessor(t: Tree, m: int, s: Tree)
    requires t.Node? && Valid(t) && t.right.Node? && m == Leftmost(t.right).value
    requires Valid(s) && Keys(s) == Keys(t.right) - {m}
    requires StoredHeight(t.right) - 1 <= StoredHeight(s) <= StoredHeight(t.right)
    ensures DeleteShape(t.(value := m, right := s))
    ensures Rotatable(t.(value := m, right := s), DeleteCase(t.(value := m, right := s)))
    ensures var f := RebalanceDelete(t.(value := m, right := s)).tree;
      Valid(f) && Keys(f) == Keys(t) - {t.value}
  {
    ShapeSuccessor(t, m, s);
    RebalanceDeleteRepairs(t.(value := m, right := s));
    Promote(Keys(t.left), t.value, Keys(t.right), m);
  }

  lemma {:induction false} RemoveLeft<T>(a: set<T>, x: T, b: set<T>, p: T)
    requires p != x && p !in b
    ensures (a - {p}) + {x} + b == (a + {x} + b) - {p}
  {
  }

  lemma {:induction false} RemoveRight<T>(a: set<T>, x: T, b: set<T>, p: T)
    requires p != x && p !in a
    ensures a + {x} + (b - {p}) == (a + {x} + b) - {p}
  {
  }

  lemma {:induction false} Promote<T>(a: set<T>, x: T, b: set<T>, m: T)
    requires m in b && x !in a && x !in b
    ensures a + {m} + (b - {m}) == (a + {x} + b) - {x}
  {
  }

  /** The height side of the same three steps: the node loses at most one
      level, and comes back as it was when the child did. */
  lemma {:induction false} SinkLeft(t: Tree, s: Tree)
    requires t.Node? && Valid(t)
    requires Valid(s) && StoredHeight(t.left) - 1 <= StoredHeight(s) <= StoredHeight(t.left)
    requires DeleteShape(t.(left := s))
    ensures Rotatable(t.(left := s), DeleteCase(t.(left := s)))
    ensures var f := RebalanceDelete(t.(left := s)).tree;
      && StoredHeight(t) - 1 <= StoredHeight(f) <= StoredHeight(t)
      && (s == t.left ==> f == t)
  {
    RebalanceDeleteHeight(t.(left := s));
    if s == t.left {
      RefreshFixesConsistent(t);
    }
  }

  lemma {:induction false} SinkRight(t: Tree, s: Tree)
    requires t.Node? && Valid(t)
    requires Valid(s) && StoredHeight(t.right) - 1 <= StoredHeight(s) <= StoredHeight(t.right)
    requires DeleteShape(t.(right := s))
    ensures Rotatable(t.(right := s), DeleteCase(t.(right := s)))
    ensures var f := RebalanceDelete(t.(right := s)).tree;
      && StoredHeight(t) - 1 <= StoredHeight(f) <= StoredHeight(t)
      && (s == t.right ==> f == t)
  {
    RebalanceDeleteHeight(t.(right := s));
    if s == t.right {
      RefreshFixesConsistent(t);
    }
  }

  lemma {:induction false} SinkSuccessor(t: Tree, m: int, s: Tree)
    requires t.Node? && Valid(t)
    requires Valid(s) && StoredHeight(t.right) - 1 <= StoredHeight(s) <= StoredHeight(t.right)
    requires DeleteShape(t.(value := m, right := s))
    ensures Rotatable(t.(value := m, right := s), DeleteCase(t.(value := m, right := s)))
    ensures var f := RebalanceDelete(t.(value := m, right := s)).tree;
      StoredHeight(t) - 1 <= StoredHeight(f) <= StoredHeight(t)
  {
    RebalanceDeleteHeight(t.(value := m, right := s));
  }

  /** deleteRecursive. An absent position returns nothing. A smaller or
      larger key descends and rebalances on the way back. The node holding
      the key records a `delete` frame; with at most one child it is
      replaced by that child, with no recomputation; with two children it
      takes the key of its inorder successor and the successor is deleted
      from the right subtree.
      The result is a valid AVL tree holding the old keys without `v`; the
      height shrinks by at most one; an absent key changes nothing. */
  function DeleteRec(t: Tree, v: int): (r: Traced)
    requires Valid(t)
    ensures Valid(r.tree)
    ensures Keys(r.tree) == Keys(t) - {v}
    ensures StoredHeight(t) - 1 <= StoredHeight(r.tree) <= StoredHeight(t)
    ensures v !in Keys(t) ==> r.tree == t
    decreases t
  {
    match t
    case Nil => Traced(Nil, [])
    case Node(id, k, _, _, left, right) =>
      if v < k then
        var sub := DeleteRec(left, v);
        ShrinkLeft(t, v, sub.tree);
        SinkLeft(t, sub.tree);
        Descend(t, v);
        var fix := RebalanceDelete(t.(left := sub.tree));
        Traced(fix.tree, sub.events + fix.events)
      else if v > k then
        var sub := DeleteRec(right, v);
        ShrinkRight(t, v, sub.tree);
        SinkRight(t, sub.tree);
        Descend(t, v);
        var fix := RebalanceDelete(t.(right := sub.tree));
        Traced(fix.tree, sub.events + fix.events)
      else if left.Nil? || right.Nil? then
        Unlink(t);
        Traced(if left.Node? then left else right, [TaggedFrame(ActDelete, id)])
      else
        var m := Leftmost(right).value;
        var sub := DeleteRec(right, m);
        ShrinkSuccessor(t, m, sub.tree);
        SinkSuccessor(t, m, sub.tree);
        var fix := RebalanceDelete(t.(value := m, right := sub.tree));
        Traced(fix.tree, [TaggedFrame(ActDelete, id)] + sub.events + fix.events)
  }

  // ---------------------------------------------------------------------
  // Node identity.

  /** The node holding `v` in a search tree that contains it. */
  ghost function Holder(t: Tree, v: int): (h: Tree)
    requires Ordered(t) && v in Keys(t)
    ensures h.Node? && h.value == v && Ids(h) <= Ids(t) && Keys(h) <= Keys(t)
    decreases t
  {
    if v < t.value then Descend(t, v); Holder(t.left, v)
    else if v > t.value then Descend(t, v); Holder(t.right, v)
    else t
  }

  predicate TwoChildren(t: Tree) {
    t.Node? && t.left.Node? && t.right.Node?
  }

  /** The node that physically leaves the tree when `v` is deleted: the
      node holding `v` if it has at most one child, otherwise its inorder
      successor, whose key moves up. */
  ghost function Victim(t: Tree, v: int): (i: Id)
    requires Ordered(t) && v in Keys(t)
    ensures i in Ids(t)
  {
    var h := Holder(t, v);
    if TwoChildren(h) then Leftmost(h.right).id else h.id
  }

  /** The least key is held by the leftmost node. */
  lemma {:induction false} HolderOfLeast(t: Tree)
    requires t.Node? && Ordered(t)
    ensures Holder(t, Leftmost(t).value) == Leftmost(t)
    decreases t
  {
    if t.left.Node? {
      HolderOfLeast(t.left);
    }
  }

  /** Deleting a present key removes exactly one node, the victim: no id
      is created, the victim's id disappears and every other id survives. */
  lemma {:induction false} DeleteRemovesOne(t: Tree, v: int)
    requires Valid(t) && DistinctIds(t) && v in Keys(t)
    ensures var r := DeleteRec(t, v).tree;
      Ids(r) == Ids(t) - {Victim(t, v)} && Size(r) == Size(t) - 1
    decreases t
  {
    if v < t.value {
      Descend(t, v);
      DeleteRemovesOne(t.left, v);
      RemovesOneLeft(t, v);
    } else if v > t.value {
      Descend(t, v);
      DeleteRemovesOne(t.right, v);
      RemovesOneRight(t, v);
    } else if t.left.Nil? || t.right.Nil? {
      RemovesOneHere(t);
    } else {
      assert Valid(t.right);
      HolderOfLeast(t.right);
      DeleteRemovesOne(t.right, Leftmost(t.right).value);
      RemovesOneSuccessor(t);
    }
  }

  /** The (id, key) pairs deleting a present `v` takes away: the holder's,
      and when the holder has two children also its successor's. */
  ghost function Lost(t: Tree, v: int): set<(Id, int)>
    requires Ordered(t) && v in Keys(t)
  {
    var h := Holder(t, v);
    if TwoChildren(h) then {(h.id, v), (Leftmost(h.right).id, Leftmost(h.right).value)}
    else {(h.id, v)}
  }

  /** The pair it adds: with two children, the holder's id with its
      successor's key. */
  ghost function Gained(t: Tree, v: int): set<(Id, int)>
    requires Ordered(t) && v in Keys(t)
  {
    var h := Holder(t, v);
    if TwoChildren(h) then {(h.id, Leftmost(h.right).value)} else {}
  }

  /** Deleting a present key changes the (id, key) pairs by exactly that:
      every other node keeps its id and its key, wherever the holder sits
      in the tree. */
  lemma {:induction false} DeleteEntries(t: Tree, v: int)
    requires Valid(t) && v in Keys(t)
    ensures Entries(DeleteRec(t, v).tree) == (Entries(t) - Lost(t, v)) + Gained(t, v)
    decreases t
  {
    if v < t.value {
      Descend(t, v);
      DeleteEntries(t.left, v);
      EntriesLeft(t, v);
    } else if v > t.value {
      Descend(t, v);
      DeleteEntries(t.right, v);
      EntriesRight(t, v);
    } else if t.left.Nil? || t.right.Nil? {
      EntriesHere(t);
    } else {
      assert Valid(t.right);
      HolderOfLeast(t.right);
      DeleteEntries(t.right, Leftmost(t.right).value);
      EntriesSuccessor(t);
    }
  }

  /** The pairs lost belong to the tree's own keys. */
  lemma {:induction false} LostKeys(t: Tree, v: int)
    requires Ordered(t) && v in Keys(t)
    ensures forall p :: p in Lost(t, v) ==> p.1 in Keys(t)
  {
    var h := Holder(t, v);
    if TwoChildren(h) {
      assert Keys(h.right) <= Keys(h);
    }
  }

  lemma {:induction false} EntriesLeft(t: Tree, v: int)
    requires t.Node? && Valid(t) && v < t.value && v in Keys(t.left)
    requires Entries(DeleteRec(t.left, v).tree) == (Entries(t.left) - Lost(t.left, v)) + Gained(t.left, v)
    ensures Entries(DeleteRec(t, v).tree) == (Entries(t) - Lost(t, v)) + Gained(t, v)
  {
    var s := DeleteRec(t.left, v).tree;
    ShapeLeft(t, v, s);
    RebalanceDeleteRepairs(t.(left := s));
    assert Holder(t, v) == Holder(t.left, v);
    var x := (t.id, t.value);
    LostKeys(t.left, v);
    EntryKeys(t.right);
    forall p | p in Lost(t.left, v) ensures p !in {x} + Entries(t.right) {
      assert p.1 < t.value;
    }
    RejoinLeft(Entries(t.left), x, Entries(t.right), Lost(t, v), Gained(t, v));
  }

  lemma {:induction false} EntriesRight(t: Tree, v: int)
    requires t.Node? && Valid(t) && t.value < v && v in Keys(t.right)
    requires Entries(DeleteRec(t.right, v).tree) == (Entries(t.right) - Lost(t.right, v)) + Gained(t.right, v)
    ensures Entries(DeleteRec(t, v).tree) == (Entries(t) - Lost(t, v)) + Gained(t, v)
  {
    var s := DeleteRec(t.right, v).tree;
    ShapeRight(t, v, s);
    RebalanceDeleteRepairs(t.(right := s));
    assert Holder(t, v) == Holder(t.right, v);
    var x := (t.id, t.value);
    LostKeys(t.right, v);
    EntryKeys(t.left);
    forall p | p in Lost(t.right, v) ensures p !in Entries(t.left) + {x} {
      assert t.value < p.1;
    }
    RejoinRight(Entries(t.left), x, Entries(t.right), Lost(t, v), Gained(t, v));
  }

  lemma {:induction false} EntriesHere(t: Tree)
    requires t.Node? && Valid(t) && (t.left.Nil? || t.right.Nil?)
    ensures Entries(DeleteRec(t, t.value).tree) == (Entries(t) - Lost(t, t.value)) + Gained(t, t.value)
  {
    EntryKeys(t.left);
    EntryKeys(t.right);
    assert (t.id, t.value) !in Entries(t.left) + Entries(t.right);
  }

  lemma {:induction false} EntriesSuccessor(t: Tree)
    requires t.Node? && Valid(t) && t.left.Node? && t.right.Node?
    requires var m := Leftmost(t.right).value;
      Ordered(t.right) && Holder(t.right, m) == Leftmost(t.right)
      && Entries(DeleteRec(t.right, m).tree) == (Entries(t.right) - Lost(t.right, m)) + Gained(t.right, m)
    ensures Entries(DeleteRec(t, t.value).tree) == (Entries(t) - Lost(t, t.value)) + Gained(t, t.value)
  {
    var m := Leftmost(t.right).value;
    var s := DeleteRec(t.right, m).tree;
    ShapeSuccessor(t, m, s);
    RebalanceDeleteRepairs(t.(value := m, right := s));
    var x, q, y := (t.id, t.value), (Leftmost(t.right).id, m), (t.id, m);
    assert Lost(t.right, m) == {q} && Gained(t.right, m) == {};
    assert Lost(t, t.value) == {x, q} && Gained(t, t.value) == {y};
    EntryKeys(t.left);
    EntryKeys(t.right);
    assert x !in Entries(t.left) && x !in Entries(t.right) && q !in Entries(t.left);
    Relabel(Entries(t.left), x, Entries(t.right), q, y);
  }

  lemma {:induction false} RejoinLeft<T>(a: set<T>, x: T, b: set<T>, lost: set<T>, gained: set<T>)
    requires lost !! {x} + b
    ensures ((a - lost) + gained) + {x} + b == ((a + {x} + b) - lost) + gained
  {
  }

  lemma {:induction false} RejoinRight<T>(a: set<T>, x: T, b: set<T>, lost: set<T>, gained: set<T>)
    requires lost !! a + {x}
    ensures a + {x} + ((b - lost) + gained) == ((a + {x} + b) - lost) + gained
  {
  }

  lemma {:induction false} Relabel<T>(a: set<T>, x: T, b: set<T>, q: T, y: T)
    requires x !in a && x !in b && q !in a
    ensures a + {y} + (b - {q}) == ((a + {x} + b) - {x, q}) + {y}
  {
  }

  /** So ids stay distinct. */
  lemma {:induction false} DeleteKeepsDistinctIds(t: Tree, v: int)
    requires Valid(t) && DistinctIds(t)
    ensures DistinctIds(DeleteRec(t, v).tree)
  {
    if v in Keys(t) {
      var r := DeleteRec(t, v).tree;
      DeleteRemovesOne(t, v);
      DistinctIdsIffCount(t);
      DistinctIdsIffCount(r);
    }
  }

  lemma {:induction false} RemovesOneHere(t: Tree)
    requires Valid(t) && DistinctIds(t) && t.Node? && (t.left.Nil? || t.right.Nil?)
    ensures var r := DeleteRec(t, t.value).tree;
      Ids(r) == Ids(t) - {t.id} && Size(r) == Size(t) - 1
  {
  }

  lemma {:induction false} RemovesOneLeft(t: Tree, v: int)
    requires t.Node? && Valid(t) && DistinctIds(t) && v < t.value && v in Keys(t.left)
    requires var s := DeleteRec(t.left, v).tree;
      Ids(s) == Ids(t.left) - {Victim(t.left, v)} && Size(s) == Size(t.left) - 1
    ensures var r := DeleteRec(t, v).tree;
      Ids(r) == Ids(t) - {Victim(t, v)} && Size(r) == Size(t) - 1
  {
    var s := DeleteRec(t.left, v).tree;
    ShapeLeft(t, v, s);
    RebalanceDeleteRepairs(t.(left := s));
    RemoveLeft(Ids(t.left), t.id, Ids(t.right), Victim(t.left, v));
  }

  lemma {:induction false} RemovesOneRight(t: Tree, v: int)
    requires t.Node? && Valid(t) && DistinctIds(t) && t.value < v && v in Keys(t.right)
    requires var s := DeleteRec(t.right, v).tree;
      Ids(s) == Ids(t.right) - {Victim(t.right, v)} && Size(s) == Size(t.right) - 1
    ensures var r := DeleteRec(t, v).tree;
      Ids(r) == Ids(t) - {Victim(t, v)} && Size(r) == Size(t) - 1
  {
    var s := DeleteRec(t.right, v).tree;
    ShapeRight(t, v, s);
    RebalanceDeleteRepairs(t.(right := s));
    RemoveRight(Ids(t.left), t.id, Ids(t.right), Victim(t.right, v));
  }

  lemma {:induction false} RemovesOneSuccessor(t: Tree)
    requires t.Node? && Valid(t) && DistinctIds(t) && t.left.Node? && t.right.Node?
    requires var m := Leftmost(t.right).value;
      var s := DeleteRec(t.right, m).tree;
      Ids(s) == Ids(t.right) - {Leftmost(t.right).id} && Size(s) == Size(t.right) - 1
    ensures var r := DeleteRec(t, t.value).tree;
      && Ids(r) == Ids(t) - {Leftmost(t.right).id} && Size(r) == Size(t) - 1
      && (t.id, Leftmost(t.right).value) in Entries(r)
  {
    var m := Leftmost(t.right).value;
    var s := DeleteRec(t.right, m).tree;
    ShapeSuccessor(t, m, s);
    RebalanceDeleteRepairs(t.(value := m, right := s));
    RemoveRight(Ids(t.left), t.id, Ids(t.right), Leftmost(t.right).id);
  }

  /** With two children, the node holding the key keeps its id and takes
      its successor's key; the successor's node is the one that leaves. */
  lemma {:induction false} DeleteTwoChildren(t: Tree)
    requires t.Node? && Valid(t) && DistinctIds(t) && t.left.Node? && t.right.Node?
    ensures Victim(t, t.value) == Leftmost(t.right).id
    ensures (t.id, Leftmost(t.right).value) in Entries(DeleteRec(t, t.value).tree)
    ensures Leftmost(t.right).id !in Ids(DeleteRec(t, t.value).tree)
  {
    var m := Leftmost(t.right).value;
    assert Valid(t.right);
    HolderOfLeast(t.right);
    DeleteRemovesOne(t.right, m);
    RemovesOneSuccessor(t);
    DeleteRemovesOne(t, t.value);
  }

  // ---------------------------------------------------------------------
  // The recorded frames.

  /** A pair of `rotate` frames with comparison trees, as each rotation
      records. */
  ghost predicate RotatePair(a: seq<Event>) {
    && |a| == 2
    && a[0].action == ActRotate && a[1].action == ActRotate
    && a[0].hasComparison && a[1].hasComparison
  }

  /** The frames one ancestor records on deletion: a `check` frame and the
      rotations' `rotate` frames, nothing else. */
  lemma {:induction false} CheckThenPairs(check: Event, a: seq<Event>, b: seq<Event>, t: Action)
    requires check.action == ActCheck && !check.hasComparison
    requires RotatePair(a) && (b == [] || RotatePair(b))
    ensures var f := [check] + a + b;
      && Count(f, t) == (if t == ActRotate then |a| + |b| else if t == ActCheck then 1 else 0)
      && ComparisonOnRotate(f)
  {
    CountAppend([check] + a, b, t);
    CountAppend([check], a, t);
    CountOne(check, t);
    CountPair(a, t);
    if b == [] {
      assert Count(b, t) == 0;
    } else {
      CountPair(b, t);
    }
    ComparisonAppend([check], a);
    ComparisonAppend([check] + a, b);
  }

  /** The frames of the return path of deletion: a `check` frame, then no
      `rotate` frame, two for a single rotation or four for a double one;
      never an `imbalance` frame; only `rotate` frames carry a comparison
      tree. */
  lemma {:induction false} RebalanceDeleteTrace(n: Tree)
    requires n.Node? && Rotatable(n, DeleteCase(n))
    ensures var f := RebalanceDelete(n).events;
      var c := DeleteCase(n);
      && ComparisonOnRotate(f)
      && Count(f, ActImbalance) == 0 && Count(f, ActInsert) == 0 && Count(f, ActDelete) == 0
      && (c == NoRotation ==> Count(f, ActRotate) == 0)
      && (c == LeftLeft || c == RightRight ==> Count(f, ActRotate) == 2)
      && (c == LeftRight || c == RightLeft ==> Count(f, ActRotate) == 4)
  {
    var m := Refresh(n);
    var check := TaggedFrame(ActCheck, m.id);
    match DeleteCase(n)
    case NoRotation =>
      forall t { CountOne(check, t); }
    case LeftLeft =>
      var a := RotateRight(m).events;
      assert [check] + a == [check] + a + [];
      forall t { CheckThenPairs(check, a, [], t); }
      CheckThenPairs(check, a, [], ActRotate);
    case RightRight =>
      var a := RotateLeft(m).events;
      assert [check] + a == [check] + a + [];
      forall t { CheckThenPairs(check, a, [], t); }
      CheckThenPairs(check, a, [], ActRotate);
    case LeftRight =>
      var inner := RotateLeft(m.left);
      var outer := RotateRight(m.(left := inner.tree));
      forall t { CheckThenPairs(check, inner.events, outer.events, t); }
      CheckThenPairs(check, inner.events, outer.events, ActRotate);
    case RightLeft =>
      var inner := RotateRight(m.right);
      var outer := RotateLeft(m.(right := inner.tree));
      forall t { CheckThenPairs(check, inner.events, outer.events, t); }
      CheckThenPairs(check, inner.events, outer.events, ActRotate);
  }

  /** The shape of a run of deletion frames: only `rotate` frames carry a
      comparison tree; no `imbalance` or `insert` frame; an even number of
      `rotate` frames; exactly `deletes` `delete` frames; and no rotation
      at all when `quiet`. */
  ghost predicate Framed(f: seq<Event>, deletes: nat, quiet: bool) {
    && ComparisonOnRotate(f)
    && Count(f, ActImbalance) == 0
    && Count(f, ActInsert) == 0
    && Even(Count(f, ActRotate))
    && Count(f, ActDelete) == deletes
    && (quiet ==> Count(f, ActRotate) == 0)
  }

  /** How many `delete` frames deleting `v` records: none for an absent
      key, two when the node holding it has two children, one otherwise. */
  ghost function Deletes(t: Tree, v: int): nat
    requires Ordered(t)
  {
    if v !in Keys(t) then 0 else if TwoChildren(Holder(t, v)) then 2 else 1
  }

  /** The frames of one deleteRecursive call: rotations come in pairs of
      `rotate` frames, each with a comparison tree, and no other frame
      carries one; deletion never records an `imbalance` frame; an absent
      key records neither a rotation nor a `delete` frame; a present key
      records one `delete` frame, or two when its node has two children
      (one for the node, one for its successor). */
  lemma {:induction false} DeleteTrace(t: Tree, v: int)
    requires Valid(t)
    ensures var f := DeleteRec(t, v).events;
      && ComparisonOnRotate(f)
      && Count(f, ActImbalance) == 0
      && Count(f, ActInsert) == 0
      && Even(Count(f, ActRotate))
      && (v !in Keys(t) ==> Count(f, ActRotate) == 0 && Count(f, ActDelete) == 0)
      && (v in Keys(t) ==> Count(f, ActDelete) == if TwoChildren(Holder(t, v)) then 2 else 1)
  {
    DeleteFramedHolds(t, v);
  }

  lemma {:induction false} DeleteFramedHolds(t: Tree, v: int)
    requires Valid(t)
    ensures Framed(DeleteRec(t, v).events, Deletes(t, v), v !in Keys(t))
    decreases t
  {
    if t.Node? {
      if v < t.value {
        DeleteFramedHolds(t.left, v);
        DescentFramed(t, v);
      } else if v > t.value {
        DeleteFramedHolds(t.right, v);
        DescentFramed(t, v);
      } else if t.left.Nil? || t.right.Nil? {
        forall a { CountOne(TaggedFrame(ActDelete, t.id), a); }
      } else {
        assert Valid(t.right);
        DeleteFramedHolds(t.right, Leftmost(t.right).value);
        SuccessorFramed(t);
      }
    }
  }

  /** Frames joined: the counts add up and quiet holds when both are. */
  lemma {:induction false} FramedJoin(a: seq<Event>, da: nat, qa: bool, b: seq<Event>, db: nat, qb: bool)
    requires Framed(a, da, qa) && Framed(b, db, qb)
    ensures Framed(a + b, da + db, qa && qb)
  {
    ComparisonAppend(a, b);
    CountAppend(a, b, ActImbalance);
    CountAppend(a, b, ActInsert);
    CountAppend(a, b, ActRotate);
    CountAppend(a, b, ActDelete);
    EvenAdd(Count(a, ActRotate), Count(b, ActRotate));
  }

  /** The return path in those terms. */
  lemma {:induction false} FixFramed(n: Tree)
    requires n.Node? && Rotatable(n, DeleteCase(n))
    ensures Framed(RebalanceDelete(n).events, 0, DeleteCase(n) == NoRotation)
  {
    RebalanceDeleteTrace(n);
    assert Even(0) && Even(2) && Even(4);
  }

  /** deleteRecursive at a node whose key differs from `v`: the call below,
      then the return path. */
  lemma {:induction false} DescentUnfold(t: Tree, v: int)
    requires t.Node? && Valid(t) && v != t.value
    ensures var c := if v < t.value then t.left else t.right;
      var sub := DeleteRec(c, v);
      var n := if v < t.value then t.(left := sub.tree) else t.(right := sub.tree);
      && Rotatable(n, DeleteCase(n))
      && DeleteRec(t, v) == Traced(RebalanceDelete(n).tree, sub.events + RebalanceDelete(n).events)
      && (v !in Keys(t) ==> n == t && DeleteCase(n) == NoRotation)
  {
    var c := if v < t.value then t.left else t.right;
    var sub := DeleteRec(c, v);
    if v < t.value {
      ShrinkLeft(t, v, sub.tree);
    } else {
      ShrinkRight(t, v, sub.tree);
    }
    Descend(t, v);
  }

  /** deleteRecursive at a node with two children holding `v`. */
  lemma {:induction false} SuccessorUnfold(t: Tree)
    requires t.Node? && Valid(t) && t.left.Node? && t.right.Node?
    ensures Valid(t.right)
    ensures var m := Leftmost(t.right).value;
      var sub := DeleteRec(t.right, m);
      var n := t.(value := m, right := sub.tree);
      && Rotatable(n, DeleteCase(n))
      && DeleteRec(t, t.value) == Traced(RebalanceDelete(n).tree,
           [TaggedFrame(ActDelete, t.id)] + sub.events + RebalanceDelete(n).events)
  {
    assert Valid(t.right);
    var m := Leftmost(t.right).value;
    ShrinkSuccessor(t, m, DeleteRec(t.right, m).tree);
  }

  /** Below a node whose key differs from `v`, the counts are those of
      the child's call. */
  lemma {:induction false} DeletesBelow(t: Tree, v: int)
    requires t.Node? && Ordered(t) && v != t.value
    ensures Deletes(t, v) == Deletes(if v < t.value then t.left else t.right, v)
  {
    Descend(t, v);
  }

  /** One level of the induction below a node whose key differs. */
  lemma {:induction false} DescentFramed(t: Tree, v: int)
    requires t.Node? && Valid(t) && v != t.value
    requires var c := if v < t.value then t.left else t.right;
      Framed(DeleteRec(c, v).events, Deletes(c, v), v !in Keys(c))
    ensures Framed(DeleteRec(t, v).events, Deletes(t, v), v !in Keys(t))
  {
    DescentUnfold(t, v);
    var c := if v < t.value then t.left else t.right;
    var sub := DeleteRec(c, v);
    var n := if v < t.value then t.(left := sub.tree) else t.(right := sub.tree);
    FixFramed(n);
    FramedJoin(sub.events, Deletes(c, v), v !in Keys(c),
      RebalanceDelete(n).events, 0, DeleteCase(n) == NoRotation);
    DeletesBelow(t, v);
    Descend(t, v);
  }

  /** The node with two children: its `delete` frame, the frames of
      deleting the successor, and the return path. */
  lemma {:induction false} SuccessorFramed(t: Tree)
    requires t.Node? && Valid(t) && t.left.Node? && t.right.Node?
    requires Valid(t.right)
    requires Framed(DeleteRec(t.right, Leftmost(t.right).value).events,
      Deletes(t.right, Leftmost(t.right).value), Leftmost(t.right).value !in Keys(t.right))
    ensures Framed(DeleteRec(t, t.value).events, Deletes(t, t.value), t.value !in Keys(t))
  {
    SuccessorUnfold(t);
    var m := Leftmost(t.right).value;
    var sub := DeleteRec(t.right, m);
    var n := t.(value := m, right := sub.tree);
    var del := TaggedFrame(ActDelete, t.id);
    HolderOfLeast(t.right);
    assert Deletes(t.right, m) == 1;
    forall a { CountOne(del, a); }
    CountOne(del, ActRotate);
    ComparisonOne(del);
    assert Even(0);
    assert Framed([del], 1, false);
    FixFramed(n);
    FramedJoin([del], 1, false, sub.events, 1, false);
    FramedJoin([del] + sub.events, 2, false, RebalanceDelete(n).events, 0, DeleteCase(n) == NoRotation);
  }
}
