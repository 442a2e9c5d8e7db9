/** insertRecursive: search-tree descent, leaf creation with a fresh id,
    and on the way back up the recomputation of each ancestor followed by
    the four-case rebalance decided by comparing the inserted value with
    the child's key. */
module Insertion {
  import opened Types
  import opened Shape
  import opened Rotations
  import opened Trace

  /** `c` leans, by one level, towards the side where `v` lies. */
  ghost predicate LeansToward(c: Tree, v: int) {
    c.Node? && ((Balance(c) == 1 && v < c.value) || (Balance(c) == -1 && c.value < v))
  }

  /** A node whose child has just received `v`: valid children, search order,
      heights differing by at most two, and when they differ by two the
      taller child leans towards `v`. */
  ghost predicate InsertShape(n: Tree, v: int) {
    && n.Node? && Ordered(n) && Valid(n.left) && Valid(n.right)
    && -2 <= StoredHeight(n.left) - StoredHeight(n.right) <= 2
    && (StoredHeight(n.left) - StoredHeight(n.right) == 2 ==> LeansToward(n.left, v))
    && (StoredHeight(n.left) - StoredHeight(n.right) == -2 ==> LeansToward(n.right, v))
  }

  /** The case insertRecursive picks at an ancestor, by comparing the
      inserted value with the key of the child on the heavy side, tried in
      the source's order: left-left, right-right, left-right, right-left.
      Under the insertion invariant this comparison picks exactly the case
      the balance analysis prescribes. */
  function InsertCase(n: Tree, v: int): (c: Case)
    requires n.Node? && (Balance(n) > 1 ==> n.left.Node?) && (Balance(n) < -1 ==> n.right.Node?)
    ensures InsertShape(n, v) ==> Repairable(n, c)
  {
    var balance := Balance(n);
    if balance > 1 && v < n.left.value then LeftLeft
    else if balance < -1 && v > n.right.value then RightRight
    else if balance > 1 && v > n.left.value then LeftRight
    else if balance < -1 && v < n.right.value then RightLeft
    else NoRotation
  }

  /** What the return path dereferences is present. */
  ghost predicate RebalanceReady(n: Tree, v: int) {
    && n.Node?
    && (Balance(n) > 1 ==> n.left.Node?)
    && (Balance(n) < -1 ==> n.right.Node?)
    && Rotatable(n, InsertCase(n, v))
  }

  /** The return path of insertRecursive at one ancestor: recompute height
      and balance factor, record a `check` frame, then perform the case's
      rotations, each case announced by an `imbalance` frame; a double
      rotation records an extra `rotate` frame on the child before its
      first rotation and a second `imbalance` frame before its second. */
  function RebalanceInsert(n: Tree, v: int): (r: Traced)
    requires RebalanceReady(n, v)
    ensures r.tree == Rotated(Refresh(n), InsertCase(n, v))
    ensures |r.events| >= 1 && r.events[0] == TaggedFrame(ActCheck, n.id)
  {
    var m := Refresh(n);
    var check := TaggedFrame(ActCheck, m.id);
    var imbalance := TaggedFrame(ActImbalance, m.id);
    match InsertCase(n, v)
    case LeftLeft =>
      var rot := RotateRight(m);
      Traced(rot.tree, [check, imbalance] + rot.events)
    case RightRight =>
      var rot := RotateLeft(m);
      Traced(rot.tree, [check, imbalance] + rot.events)
    case LeftRight =>
      var inner := RotateLeft(m.left);
      var outer := RotateRight(m.(left := inner.tree));
      Traced(outer.tree, [check, imbalance, RotateFrame(m.left.id)] + inner.events + [imbalance] + outer.events)
    case RightLeft =>
      var inner := RotateRight(m.right);
      var outer := RotateLeft(m.(right := inner.tree));
      Traced(outer.tree, [check, imbalance, RotateFrame(m.right.id)] + inner.events + [imbalance] + outer.events)
    case NoRotation =>
      Traced(m, [check])
  }

  /** Under the insertion invariant the return path can run; a node within
      the bound is only recomputed, and a rotation brings the subtree back
      to the height of its taller child. */
  lemma {:induction false} RebalanceInsertHeight(n: Tree, v: int)
    requires InsertShape(n, v)
    ensures RebalanceReady(n, v)
    ensures var f := RebalanceInsert(n, v).tree;
      && (-1 <= Balance(n) <= 1 ==> f == Refresh(n))
      && (Balance(n) == 2 || Balance(n) == -2 ==> StoredHeight(f) == Max(StoredHeight(n.left), StoredHeight(n.right)))
  {
    RotatedRepairs(n, InsertCase(n, v));
  }

  /** The return path leaves a valid AVL tree holding the same nodes in
      the same order. */
  lemma {:induction false} RebalanceInsertRepairs(n: Tree, v: int)
    requires InsertShape(n, v)
    ensures RebalanceReady(n, v)
    ensures var f := RebalanceInsert(n, v).tree;
      && Valid(f)
      && Inorder(f) == Inorder(n) && IdOrder(f) == IdOrder(n)
      && Keys(f) == Keys(n) && Ids(f) == Ids(n) && Entries(f) == Entries(n)
      && Size(f) == Size(n)
  {
    var c := InsertCase(n, v);
    RotatedRepairs(n, c);
    RotatedKeeps(Refresh(n), c);
  }

  /** After inserting `v` below the left child, the node has the shape the
      return path expects. */
  lemma {:induction false} GrowLeftShape(t: Tree, v: int, s: Tree)
    requires t.Node? && Valid(t) && v < t.value
    requires s.Node? && Valid(s) && Keys(s) == Keys(t.left) + {v}
    requires StoredHeight(t.left) <= StoredHeight(s) <= StoredHeight(t.left) + 1
    requires StoredHeight(s) == StoredHeight(t.left) + 1 && StoredHeight(s) >= 2 ==> LeansToward(s, v)
    ensures InsertShape(t.(left := s), v)
  {
    StoredHeightIsHeight(t.right);
  }

  lemma {:induction false} GrowRightShape(t: Tree, v: int, s: Tree)
    requires t.Node? && Valid(t) && t.value < v
    requires s.Node? && Valid(s) && Keys(s) == Keys(t.right) + {v}
    requires StoredHeight(t.right) <= StoredHeight(s) <= StoredHeight(t.right) + 1
    requires StoredHeight(s) == StoredHeight(t.right) + 1 && StoredHeight(s) >= 2 ==> LeansToward(s, v)
    ensures InsertShape(t.(right := s), v)
  {
    StoredHeightIsHeight(t.left);
  }

  /** One step of the return path after inserting `v` below the left
      child: the rebuilt node is valid and holds the old keys and `v`. */
  lemma {:induction false} GrowLeft(t: Tree, v: int, s: Tree)
    requires t.Node? && Valid(t) && v < t.value
    requires s.Node? && Valid(s) && Keys(s) == Keys(t.left) + {v}
    requires StoredHeight(t.left) <= StoredHeight(s) <= StoredHeight(t.left) + 1
    requires StoredHeight(s) == StoredHeight(t.left) + 1 && StoredHeight(s) >= 2 ==> LeansToward(s, v)
    ensures RebalanceReady(t.(left := s), v)
    ensures var f := RebalanceInsert(t.(left := s), v).tree;
      Valid(f) && Keys(f) == Keys(t) + {v}
  {
    GrowLeftShape(t, v, s);
    RebalanceInsertRepairs(t.(left := s), v);
  }

  lemma {:induction false} GrowRight(t: Tree, v: int, s: Tree)
    requires t.Node? && Valid(t) && t.value < v
    requires s.Node? && Valid(s) && Keys(s) == Keys(t.right) + {v}
    requires StoredHeight(t.right) <= StoredHeight(s) <= StoredHeight(t.right) + 1
    requires StoredHeight(s) == StoredHeight(t.right) + 1 && StoredHeight(s) >= 2 ==> LeansToward(s, v)
    ensures RebalanceReady(t.(right := s), v)
    ensures var f := RebalanceInsert(t.(right := s), v).tree;
      Valid(f) && Keys(f) == Keys(t) + {v}
  {
    GrowRightShape(t, v, s);
    RebalanceInsertRepairs(t.(right := s), v);
  }

  /** The same step, for the height: the rebuilt node grows by at most one
      level, leans towards `v` when it grows, and is the old node itself
      when the child came back unchanged. */
  lemma {:induction false} RiseLeft(t: Tree, v: int, s: Tree)
    requires t.Node? && Valid(t) && v < t.value
    requires s.Node? && Valid(s) && Keys(s) == Keys(t.left) + {v}
    requires StoredHeight(t.left) <= StoredHeight(s) <= StoredHeight(t.left) + 1
    requires StoredHeight(s) == StoredHeight(t.left) + 1 && StoredHeight(s) >= 2 ==> LeansToward(s, v)
    ensures RebalanceReady(t.(left := s), v)
    ensures var f := RebalanceInsert(t.(left := s), v).tree;
      && StoredHeight(t) <= StoredHeight(f) <= StoredHeight(t) + 1
      && (StoredHeight(f) == StoredHeight(t) + 1 && StoredHeight(f) >= 2 ==> LeansToward(f, v))
      && (s == t.left ==> f == t)
  {
    GrowLeftShape(t, v, s);
    RebalanceInsertHeight(t.(left := s), v);
    StoredHeightIsHeight(t.left);
    StoredHeightIsHeight(t.right);
    if s == t.left {
      RefreshFixesConsistent(t);
    }
  }

  lemma {:induction false} RiseRight(t: Tree, v: int, s: Tree)
    requires t.Node? && Valid(t) && t.value < v
    requires s.Node? && Valid(s) && Keys(s) == Keys(t.right) + {v}
    requires StoredHeight(t.right) <= StoredHeight(s) <= StoredHeight(t.right) + 1
    requires StoredHeight(s) == StoredHeight(t.right) + 1 && StoredHeight(s) >= 2 ==> LeansToward(s, v)
    ensures RebalanceReady(t.(right := s), v)
    ensures var f := RebalanceInsert(t.(right := s), v).tree;
      && StoredHeight(t) <= StoredHeight(f) <= StoredHeight(t) + 1
      && (StoredHeight(f) == StoredHeight(t) + 1 && StoredHeight(f) >= 2 ==> LeansToward(f, v))
      && (s == t.right ==> f == t)
  {
    GrowRightShape(t, v, s);
    RebalanceInsertHeight(t.(right := s), v);
    StoredHeightIsHeight(t.left);
    StoredHeightIsHeight(t.right);
    if s == t.right {
      RefreshFixesConsistent(t);
    }
  }

  /** insertRecursive. An absent position becomes a leaf with the counter's
      id, height 1 and balance factor 0, announced by an `insert` frame; an
      internal node records an `info` comparison frame, descends, and then
      rebalances; an equal key records "already exists" and returns the
      subtree as it was.
      The result is a valid AVL tree holding the old keys and `v`; a new
      key costs exactly one fresh id; the height grows by at most one, and
      when it grows the new root leans towards `v`. */
  function InsertRec(t: Tree, v: int, next: Id): (r: Grown)
    requires Valid(t)
    ensures r.tree.Node? && Valid(r.tree)
    ensures Keys(r.tree) == Keys(t) + {v}
    ensures v in Keys(t) ==> r.tree == t && r.next == next
    ensures StoredHeight(t) <= StoredHeight(r.tree) <= StoredHeight(t) + 1
    ensures StoredHeight(r.tree) == StoredHeight(t) + 1 && StoredHeight(r.tree) >= 2 ==> LeansToward(r.tree, v)
    decreases t
  {
    match t
    case Nil =>
      Grown(Node(next, v, 1, 0, Nil, Nil), [TaggedFrame(ActInsert, next)], next + 1)
    case Node(id, k, _, _, left, right) =>
      var visit := TaggedFrame(ActInfo, id);
      if v < k then
        var sub := InsertRec(left, v, next);
        GrowLeft(t, v, sub.tree);
        RiseLeft(t, v, sub.tree);
        Descend(t, v);
        var fix := RebalanceInsert(t.(left := sub.tree), v);
        Grown(fix.tree, [visit] + sub.events + fix.events, sub.next)
      else if v > k then
        var sub := InsertRec(right, v, next);
        GrowRight(t, v, sub.tree);
        RiseRight(t, v, sub.tree);
        Descend(t, v);
        var fix := RebalanceInsert(t.(right := sub.tree), v);
        Grown(fix.tree, [visit] + sub.events + fix.events, sub.next)
      else
        Grown(t, [visit, TaggedFrame(ActInfo, id)], next)
  }

  /** A duplicate key records two `info` frames at its own node (the
      comparison and "already exists") and two frames at every ancestor
      (the `info` comparison on the way down, the `check` on the way
      back), and nothing else. */
  lemma {:induction false} DuplicateFrames(t: Tree, v: int, next: Id)
    requires Valid(t) && v in Keys(t)
    ensures var f := InsertRec(t, v, next).events;
      && |f| == 2 * Depth(t, v) + 2
      && Count(f, ActInfo) == Depth(t, v) + 2
      && Count(f, ActCheck) == Depth(t, v)
    decreases t
  {
    var f := InsertRec(t, v, next).events;
    if v == t.value {
      CountPair(f, ActInfo);
      CountPair(f, ActCheck);
    } else {
      Descend(t, v);
      var c := if v < t.value then t.left else t.right;
      DuplicateFrames(c, v, next);
      DuplicateStep(t, v, next);
      var sub := InsertRec(c, v, next).events;
      var check := TaggedFrame(ActCheck, t.id);
      CountJoin(TaggedFrame(ActInfo, t.id), sub, [check], ActInfo);
      CountJoin(TaggedFrame(ActInfo, t.id), sub, [check], ActCheck);
      CountOne(check, ActInfo);
      CountOne(check, ActCheck);
    }
  }

  /** One ancestor of a duplicate key: the subtree comes back unchanged, so
      the node records its comparison frame, the frames from below, and
      only the `check` frame of its return path. */
  lemma {:induction false} DuplicateStep(t: Tree, v: int, next: Id)
    requires Valid(t) && v in Keys(t) && v != t.value
    ensures var c := if v < t.value then t.left else t.right;
      InsertRec(t, v, next).events
        == [TaggedFrame(ActInfo, t.id)] + InsertRec(c, v, next).events + [TaggedFrame(ActCheck, t.id)]
  {
    Descend(t, v);
    var c := if v < t.value then t.left else t.right;
    var sub := InsertRec(c, v, next);
    assert sub.tree == c;
    var n := if v < t.value then t.(left := sub.tree) else t.(right := sub.tree);
    assert n == t;
    assert InsertCase(t, v) == NoRotation;
  }

  // ---------------------------------------------------------------------
  // Node identity.

  /** A new key adds exactly one node: the fresh id paired with `v`; every
      other (id, key) pair survives, and the counter advances by one. */
  lemma {:induction false} InsertAddsOneNode(t: Tree, v: int, next: Id)
    requires Valid(t) && v !in Keys(t)
    ensures var r := InsertRec(t, v, next);
      && r.next == next + 1
      && Entries(r.tree) == Entries(t) + {(next, v)}
      && Ids(r.tree) == Ids(t) + {next}
      && Size(r.tree) == Size(t) + 1
    decreases t
  {
    if t.Node? {
      var c := if v < t.value then t.left else t.right;
      Descend(t, v);
      InsertAddsOneNode(c, v, next);
      AddsOneNodeStep(t, v, next, c);
    }
  }

  lemma {:induction false} AddsOneNodeStep(t: Tree, v: int, next: Id, c: Tree)
    requires t.Node? && Valid(t) && v !in Keys(t)
    requires c == (if v < t.value then t.left else t.right)
    requires var r := InsertRec(c, v, next);
      && r.next == next + 1
      && Entries(r.tree) == Entries(c) + {(next, v)}
      && Ids(r.tree) == Ids(c) + {next}
      && Size(r.tree) == Size(c) + 1
    ensures var r := InsertRec(t, v, next);
      && r.next == next + 1
      && Entries(r.tree) == Entries(t) + {(next, v)}
      && Ids(r.tree) == Ids(t) + {next}
      && Size(r.tree) == Size(t) + 1
  {
    InsertUnfold(t, v, next);
    var sub := InsertRec(c, v, next);
    var n := if v < t.value then t.(left := sub.tree) else t.(right := sub.tree);
    RebalanceInsertRepairs(n, v);
    var x := (t.id, t.value);
    if v < t.value {
      AddLeft(Entries(t.left), x, Entries(t.right), (next, v));
      AddLeft(Ids(t.left), t.id, Ids(t.right), next);
    } else {
      AddRight(Entries(t.left), x, Entries(t.right), (next, v));
      AddRight(Ids(t.left), t.id, Ids(t.right), next);
    }
  }

  lemma {:induction false} AddLeft<T>(a: set<T>, x: T, b: set<T>, p: T)
    ensures (a + {p}) + {x} + b == (a + {x} + b) + {p}
  {
  }

  lemma {:induction false} AddRight<T>(a: set<T>, x: T, b: set<T>, p: T)
    ensures a + {x} + (b + {p}) == (a + {x} + b) + {p}
  {
  }

  /** Ids stay distinct and below the counter, so the id handed to the new
      leaf is one no node had. */
  lemma {:induction false} InsertKeepsIdsFresh(t: Tree, v: int, next: Id)
    requires Valid(t) && DistinctIds(t) && IdsBelow(t, next)
    ensures var r := InsertRec(t, v, next);
      && next !in Ids(t)
      && r.next >= next
      && DistinctIds(r.tree) && IdsBelow(r.tree, r.next)
  {
    var r := InsertRec(t, v, next);
    FreshId(Ids(t), next);
    if v !in Keys(t) {
      InsertAddsOneNode(t, v, next);
      DistinctIdsIffCount(t);
      DistinctIdsIffCount(r.tree);
    }
  }

  /** A counter above every id in use hands out an id not in use. */
  lemma {:induction false} FreshId(ids: set<Id>, next: Id)
    requires forall i :: i in ids ==> i < next
    ensures next !in ids
    ensures |ids + {next}| == |ids| + 1
    ensures forall i :: i in ids + {next} ==> i < next + 1
  {
  }

  // ---------------------------------------------------------------------
  // The recorded frames.

  /** The frame pattern of a single rotation case: `check`, `imbalance`,
      then the rotation's two `rotate` frames. */
  lemma {:induction false} SingleFrames(check: Event, imb: Event, a: seq<Event>, t: Action)
    requires check.action == ActCheck && !check.hasComparison
    requires imb.action == ActImbalance && !imb.hasComparison
    requires |a| == 2 && a[0].action == a[1].action == ActRotate
    requires a[0].hasComparison && a[1].hasComparison
    ensures var f := [check, imb] + a;
      && Count(f, t) == (if t == ActRotate then 2 else if t == ActImbalance || t == ActCheck then 1 else 0)
      && ImbalanceFirst(f)
      && ComparisonOnRotate(f)
  {
    var f := [check, imb] + a;
    CountAppend([check, imb], a, t);
    CountPair([check, imb], t);
    CountPair(a, t);
    assert f == [check] + ([imb] + a);
    ImbalanceFirstLed(imb, a);
    ComparisonPair([check, imb]);
    ComparisonPair(a);
    ComparisonAppend([check, imb], a);
  }

  /** The frame pattern of a double rotation case: `check`, `imbalance`, a
      `rotate` frame on the child, the child rotation's two `rotate` frames,
      a second `imbalance`, and the pivot rotation's two `rotate` frames. */
  lemma {:induction false} DoubleFrames(check: Event, imb: Event, prep: Event, a: seq<Event>, b: seq<Event>, t: Action)
    requires check.action == ActCheck && !check.hasComparison
    requires imb.action == ActImbalance && !imb.hasComparison
    requires prep.action == ActRotate && prep.hasComparison
    requires |a| == 2 && a[0].action == a[1].action == ActRotate
    requires a[0].hasComparison && a[1].hasComparison
    requires |b| == 2 && b[0].action == b[1].action == ActRotate
    requires b[0].hasComparison && b[1].hasComparison
    ensures var f := [check, imb, prep] + a + [imb] + b;
      && Count(f, t) == (if t == ActRotate then 5 else if t == ActImbalance then 2 else if t == ActCheck then 1 else 0)
      && ImbalanceFirst(f)
      && ComparisonOnRotate(f)
  {
    var f := [check, imb, prep] + a + [imb] + b;
    CountAppend([check, imb, prep] + a + [imb], b, t);
    CountAppend([check, imb, prep] + a, [imb], t);
    CountAppend([check, imb, prep], a, t);
    assert [check, imb, prep] == [check] + [imb, prep];
    CountAppend([check], [imb, prep], t);
    CountOne(check, t);
    CountOne(imb, t);
    CountPair([imb, prep], t);
    CountPair(a, t);
    CountPair(b, t);
    assert f == [check] + ([imb] + ([prep] + a + [imb] + b));
    ImbalanceFirstLed(imb, [prep] + a + [imb] + b);
    ComparisonOne(check);
    ComparisonPair([imb, prep]);
    ComparisonAppend([check], [imb, prep]);
    ComparisonPair(a);
    ComparisonAppend([check, imb, prep], a);
    ComparisonOne(imb);
    ComparisonAppend([check, imb, prep] + a, [imb]);
    ComparisonPair(b);
    ComparisonAppend([check, imb, prep] + a + [imb], b);
  }

  /** The frames one ancestor records: a `check` frame on the node, and
      then nothing when no rotation is needed; for a single rotation an
      `imbalance` frame on the node and the rotation's two `rotate` frames
      (on the node moving down, then on the child moving up); for a double
      rotation an `imbalance` frame, a `rotate` frame on the child, the
      child's rotation, a second `imbalance` frame on the node, and the
      node's rotation. */
  lemma {:induction false} RebalanceInsertFrames(n: Tree, v: int)
    requires RebalanceReady(n, v)
    ensures var f := RebalanceInsert(n, v).events;
      var c := InsertCase(n, v);
      var check, imb := TaggedFrame(ActCheck, n.id), TaggedFrame(ActImbalance, n.id);
      && (c == NoRotation ==> f == [check])
      && (c == LeftLeft ==> f == [check, imb, RotateFrame(n.id), RotateFrame(n.left.id)])
      && (c == RightRight ==> f == [check, imb, RotateFrame(n.id), RotateFrame(n.right.id)])
      && (c == LeftRight ==> f == [check, imb, RotateFrame(n.left.id),
            RotateFrame(n.left.id), RotateFrame(n.left.right.id),
            imb, RotateFrame(n.id), RotateFrame(n.left.right.id)])
      && (c == RightLeft ==> f == [check, imb, RotateFrame(n.right.id),
            RotateFrame(n.right.id), RotateFrame(n.right.left.id),
            imb, RotateFrame(n.id), RotateFrame(n.right.left.id)])
  {
  }

  /** So an ancestor records nothing but a `check` frame when no rotation
      is needed, one `imbalance` frame and two `rotate` frames for a single
      rotation, and two `imbalance` frames and five `rotate` frames for a
      double one. An `imbalance` frame always comes first, only `rotate`
      frames carry a comparison tree, and no `insert` frame is recorded. */
  lemma {:induction false} RebalanceInsertTrace(n: Tree, v: int)
    requires RebalanceReady(n, v)
    ensures var f := RebalanceInsert(n, v).events;
      var c := InsertCase(n, v);
      && ImbalanceFirst(f)
      && ComparisonOnRotate(f)
      && Count(f, ActInsert) == 0
      && (c == NoRotation ==> Count(f, ActRotate) == 0 && Count(f, ActImbalance) == 0)
      && (c == LeftLeft || c == RightRight ==> Count(f, ActRotate) == 2 && Count(f, ActImbalance) == 1)
      && (c == LeftRight || c == RightLeft ==> Count(f, ActRotate) == 5 && Count(f, ActImbalance) == 2)
  {
    var m := Refresh(n);
    var check := TaggedFrame(ActCheck, m.id);
    var imb := TaggedFrame(ActImbalance, m.id);
    match InsertCase(n, v)
    case NoRotation =>
      CountOne(check, ActInsert);
      CountOne(check, ActRotate);
      CountOne(check, ActImbalance);
    case LeftLeft =>
      forall t { SingleFrames(check, imb, RotateRight(m).events, t); }
      SingleFrames(check, imb, RotateRight(m).events, ActInsert);
    case RightRight =>
      forall t { SingleFrames(check, imb, RotateLeft(m).events, t); }
      SingleFrames(check, imb, RotateLeft(m).events, ActInsert);
    case LeftRight =>
      var inner := RotateLeft(m.left);
      var outer := RotateRight(m.(left := inner.tree));
      forall t { DoubleFrames(check, imb, RotateFrame(m.left.id), inner.events, outer.events, t); }
      DoubleFrames(check, imb, RotateFrame(m.left.id), inner.events, outer.events, ActInsert);
    case RightLeft =>
      var inner := RotateRight(m.right);
      var outer := RotateLeft(m.(right := inner.tree));
      forall t { DoubleFrames(check, imb, RotateFrame(m.right.id), inner.events, outer.events, t); }
      DoubleFrames(check, imb, RotateFrame(m.right.id), inner.events, outer.events, ActInsert);
  }

  /** Every `insert` frame highlights `id`. */
  ghost predicate InsertFramesOn(s: seq<Event>, id: Id) {
    forall i :: 0 <= i < |s| && s[i].action == ActInsert ==> s[i].highlight == Some(id)
  }

  /** At most one rebalance: no rotation, a single one (one `imbalance`
      and two `rotate` frames) or a double one (two and five). */
  ghost predicate OneRebalance(f: seq<Event>) {
    var rot, imb := Count(f, ActRotate), Count(f, ActImbalance);
    (rot == 0 && imb == 0) || (rot == 2 && imb == 1) || (rot == 5 && imb == 2)
  }

  /** What the frames of inserting `v` into `t` promise about their
      order, given the result `r`: see InsertTrace. */
  ghost predicate InsertOrdered(next: Id, r: Grown) {
    && ImbalanceFirst(r.events)
    && ComparisonOnRotate(r.events)
    && InsertFramesOn(r.events, next)
  }

  /** What they promise about their numbers. */
  ghost predicate InsertCounted(t: Tree, v: int, r: Grown) {
    && OneRebalance(r.events)
    && (Count(r.events, ActRotate) > 0 ==> StoredHeight(r.tree) == StoredHeight(t))
    && (v in Keys(t) ==> Count(r.events, ActRotate) == 0)
    && Count(r.events, ActInsert) == (if v in Keys(t) then 0 else 1)
  }

  /** The frames of one insertRecursive call: an `imbalance` frame always
      comes before any `rotate` frame; only `rotate` frames carry a
      comparison tree; at most one rebalance happens on the whole path, so
      there are 0, 2 or 5 `rotate` frames with 0, 1 or 2 `imbalance`
      frames; a rebalance leaves the subtree as high as before; a duplicate
      key triggers none; and exactly when the key is new there is one
      `insert` frame, on the fresh id. */
  lemma {:induction false} InsertTrace(t: Tree, v: int, next: Id)
    requires Valid(t)
    ensures var r := InsertRec(t, v, next);
      var rot, imb := Count(r.events, ActRotate), Count(r.events, ActImbalance);
      && ImbalanceFirst(r.events)
      && ComparisonOnRotate(r.events)
      && ((rot == 0 && imb == 0) || (rot == 2 && imb == 1) || (rot == 5 && imb == 2))
      && (rot > 0 ==> StoredHeight(r.tree) == StoredHeight(t))
      && (v in Keys(t) ==> rot == 0 && imb == 0)
      && Count(r.events, ActInsert) == (if v in Keys(t) then 0 else 1)
      && InsertFramesOn(r.events, next)
  {
    InsertOrderedHolds(t, v, next);
    InsertCountedHolds(t, v, next);
  }

  lemma {:induction false} InsertOrderedHolds(t: Tree, v: int, next: Id)
    requires Valid(t)
    ensures InsertOrdered(next, InsertRec(t, v, next))
    decreases t
  {
    if t.Node? && v != t.value {
      var c := if v < t.value then t.left else t.right;
      InsertOrderedHolds(c, v, next);
      InsertOrderedStep(t, v, next, c);
    }
  }

  lemma {:induction false} InsertCountedHolds(t: Tree, v: int, next: Id)
    requires Valid(t)
    ensures InsertCounted(t, v, InsertRec(t, v, next))
    decreases t
  {
    var r := InsertRec(t, v, next);
    match t
    case Nil =>
      CountOne(TaggedFrame(ActInsert, next), ActRotate);
      CountOne(TaggedFrame(ActInsert, next), ActImbalance);
      CountOne(TaggedFrame(ActInsert, next), ActInsert);
    case Node(id, k, _, _, left, right) =>
      if v == k {
        CountPair(r.events, ActRotate);
        CountPair(r.events, ActImbalance);
        CountPair(r.events, ActInsert);
      } else {
        var c := if v < k then left else right;
        InsertCountedHolds(c, v, next);
        InsertCountedStep(t, v, next, c);
      }
  }

  /** insertRecursive at an internal node with a different key: the
      comparison frame, the call below, then the return path. */
  lemma {:induction false} InsertUnfold(t: Tree, v: int, next: Id)
    requires t.Node? && Valid(t) && v != t.value
    ensures var c := if v < t.value then t.left else t.right;
      var sub := InsertRec(c, v, next);
      var n := if v < t.value then t.(left := sub.tree) else t.(right := sub.tree);
      && InsertShape(n, v) && RebalanceReady(n, v)
      && InsertRec(t, v, next) == Grown(RebalanceInsert(n, v).tree,
           [TaggedFrame(ActInfo, t.id)] + sub.events + RebalanceInsert(n, v).events, sub.next)
  {
    var c := if v < t.value then t.left else t.right;
    var sub := InsertRec(c, v, next);
    if v < t.value { GrowLeftShape(t, v, sub.tree); } else { GrowRightShape(t, v, sub.tree); }
    var n := if v < t.value then t.(left := sub.tree) else t.(right := sub.tree);
    RebalanceInsertHeight(n, v);
  }

  /** One level of the induction: the frames of the call at `t` are the
      comparison frame, the frames of the call below and those of the
      return path. */
  lemma {:induction false} InsertOrderedStep(t: Tree, v: int, next: Id, c: Tree)
    requires t.Node? && Valid(t) && v != t.value
    requires c == (if v < t.value then t.left else t.right)
    requires InsertOrdered(next, InsertRec(c, v, next))
    ensures InsertOrdered(next, InsertRec(t, v, next))
  {
    InsertUnfold(t, v, next);
    var sub := InsertRec(c, v, next);
    var n := if v < t.value then t.(left := sub.tree) else t.(right := sub.tree);
    RebalanceInsertTrace(n, v);
    ChainFrames(TaggedFrame(ActInfo, t.id), sub.events, RebalanceInsert(n, v).events, next);
  }

  lemma {:induction false} InsertCountedStep(t: Tree, v: int, next: Id, c: Tree)
    requires t.Node? && Valid(t) && v != t.value
    requires c == (if v < t.value then t.left else t.right)
    requires InsertCounted(c, v, InsertRec(c, v, next))
    ensures InsertCounted(t, v, InsertRec(t, v, next))
  {
    InsertUnfold(t, v, next);
    var sub := InsertRec(c, v, next);
    var n := if v < t.value then t.(left := sub.tree) else t.(right := sub.tree);
    var fix := RebalanceInsert(n, v);
    var f := [TaggedFrame(ActInfo, t.id)] + sub.events + fix.events;
    assert InsertRec(t, v, next) == Grown(fix.tree, f, sub.next);
    RebalanceInsertTrace(n, v);
    CountJoin(TaggedFrame(ActInfo, t.id), sub.events, fix.events, ActRotate);
    CountJoin(TaggedFrame(ActInfo, t.id), sub.events, fix.events, ActImbalance);
    CountJoin(TaggedFrame(ActInfo, t.id), sub.events, fix.events, ActInsert);
    Descend(t, v);
    if Count(sub.events, ActRotate) > 0 || v in Keys(t) {
      if v in Keys(t) {
        assert n == t;
      }
      StepAfterRotation(t, v, c, sub.tree);
      assert Count(fix.events, ActRotate) == 0 && Count(fix.events, ActImbalance) == 0;
    } else if InsertCase(n, v) != NoRotation {
      StepRotates(t, v, c, sub.tree);
    }
  }

  /** A rotation below leaves the child as high as before, so this
      ancestor stays within the bound: it is only recomputed, records no
      rotation itself, and keeps its height. */
  lemma {:induction false} StepAfterRotation(t: Tree, v: int, c: Tree, s: Tree)
    requires t.Node? && Valid(t) && v != t.value
    requires c == (if v < t.value then t.left else t.right)
    requires StoredHeight(s) == StoredHeight(c)
    requires var n := if v < t.value then t.(left := s) else t.(right := s);
      RebalanceReady(n, v)
    ensures var n := if v < t.value then t.(left := s) else t.(right := s);
      && InsertCase(n, v) == NoRotation
      && StoredHeight(RebalanceInsert(n, v).tree) == StoredHeight(t)
  {
  }

  /** A rotation at this ancestor brings the subtree back to its height
      before the insertion. */
  lemma {:induction false} StepRotates(t: Tree, v: int, c: Tree, s: Tree)
    requires t.Node? && Valid(t) && v != t.value
    requires c == (if v < t.value then t.left else t.right)
    requires StoredHeight(c) <= StoredHeight(s) <= StoredHeight(c) + 1
    requires var n := if v < t.value then t.(left := s) else t.(right := s);
      InsertShape(n, v) && RebalanceReady(n, v) && InsertCase(n, v) != NoRotation
    ensures var n := if v < t.value then t.(left := s) else t.(right := s);
      StoredHeight(RebalanceInsert(n, v).tree) == StoredHeight(t)
  {
    var n := if v < t.value then t.(left := s) else t.(right := s);
    RebalanceInsertHeight(n, v);
  }

  /** Joining the comparison frame, the frames from below and the frames of
      the return path keeps their order properties. */
  lemma {:induction false} ChainFrames(visit: Event, below: seq<Event>, here: seq<Event>, next: Id)
    requires visit.action == ActInfo && !visit.hasComparison
    requires ImbalanceFirst(below) && ImbalanceFirst(here)
    requires ComparisonOnRotate(below) && ComparisonOnRotate(here)
    requires InsertFramesOn(below, next) && Count(here, ActInsert) == 0
    ensures var f := [visit] + below + here;
      ImbalanceFirst(f) && ComparisonOnRotate(f) && InsertFramesOn(f, next)
  {
    var f := [visit] + below + here;
    ImbalanceFirstAppend([visit], below);
    ImbalanceFirstAppend([visit] + below, here);
    ComparisonAppend([visit], below);
    ComparisonAppend([visit] + below, here);
    CountZero(here, ActInsert);
    forall i | 0 <= i < |f| ensures f[i].action == ActInsert ==> f[i].highlight == Some(next) {
      if 1 <= i < 1 + |below| {
        assert f[i] == below[i - 1];
      } else if i >= 1 + |below| {
        assert f[i] == here[i - 1 - |below|];
      }
    }
  }

  /** The counts of the joined frames add up. */
  lemma {:induction false} CountJoin(visit: Event, below: seq<Event>, here: seq<Event>, a: Action)
    ensures Count([visit] + below + here, a)
      == (if visit.action == a then 1 else 0) + Count(below, a) + Count(here, a)
  {
    CountAppend([visit] + below, here, a);
    CountAppend([visit], below, a);
    CountOne(visit, a);
  }
}
