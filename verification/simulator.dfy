/** The public operations of the simulator (insert and delete): each records
    an opening frame, the frames of the recursive call, and a closing frame,
    every frame carrying the layout of the tree as it was on entry. The
    global id counter is an explicit argument and result. */
module Simulator {
  import opened Types
  import opened Shape
  import opened Drawing
  import opened Trace
  import opened Insertion
  import opened Deletion

  /** A frame taken in the middle of the recursion: the engine's own tree at
      that moment is not pinned down by the model. */
  function Frames(base: Placed, es: seq<Event>): (r: seq<Step>)
    ensures |r| == |es|
    ensures forall i :: 0 <= i < |r| ==> r[i].event == es[i] && r[i].base == base
  {
    seq(|es|, i requires 0 <= i < |es| => Step(es[i], base, None))
  }

  /** The tags of a frame sequence, in order. */
  function Events(steps: seq<Step>): (r: seq<Event>)
    ensures |r| == |steps|
    ensures forall i :: 0 <= i < |r| ==> r[i] == steps[i].event
  {
    seq(|steps|, i requires 0 <= i < |steps| => steps[i].event)
  }

  /** The opening and closing snapshots carry no highlighted node and no
      comparison tree. */
  function BareFrame(a: Action): Event {
    Event(a, None, false)
  }

  /** insert: clears the frames, remembers the entry tree as the base,
      records `insert` over the entry tree, runs insertRecursive, and
      records `info` over the final tree. */
  function Insert(root: Tree, v: int, next: Id): (o: Outcome)
    requires Valid(root)
    ensures Valid(o.finalTree) && Keys(o.finalTree) == Keys(root) + {v}
    ensures v in Keys(root) ==> o.finalTree == root && o.nextId == next
    ensures |o.steps| >= 3
    ensures o.steps[0] == Step(BareFrame(ActInsert), Layout(root), Some(Layout(root)))
    ensures o.steps[|o.steps| - 1] == Step(BareFrame(ActInfo), Layout(root), Some(Layout(o.finalTree)))
    ensures forall i :: 0 <= i < |o.steps| ==> o.steps[i].base == Layout(root)
  {
    var base := Layout(root);
    var r := InsertRec(root, v, next);
    InsertFramesNonEmpty(root, v, next);
    Outcome(r.tree,
      [Step(BareFrame(ActInsert), base, Some(base))] + Frames(base, r.events)
        + [Step(BareFrame(ActInfo), base, Some(Layout(r.tree)))],
      r.next)
  }

  /** insertRecursive always records at least one frame. */
  lemma {:induction false} InsertFramesNonEmpty(t: Tree, v: int, next: Id)
    requires Valid(t)
    ensures |InsertRec(t, v, next).events| >= 1
  {
    var r := InsertRec(t, v, next);
    InsertTrace(t, v, next);
    if v !in Keys(t) {
      assert Count(r.events, ActInsert) == 1;
    } else {
      assert t.Node?;
      InsertVisits(t, v, next);
    }
  }

  /** A duplicate key is reported by an `info` frame, so the call below
      records something. */
  lemma {:induction false} InsertVisits(t: Tree, v: int, next: Id)
    requires Valid(t) && t.Node?
    ensures |InsertRec(t, v, next).events| >= 1
  {
    var r := InsertRec(t, v, next);
    assert r.events[0] == TaggedFrame(ActInfo, t.id);
  }

  /** deleteRecursive is only entered when find reports the key; otherwise
      the call records `delete` and then the not-found `info` frame over the
      unchanged tree, and returns it. */
  function Delete(root: Tree, v: int, next: Id): (o: Outcome)
    requires Valid(root)
    ensures Valid(o.finalTree) && Keys(o.finalTree) == Keys(root) - {v}
    ensures o.nextId == next
    ensures |o.steps| >= 2
    ensures o.steps[0] == Step(BareFrame(ActDelete), Layout(root), Some(Layout(root)))
    ensures o.steps[|o.steps| - 1] == Step(BareFrame(ActInfo), Layout(root), Some(Layout(o.finalTree)))
    ensures forall i :: 0 <= i < |o.steps| ==> o.steps[i].base == Layout(root)
    ensures v !in Keys(root) ==> o.finalTree == root && |o.steps| == 2
  {
    var base := Layout(root);
    var open := Step(BareFrame(ActDelete), base, Some(base));
    if !Find(root, v) then
      Outcome(root, [open, Step(BareFrame(ActInfo), base, Some(base))], next)
    else
      var r := DeleteRec(root, v);
      Outcome(r.tree, [open] + Frames(base, r.events) + [Step(BareFrame(ActInfo), base, Some(Layout(r.tree)))], next)
  }

  // ---------------------------------------------------------------------
  // The frames of a whole call.

  lemma {:induction false} EventsOfCall(base: Placed, open: Step, es: seq<Event>, close: Step)
    ensures Events([open] + Frames(base, es) + [close]) == [open.event] + es + [close.event]
  {
  }

  /** A frame sequence framed by an opening and a closing plain frame. */
  lemma {:induction false} Bracketed(open: Event, es: seq<Event>, close: Event, a: Action)
    requires !open.hasComparison && !close.hasComparison
    requires open.action != ActRotate && close.action != ActRotate
    requires ComparisonOnRotate(es)
    ensures ComparisonOnRotate([open] + es + [close])
    ensures Count([open] + es + [close], a)
      == (if open.action == a then 1 else 0) + Count(es, a) + (if close.action == a then 1 else 0)
  {
    ComparisonAppend([open], es);
    ComparisonAppend([open] + es, [close]);
    CountAppend([open] + es, [close], a);
    CountAppend([open], es, a);
    CountOne(open, a);
    CountOne(close, a);
  }

  /** The frames of insert: the first is tagged `insert` and the last
      `info`; an `imbalance` frame precedes every `rotate` frame; exactly
      the `rotate` frames carry a comparison tree; one rebalance at most
      (0, 2 or 5 `rotate` frames with 0, 1 or 2 `imbalance` frames); a
      duplicate key rotates nothing, leaves the counter alone and records
      two frames per level of its search path plus four; a new key
      adds a second `insert` frame and takes exactly one id. */
  lemma {:induction false} InsertSteps(root: Tree, v: int, next: Id)
    requires Valid(root)
    ensures var o := Insert(root, v, next);
      var f := Events(o.steps);
      var rot, imb := Count(f, ActRotate), Count(f, ActImbalance);
      && ImbalanceFirst(f)
      && ComparisonOnRotate(f)
      && ((rot == 0 && imb == 0) || (rot == 2 && imb == 1) || (rot == 5 && imb == 2))
      && (v in Keys(root) ==> rot == 0 && Count(f, ActInsert) == 1 && |o.steps| == 2 * Depth(root, v) + 4)
      && (v !in Keys(root) ==> Count(f, ActInsert) == 2 && o.nextId == next + 1)
  {
    var o := Insert(root, v, next);
    var base := Layout(root);
    var r := InsertRec(root, v, next);
    InsertTrace(root, v, next);
    if v !in Keys(root) {
      InsertAddsOneNode(root, v, next);
    } else {
      DuplicateFrames(root, v, next);
    }
    var open, close := BareFrame(ActInsert), BareFrame(ActInfo);
    EventsOfCall(base, o.steps[0], r.events, o.steps[|o.steps| - 1]);
    assert Events(o.steps) == [open] + r.events + [close];
    Bracketed(open, r.events, close, ActRotate);
    Bracketed(open, r.events, close, ActImbalance);
    Bracketed(open, r.events, close, ActInsert);
    ImbalanceFirstAppend([open], r.events);
    ImbalanceFirstAppend([open] + r.events, [close]);
  }

  /** The frames of delete: the first is tagged `delete` and the last
      `info`; exactly the `rotate` frames carry a comparison tree and they
      come in pairs; no `imbalance` frame; an absent key gives exactly the
      two frames over the unchanged tree; a present key adds one `delete`
      frame, or two when its node has two children. */
  lemma {:induction false} DeleteSteps(root: Tree, v: int, next: Id)
    requires Valid(root)
    ensures var o := Delete(root, v, next);
      var f := Events(o.steps);
      && ComparisonOnRotate(f)
      && Count(f, ActImbalance) == 0
      && Even(Count(f, ActRotate))
      && (v !in Keys(root) ==>
            f == [BareFrame(ActDelete), BareFrame(ActInfo)] && o.steps[1].tree == Some(Layout(root)))
      && (v in Keys(root) ==>
            Count(f, ActDelete) == if TwoChildren(Holder(root, v)) then 3 else 2)
  {
    var o := Delete(root, v, next);
    var open, close := BareFrame(ActDelete), BareFrame(ActInfo);
    if v !in Keys(root) {
      assert !Find(root, v);
      assert Events(o.steps) == [open, close];
      CountPair([open, close], ActRotate);
      CountPair([open, close], ActImbalance);
      assert Even(0);
    } else {
      assert Find(root, v);
      var r := DeleteRec(root, v);
      DeleteTrace(root, v);
      EventsOfCall(Layout(root), o.steps[0], r.events, o.steps[|o.steps| - 1]);
      assert Events(o.steps) == [open] + r.events + [close];
      Bracketed(open, r.events, close, ActRotate);
      Bracketed(open, r.events, close, ActImbalance);
      Bracketed(open, r.events, close, ActDelete);
    }
  }

  // ---------------------------------------------------------------------
  // A session: the simulator applied to a sequence of user operations.

  datatype Op = Add(key: int) | Remove(key: int)

  /** What a tree handed back to the caller satisfies, with the counter
      the next insert will use. */
  ghost predicate Healthy(root: Tree, next: Id) {
    Valid(root) && DistinctIds(root) && IdsBelow(root, next)
  }

  lemma {:induction false} InsertKeepsHealthy(root: Tree, v: int, next: Id)
    requires Healthy(root, next)
    ensures var o := Insert(root, v, next); Healthy(o.finalTree, o.nextId)
  {
    InsertKeepsIdsFresh(root, v, next);
  }

  lemma {:induction false} DeleteKeepsHealthy(root: Tree, v: int, next: Id)
    requires Healthy(root, next)
    ensures var o := Delete(root, v, next); Healthy(o.finalTree, o.nextId)
  {
    var o := Delete(root, v, next);
    if v in Keys(root) {
      assert Find(root, v);
      DeleteKeepsDistinctIds(root, v);
      DeleteRemovesOne(root, v);
      assert Ids(o.finalTree) <= Ids(root);
    }
  }

  /** The key set a session denotes: a set with add and remove. */
  function Denote(keys: set<int>, ops: seq<Op>): set<int>
    decreases |ops|
  {
    if |ops| == 0 then keys
    else
      var k := match ops[0] case Add(v) => keys + {v} case Remove(v) => keys - {v};
      Denote(k, ops[1..])
  }

  /** Replays a session, threading the root and the counter. */
  function Run(root: Tree, next: Id, ops: seq<Op>): (r: (Tree, Id))
    requires Healthy(root, next)
    ensures Healthy(r.0, r.1) && r.1 >= next
    decreases |ops|
  {
    if |ops| == 0 then (root, next)
    else
      match ops[0]
      case Add(v) =>
        InsertKeepsHealthy(root, v, next);
        InsertKeepsIdsFresh(root, v, next);
        var o := Insert(root, v, next);
        Run(o.finalTree, o.nextId, ops[1..])
      case Remove(v) =>
        DeleteKeepsHealthy(root, v, next);
        var o := Delete(root, v, next);
        Run(o.finalTree, o.nextId, ops[1..])
  }

  /** Every session keeps the tree a valid AVL tree with distinct ids below
      the counter, and the tree holds exactly the keys the session denotes. */
  lemma {:induction false} RunDenotes(root: Tree, next: Id, ops: seq<Op>)
    requires Healthy(root, next)
    ensures Keys(Run(root, next, ops).0) == Denote(Keys(root), ops)
    decreases |ops|
  {
    if |ops| > 0 {
      match ops[0]
      case Add(v) =>
        InsertKeepsHealthy(root, v, next);
        var o := Insert(root, v, next);
        RunDenotes(o.finalTree, o.nextId, ops[1..]);
      case Remove(v) =>
        DeleteKeepsHealthy(root, v, next);
        var o := Delete(root, v, next);
        RunDenotes(o.finalTree, o.nextId, ops[1..]);
    }
  }
}
