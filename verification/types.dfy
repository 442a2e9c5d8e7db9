/** The records the engine manipulates: tree nodes, laid-out nodes and
    animation frames (types.ts). */
module Types {

  datatype Option<+T> = None | Some(value: T)

  /** Node identity. The source formats the value of a global counter as
      `node-<n>`; the model keeps the counter value itself. */
  type Id = nat

  /** A logical AVL tree as the engine holds it. `height` and `bf` are the
      STORED fields: the engine reads them back (getHeight) rather than
      recomputing them, so they may disagree with the structure unless
      `Shape.Consistent` holds. */
  datatype Tree =
    | Nil
    | Node(id: Id, value: int, height: int, bf: int, left: Tree, right: Tree)

  /** A laid-out copy of a tree: the same fields plus the drawing
      coordinates, in percent of the canvas. */
  datatype Placed =
    | PNil
    | PNode(id: Id, value: int, height: int, bf: int, x: real, y: int, left: Placed, right: Placed)

  /** The closed set of frame tags. `ActBalance` is declared by the source
      but never emitted by the engine. */
  datatype Action =
    | ActInsert
    | ActDelete
    | ActBalance
    | ActRotate
    | ActInfo
    | ActCheck
    | ActImbalance

  /** What the engine records at one snapshot call, without the trees:
      the tag, the highlighted node, and whether a pre-rotation comparison
      tree was attached. The narration string is not modelled. */
  datatype Event = Event(action: Action, highlight: Option<Id>, hasComparison: bool)

  /** One frame as handed to the caller. `base` is the laid-out tree on
      entry to the operation. `tree` is the laid-out tree the frame shows
      when the model pins it down (opening and closing frames), and `None`
      for frames taken mid-recursion. */
  datatype Step = Step(event: Event, base: Placed, tree: Option<Placed>)

  /** A rebuilt subtree together with the frames recorded while building it. */
  datatype Traced = Traced(tree: Tree, events: seq<Event>)

  /** The same, for insertion, which also advances the id counter. */
  datatype Grown = Grown(tree: Tree, events: seq<Event>, next: Id)

  /** What one insert or delete call returns: the new logical root, the
      frames, and the id counter after the call. */
  datatype Outcome = Outcome(finalTree: Tree, steps: seq<Step>, nextId: Id)

  function Max(a: int, b: int): int {
    if a < b then b else a
  }

  /** A frame with tag `action` highlighting node `id`, without a
      comparison tree. */
  function TaggedFrame(action: Action, id: Id): Event {
    Event(action, Some(id), false)
  }

  /** A `rotate` frame highlighting node `id`, carrying the comparison
      tree taken before the rotation. */
  function RotateFrame(id: Id): Event {
    Event(ActRotate, Some(id), true)
  }
}
