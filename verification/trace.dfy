/** Vocabulary for talking about a recorded frame sequence: how many frames
    carry a tag, in which order tags first appear, and which frames carry a
    comparison tree. */
module Trace {
  import opened Types

  /** The number of frames tagged `a`. */
  function Count(s: seq<Event>, a: Action): nat {
    if |s| == 0 then 0 else (if s[0].action == a then 1 else 0) + Count(s[1..], a)
  }

  /** Scanning from the front, an `imbalance` frame is met before any
      `rotate` frame (or there is no `rotate` frame at all). */
  predicate ImbalanceFirst(s: seq<Event>) {
    if |s| == 0 then true
    else if s[0].action == ActRotate then false
    else if s[0].action == ActImbalance then true
    else ImbalanceFirst(s[1..])
  }

  /** A comparison tree is attached to exactly the `rotate` frames. */
  predicate ComparisonOnRotate(s: seq<Event>) {
    if |s| == 0 then true
    else (s[0].hasComparison <==> s[0].action == ActRotate) && ComparisonOnRotate(s[1..])
  }

  /** The scan agrees with the positions: every frame carries a comparison
      tree exactly when it is a `rotate` frame. */
  lemma {:induction false} ComparisonAt(s: seq<Event>)
    ensures ComparisonOnRotate(s) <==>
      forall i :: 0 <= i < |s| ==> (s[i].hasComparison <==> s[i].action == ActRotate)
    decreases |s|
  {
    if |s| > 0 {
      ComparisonAt(s[1..]);
      assert forall i :: 1 <= i < |s| ==> s[1..][i - 1] == s[i];
    }
  }

  lemma {:induction false} CountAppend(a: seq<Event>, b: seq<Event>, t: Action)
    ensures Count(a + b, t) == Count(a, t) + Count(b, t)
    decreases |a|
  {
    if |a| == 0 {
      assert a + b == b;
    } else {
      assert (a + b)[1..] == a[1..] + b;
      CountAppend(a[1..], b, t);
    }
  }

  lemma {:induction false} CountOne(e: Event, t: Action)
    ensures Count([e], t) == if e.action == t then 1 else 0
  {
    assert [e][1..] == [];
  }

  lemma {:induction false} CountPair(s: seq<Event>, t: Action)
    requires |s| == 2
    ensures Count(s, t) == (if s[0].action == t then 1 else 0) + (if s[1].action == t then 1 else 0)
  {
    assert s == [s[0]] + [s[1]];
    CountAppend([s[0]], [s[1]], t);
    CountOne(s[0], t);
    CountOne(s[1], t);
  }

  /** The counting definition agrees with the positions that carry the
      tag: a frame sequence counts zero exactly when no position has it. */
  lemma {:induction false} CountZero(s: seq<Event>, a: Action)
    ensures Count(s, a) == 0 <==> forall i :: 0 <= i < |s| ==> s[i].action != a
    decreases |s|
  {
    if |s| > 0 {
      CountZero(s[1..], a);
      assert forall i :: 1 <= i < |s| ==> s[1..][i - 1] == s[i];
    }
  }

  /** Joining two sequences each of which meets an imbalance before a
      rotation keeps that order. */
  lemma {:induction false} ImbalanceFirstAppend(a: seq<Event>, b: seq<Event>)
    requires ImbalanceFirst(a) && ImbalanceFirst(b)
    ensures ImbalanceFirst(a + b)
    decreases |a|
  {
    if |a| > 0 && a[0].action != ActImbalance {
      assert (a + b)[1..] == a[1..] + b;
      ImbalanceFirstAppend(a[1..], b);
    } else if |a| == 0 {
      assert a + b == b;
    }
  }

  /** An `imbalance` frame at the front settles the order for whatever
      follows. */
  lemma {:induction false} ImbalanceFirstLed(e: Event, s: seq<Event>)
    requires e.action == ActImbalance
    ensures ImbalanceFirst([e] + s)
  {
  }

  lemma {:induction false} ComparisonAppend(a: seq<Event>, b: seq<Event>)
    requires ComparisonOnRotate(a) && ComparisonOnRotate(b)
    ensures ComparisonOnRotate(a + b)
    decreases |a|
  {
    if |a| == 0 {
      assert a + b == b;
    } else {
      assert (a + b)[1..] == a[1..] + b;
      ComparisonAppend(a[1..], b);
    }
  }

  lemma {:induction false} ComparisonOne(e: Event)
    requires e.hasComparison <==> e.action == ActRotate
    ensures ComparisonOnRotate([e])
  {
    assert [e][1..] == [];
  }

  lemma {:induction false} ComparisonPair(s: seq<Event>)
    requires |s| == 2
    requires s[0].hasComparison <==> s[0].action == ActRotate
    requires s[1].hasComparison <==> s[1].action == ActRotate
    ensures ComparisonOnRotate(s)
  {
    ComparisonOne(s[0]);
    ComparisonOne(s[1]);
    assert s == [s[0]] + [s[1]];
    ComparisonAppend([s[0]], [s[1]]);
  }

  /** Evenness, by counting down in twos. */
  predicate Even(n: nat) {
    if n == 0 then true else if n == 1 then false else Even(n - 2)
  }

  lemma {:induction false} EvenAdd(a: nat, b: nat)
    requires Even(a) && Even(b)
    ensures Even(a + b)
    decreases a
  {
    if a >= 2 {
      EvenAdd(a - 2, b);
    } else if a == 0 {
    }
  }
}
