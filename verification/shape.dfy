/** The height and balance helpers of the simulator (getHeight,
    updateHeight, getBalance) and the invariants every returned tree keeps:
    search order, stored heights agreeing with the structure, and the AVL
    balance bound. */
module Shape {
  import opened Types

  // ---------------------------------------------------------------------
  // The helpers the engine calls, exactly as it computes them: from the
  // STORED heights of the children.

  /** getHeight: an absent subtree has height 0, otherwise the stored field
      (see StoredHeightIsHeight for when that is the real height). */
  function StoredHeight(t: Tree): (h: int)
    ensures t.Nil? ==> h == 0
  {
    if t.Nil? then 0 else t.height
  }

  /** getBalance: height(left) - height(right) from stored heights; 0 for an
      absent subtree. On a consistent tree it agrees with the stored balance
      factor. */
  function Balance(t: Tree): (b: int)
    ensures t.Nil? ==> b == 0
    ensures Consistent(t) && t.Node? ==> b == t.bf
  {
    if t.Nil? then 0 else StoredHeight(t.left) - StoredHeight(t.right)
  }

  /** updateHeight followed by `node.balanceFactor = getBalance(node)`: the
      node's own two fields are recomputed from its children's stored
      heights; nothing else changes. Over consistent children the node
      becomes consistent, and its stored balance factor is what getBalance
      computes for it. */
  function Refresh(t: Tree): (r: Tree)
    requires t.Node?
    ensures r.Node? && r.id == t.id && r.value == t.value
    ensures r.left == t.left && r.right == t.right
    ensures Consistent(t.left) && Consistent(t.right) ==> Consistent(r)
    ensures r.bf == Balance(r)
  {
    t.(height := 1 + Max(StoredHeight(t.left), StoredHeight(t.right)), bf := StoredHeight(t.left) - StoredHeight(t.right))
  }

  // ---------------------------------------------------------------------
  // Contents.

  function Size(t: Tree): nat {
    if t.Nil? then 0 else Size(t.left) + 1 + Size(t.right)
  }

  /** The real height of the structure, independent of stored fields. */
  function Height(t: Tree): nat {
    if t.Nil? then 0 else 1 + Max(Height(t.left), Height(t.right))
  }

  function Keys(t: Tree): set<int> {
    if t.Nil? then {} else Keys(t.left) + {t.value} + Keys(t.right)
  }

  function Ids(t: Tree): set<Id> {
    if t.Nil? then {} else Ids(t.left) + {t.id} + Ids(t.right)
  }

  /** The (id, value) pairs of all nodes. */
  function Entries(t: Tree): set<(Id, int)> {
    if t.Nil? then {} else Entries(t.left) + {(t.id, t.value)} + Entries(t.right)
  }

  /** The keys in inorder. */
  function Inorder(t: Tree): seq<int> {
    if t.Nil? then [] else Inorder(t.left) + [t.value] + Inorder(t.right)
  }

  /** The ids in inorder. */
  function IdOrder(t: Tree): seq<Id> {
    if t.Nil? then [] else IdOrder(t.left) + [t.id] + IdOrder(t.right)
  }

  // ---------------------------------------------------------------------
  // Invariants.

  /** Binary-search-tree order with no duplicate keys. */
  ghost predicate Ordered(t: Tree) {
    t.Node? ==>
      && Ordered(t.left)
      && Ordered(t.right)
      && (forall k :: k in Keys(t.left) ==> k < t.value)
      && (forall k :: k in Keys(t.right) ==> t.value < k)
  }

  /** Every stored height is 1 + the larger stored height of the children,
      and every stored balance factor is the difference of those heights. */
  ghost predicate Consistent(t: Tree) {
    t.Node? ==>
      && Consistent(t.left)
      && Consistent(t.right)
      && t.height == 1 + Max(StoredHeight(t.left), StoredHeight(t.right))
      && t.bf == StoredHeight(t.left) - StoredHeight(t.right)
  }

  /** The AVL bound at every node. */
  ghost predicate Balanced(t: Tree) {
    t.Node? ==>
      && Balanced(t.left)
      && Balanced(t.right)
      && -1 <= StoredHeight(t.left) - StoredHeight(t.right) <= 1
  }

  /** What every tree the engine returns satisfies. */
  ghost predicate Valid(t: Tree) {
    Ordered(t) && Consistent(t) && Balanced(t)
  }

  /** No id occurs twice. */
  ghost predicate DistinctIds(t: Tree) {
    t.Node? ==>
      && DistinctIds(t.left)
      && DistinctIds(t.right)
      && t.id !in Ids(t.left)
      && t.id !in Ids(t.right)
      && Ids(t.left) !! Ids(t.right)
  }

  /** Every id was handed out before the counter reached `next`. */
  ghost predicate IdsBelow(t: Tree, next: Id) {
    forall i :: i in Ids(t) ==> i < next
  }

  ghost predicate Increasing(s: seq<int>) {
    forall i, j :: 0 <= i < j < |s| ==> s[i] < s[j]
  }

  // ---------------------------------------------------------------------
  // Lemmas.

  /** In a consistent tree the stored height is the real height, and the
      stored balance factor is what getBalance computes. */
  lemma {:induction false} StoredHeightIsHeight(t: Tree)
    requires Consistent(t)
    ensures StoredHeight(t) == Height(t)
    ensures t.Node? ==> t.bf == Balance(t) && StoredHeight(t) >= 1
  {
    if t.Node? {
      StoredHeightIsHeight(t.left);
      StoredHeightIsHeight(t.right);
    }
  }

  /** Recomputing a node whose fields already agree changes nothing: the
      recomputation on an unchanged path is a no-op. */
  lemma {:induction false} RefreshFixesConsistent(t: Tree)
    requires t.Node? && Consistent(t)
    ensures Refresh(t) == t
  {
  }

  /** Recomputing a node over consistent children makes it consistent. */
  lemma {:induction false} RefreshMakesConsistent(t: Tree)
    requires t.Node? && Consistent(t.left) && Consistent(t.right)
    ensures Consistent(Refresh(t))
    ensures StoredHeight(Refresh(t)) >= 1
  {
    StoredHeightIsHeight(t.left);
    StoredHeightIsHeight(t.right);
  }

  lemma {:induction false} KeysAreInorder(t: Tree)
    ensures forall k :: k in Keys(t) <==> k in Inorder(t)
    ensures |Inorder(t)| == Size(t)
  {
    if t.Node? {
      KeysAreInorder(t.left);
      KeysAreInorder(t.right);
    }
  }

  /** The recursive search-tree order is exactly a strictly increasing
      inorder key sequence. */
  lemma {:induction false} OrderedIffIncreasing(t: Tree)
    ensures Ordered(t) <==> Increasing(Inorder(t))
  {
    if Ordered(t) {
      OrderedIsIncreasing(t);
    }
    if Increasing(Inorder(t)) {
      IncreasingIsOrdered(t);
    }
  }

  lemma {:induction false} OrderedIsIncreasing(t: Tree)
    requires Ordered(t)
    ensures Increasing(Inorder(t))
  {
    if t.Node? {
      OrderedIsIncreasing(t.left);
      OrderedIsIncreasing(t.right);
      KeysAreInorder(t.left);
      KeysAreInorder(t.right);
      var a, b := Inorder(t.left), Inorder(t.right);
      var s := Inorder(t);
      assert s == a + [t.value] + b;
      forall i, j | 0 <= i < j < |s| ensures s[i] < s[j] {
        if j < |a| {
          assert s[i] == a[i] && s[j] == a[j];
        } else if i > |a| {
          assert s[i] == b[i - |a| - 1] && s[j] == b[j - |a| - 1];
        } else {
          assert i < |a| ==> s[i] == a[i] && a[i] in Keys(t.left);
          assert j > |a| ==> s[j] == b[j - |a| - 1] && b[j - |a| - 1] in Keys(t.right);
        }
      }
    }
  }

  lemma {:induction false} IncreasingIsOrdered(t: Tree)
    requires Increasing(Inorder(t))
    ensures Ordered(t)
  {
    if t.Node? {
      KeysAreInorder(t.left);
      KeysAreInorder(t.right);
      var a, b := Inorder(t.left), Inorder(t.right);
      var s := Inorder(t);
      assert s == a + [t.value] + b;
      assert s[|a|] == t.value;
      forall i, j | 0 <= i < j < |a| ensures a[i] < a[j] {
        assert a[i] == s[i] && a[j] == s[j];
      }
      forall i, j | 0 <= i < j < |b| ensures b[i] < b[j] {
        assert b[i] == s[i + |a| + 1] && b[j] == s[j + |a| + 1];
      }
      IncreasingIsOrdered(t.left);
      IncreasingIsOrdered(t.right);
      forall k | k in Keys(t.left) ensures k < t.value {
        var i :| 0 <= i < |a| && a[i] == k;
        assert s[i] == k;
      }
      forall k | k in Keys(t.right) ensures t.value < k {
        var i :| 0 <= i < |b| && b[i] == k;
        assert s[i + |a| + 1] == k;
      }
    }
  }

  /** Cardinality of a three-part union: at most the sum, and equal to it
      exactly when the parts are pairwise disjoint. */
  lemma {:induction false} UnionCard<T>(a: set<T>, x: T, b: set<T>)
    ensures |a + {x} + b| <= |a| + 1 + |b|
    ensures |a + {x} + b| == |a| + 1 + |b| <==> (a !! b && x !in a && x !in b)
  {
    assert |a + b| + |a * b| == |a| + |b|;
    if a !! b {
      assert a * b == {};
    } else {
      var y :| y in a && y in b;
      assert y in a * b;
      assert |a * b| >= 1;
    }
    assert a + {x} + b == (a + b) + {x};
    if x in a + b {
      assert (a + b) + {x} == a + b;
    } else {
      assert |(a + b) + {x}| == |a + b| + 1;
    }
  }

  lemma {:induction false} IdsAtMostSize(t: Tree)
    ensures |Ids(t)| <= Size(t)
  {
    if t.Node? {
      IdsAtMostSize(t.left);
      IdsAtMostSize(t.right);
      UnionCard(Ids(t.left), t.id, Ids(t.right));
    }
  }

  /** No two nodes share an id exactly when there are as many ids as
      nodes. */
  lemma {:induction false} DistinctIdsIffCount(t: Tree)
    ensures DistinctIds(t) <==> |Ids(t)| == Size(t)
  {
    if t.Node? {
      DistinctIdsIffCount(t.left);
      DistinctIdsIffCount(t.right);
      IdsAtMostSize(t.left);
      IdsAtMostSize(t.right);
      UnionCard(Ids(t.left), t.id, Ids(t.right));
    }
  }

  /** Every (id, key) pair belongs to a node, so its key is a key of the
      tree. */
  lemma {:induction false} EntryKeys(t: Tree)
    ensures forall p :: p in Entries(t) ==> p.1 in Keys(t)
  {
    if t.Node? {
      EntryKeys(t.left);
      EntryKeys(t.right);
    }
  }

  /** A search for `v` below `t` continues in exactly one child. */
  lemma {:induction false} Descend(t: Tree, v: int)
    requires t.Node? && Ordered(t) && v != t.value
    ensures v in Keys(t) <==> v in Keys(if v < t.value then t.left else t.right)
  {
  }

  /** The number of strict ancestors of the node holding `v`. */
  ghost function Depth(t: Tree, v: int): nat
    requires Ordered(t) && v in Keys(t)
    decreases t
  {
    if v == t.value then 0
    else Descend(t, v); 1 + Depth(if v < t.value then t.left else t.right, v)
  }
}
