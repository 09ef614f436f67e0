/**
 * The shape every reachable node keeps under `put`, despite the mis-linking
 * `insert`: its right link equals its left link, or everything below its left
 * link is smaller than its key and its right link is null or a leaf with a
 * larger key. In such a heap `searchKey` finds every reachable key, so
 * `containsKey` and `keySet` agree.
 */
module BstShape {
  import opened Common
  import opened BstArena

  /** Every key reachable from `cur` is smaller than `b`. */
  ghost predicate Below<V>(a: Arena<V>, cur: Option<nat>, b: int)
    requires WellFormed(a) && InArena(cur, |a|)
  {
    forall j :: j in Reach(a, cur) ==> a[j].key < b
  }

  predicate IsLeaf<V>(n: NodeRec<V>)
  {
    n.left.None? && n.right.None?
  }

  /** The local shape of node `i`. */
  ghost predicate Shape<V>(a: Arena<V>, i: nat)
    requires WellFormed(a) && i < |a|
  {
    var n := a[i];
    n.right == n.left
    || (Below(a, n.left, n.key)
        && (n.right.None? || (IsLeaf(a[n.right.value]) && a[n.right.value].key > n.key)))
  }

  /** Every node reachable from `cur` has the shape. */
  ghost predicate Good<V>(a: Arena<V>, cur: Option<nat>)
    requires WellFormed(a) && InArena(cur, |a|)
  {
    forall j :: j in Reach(a, cur) ==> Shape(a, j)
  }

  /** In a heap of good shape, searching for the key of any reachable node finds a node. */
  lemma {:induction false} SearchComplete<V>(a: Arena<V>, cur: Option<nat>, j: nat)
    requires WellFormed(a) && InArena(cur, |a|) && Good(a, cur)
    requires j in Reach(a, cur)
    ensures Search(a, cur, a[j].key).Some?
    decreases Rank(cur, |a|)
  {
    var i := cur.value;
    var n := a[i];
    var x := a[j].key;
    if x != n.key {
      assert Shape(a, i);
      if j in Reach(a, n.left) {
        if x < n.key {
          SearchComplete(a, n.left, j);
        } else {
          assert n.right == n.left;
          SearchComplete(a, n.right, j);
        }
      } else {
        assert n.right != n.left;
        SearchComplete(a, n.right, j);
      }
    }
  }

  /** Arenas that agree from position `lo` on reach the same nodes from any node at or after `lo`. */
  lemma {:induction false} ReachFrame<V>(a: Arena<V>, b: Arena<V>, cur: Option<nat>, lo: nat)
    requires WellFormed(a) && WellFormed(b) && |a| == |b| && InArena(cur, |a|)
    requires cur.Some? ==> lo <= cur.value
    requires forall j :: lo <= j < |a| ==> a[j] == b[j]
    ensures Reach(a, cur) == Reach(b, cur)
    decreases Rank(cur, |a|)
  {
    match cur
    case None =>
    case Some(i) =>
      ReachFrame(a, b, a[i].left, lo);
      ReachFrame(a, b, a[i].right, lo);
  }

  /** Good shape from a node at or after `lo` depends only on the nodes from `lo` on. */
  lemma GoodFrame<V>(a: Arena<V>, b: Arena<V>, cur: Option<nat>, lo: nat)
    requires WellFormed(a) && WellFormed(b) && |a| == |b| && InArena(cur, |a|)
    requires cur.Some? ==> lo <= cur.value
    requires forall j :: lo <= j < |a| ==> a[j] == b[j]
    requires Good(a, cur)
    ensures Good(b, cur)
  {
    ReachFrame(a, b, cur, lo);
    forall j | j in Reach(b, cur)
      ensures Shape(b, j)
    {
      assert Shape(a, j);
      ReachFrame(a, b, a[j].left, lo);
    }
  }

  /**
   * When every link of `b` is a link of the same node in `a` or a link to the
   * leaf appended at `|a|`, `b` reaches nothing from `x` that `a` does not,
   * apart from that leaf.
   */
  lemma {:induction false} ReachWithin<V>(a: Arena<V>, b: Arena<V>, x: nat)
    requires WellFormed(a) && WellFormed(b) && |b| == |a| + 1 && IsLeaf(b[|a|]) && x < |a|
    requires forall j :: 0 <= j < |a| ==> LinkFrom(a[j], b[j].left, |a|) && LinkFrom(a[j], b[j].right, |a|)
    ensures Reach(b, Some(x)) <= Reach(a, Some(x)) + {|a|}
    decreases |a| - x
  {
    ChildWithin(a, b, x, b[x].left);
    ChildWithin(a, b, x, b[x].right);
  }

  lemma {:induction false} ChildWithin<V>(a: Arena<V>, b: Arena<V>, x: nat, l: Option<nat>)
    requires WellFormed(a) && WellFormed(b) && |b| == |a| + 1 && IsLeaf(b[|a|]) && x < |a|
    requires forall j :: 0 <= j < |a| ==> LinkFrom(a[j], b[j].left, |a|) && LinkFrom(a[j], b[j].right, |a|)
    requires l == b[x].left || l == b[x].right
    ensures Reach(b, l) <= Reach(a, Some(x)) + {|a|}
    decreases |a| - x, 0
  {
    if l == Some(|a|) {
      assert Reach(b, l) == {|a|};
    } else if l.Some? {
      assert l == a[x].left || l == a[x].right;
      ReachWithin(a, b, l.value);
    }
  }

  /** What `insert` leaves below the subtree root it returns. */
  lemma InsertReachWithin<V>(a: Arena<V>, cur: Option<nat>, k: int, v: Option<V>)
    requires WellFormed(a) && InArena(cur, |a|)
    ensures var (a', root) := Insert(a, cur, k, v); Reach(a', Some(root)) <= Reach(a, cur) + {|a|}
  {
    var (a', root) := Insert(a, cur, k, v);
    InsertLinks(a, cur, k, v);
    if cur.Some? {
      ReachWithin(a, a', root);
    } else {
      assert Reach(a', Some(root)) == {|a|};
    }
  }

  /** A node of good shape whose children are good is good. */
  lemma GoodNode<V>(a: Arena<V>, i: nat)
    requires WellFormed(a) && i < |a| && Shape(a, i)
    requires Good(a, a[i].left) && Good(a, a[i].right)
    ensures Good(a, Some(i))
  {
  }

  /** After inserting below node `i`, what hangs below the subtree root is below `i`'s key when `k` and the old left subtree are. */
  lemma InsertBelow<V>(a: Arena<V>, i: nat, k: int, v: Option<V>)
    requires WellFormed(a) && i < |a| && Below(a, a[i].left, a[i].key) && k < a[i].key
    ensures var (a1, sub) := Insert(a, a[i].left, k, v);
      Below(Insert(a, Some(i), k, v).0, Some(sub), a[i].key)
  {
    var (a1, sub) := Insert(a, a[i].left, k, v);
    var a' := Insert(a, Some(i), k, v).0;
    InsertUnfold(a, i, k, v);
    InsertFrame(a, a[i].left, k, v);
    InsertReachWithin(a, a[i].left, k, v);
    ReachFrame(a1, a', Some(sub), i + 1);
  }

  /** The untouched right link of a node whose key exceeds `k` keeps its shape. */
  lemma KeepRight<V>(a: Arena<V>, i: nat, k: int, v: Option<V>)
    requires WellFormed(a) && i < |a| && Shape(a, i) && a[i].key > k
    requires a[i].right.Some? && a[i].right != a[i].left
    ensures var a' := Insert(a, Some(i), k, v).0;
      var r := a[i].right.value;
      a'[r] == a[r] && Reach(a', a[i].right) == {r} && Shape(a', r)
  {
    var a' := Insert(a, Some(i), k, v).0;
    var r := a[i].right.value;
    InsertFrame(a, Some(i), k, v);
    assert r !in Reach(a, a[i].left);
    assert r !in Spine(a, Some(i));
    assert a'[r] == a[r];
    assert Reach(a', a[i].right) == {r};
  }

  /** Inserting a key that search does not find keeps the shape of everything reachable. */
  lemma {:induction false} InsertKeepsGood<V>(a: Arena<V>, cur: Option<nat>, k: int, v: Option<V>)
    requires WellFormed(a) && InArena(cur, |a|) && Good(a, cur)
    requires Search(a, cur, k).None?
    ensures var (a', root) := Insert(a, cur, k, v); Good(a', Some(root))
    decreases Rank(cur, |a|)
  {
    var (a', root) := Insert(a, cur, k, v);
    match cur
    case None =>
      assert Reach(a', Some(root)) == {|a|};
    case Some(i) =>
      LeftSearchFails(a, i, k);
      InsertKeepsGood(a, a[i].left, k, v);
      InsertStepKeepsGood(a, i, k, v);
  }

  /** When the search for `k` fails at a node of good shape, it also fails from the node's left link. */
  lemma LeftSearchFails<V>(a: Arena<V>, i: nat, k: int)
    requires WellFormed(a) && i < |a| && Shape(a, i)
    requires Search(a, Some(i), k).None?
    ensures Search(a, a[i].left, k).None?
  {
    var n := a[i];
    if n.key < k && n.right != n.left {
      assert Below(a, n.left, n.key);
    }
  }

  /** The re-link of node `i` keeps it and what hangs below it in good shape. */
  lemma InsertStepKeepsGood<V>(a: Arena<V>, i: nat, k: int, v: Option<V>)
    requires WellFormed(a) && i < |a| && Good(a, Some(i)) && a[i].key != k
    requires var (a1, sub) := Insert(a, a[i].left, k, v); Good(a1, Some(sub))
    ensures Good(Insert(a, Some(i), k, v).0, Some(i))
  {
    var n := a[i];
    assert Shape(a, i);
    var (a1, sub) := Insert(a, n.left, k, v);
    var a' := Insert(a, Some(i), k, v).0;
    InsertUnfold(a, i, k, v);
    GoodFrame(a1, a', Some(sub), i + 1);
    if n.key > k {
      if n.right == n.left {
        if n.left.None? {
          assert Reach(a', Some(sub)) == {sub};
        }
      } else {
        InsertBelow(a, i, k, v);
        if n.right.Some? {
          KeepRight(a, i, k, v);
        }
      }
    } else {
      if n.left.None? {
        assert Reach(a', Some(sub)) == {sub};
      }
    }
    assert Shape(a', i);
    GoodNode(a', i);
  }
}
