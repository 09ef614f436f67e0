/**
 * The node heap of the binary-search-tree map, as an arena: node `i` is the
 * record at position `i`, and a child reference is the position of the child.
 * Java objects are shared by reference, so two links may name the same node;
 * an update through one link is seen through the other, exactly as here.
 */
module BstArena {
  import opened Common

  /** One tree `Node`: its key, its (nullable) value and its two child references. */
  datatype NodeRec<V> = NodeRec(key: int, value: Option<V>, left: Option<nat>, right: Option<nat>)

  type Arena<V> = seq<NodeRec<V>>

  /** A link is null or names a node that lies later in the arena. */
  predicate LinkOk(from: int, link: Option<nat>, n: int)
  {
    link.None? || from < link.value < n
  }

  /** Every link of every node points forward: the heap is an acyclic graph. */
  ghost predicate WellFormed<V>(a: Arena<V>)
  {
    forall i :: 0 <= i < |a| ==> LinkOk(i, a[i].left, |a|) && LinkOk(i, a[i].right, |a|)
  }

  /** A reference that is null or names a node of an arena of `n` nodes. */
  predicate InArena(cur: Option<nat>, n: int)
  {
    cur.None? || cur.value < n
  }

  /** Termination measure of every descent: links only point forward. */
  function Rank(cur: Option<nat>, n: int): nat
    requires InArena(cur, n) && n >= 0
  {
    match cur
    case None => 0
    case Some(i) => n - i
  }

  /** A left child's key is smaller than its parent's key. */
  ghost predicate LeftOrdered<V>(a: Arena<V>)
  {
    forall i :: 0 <= i < |a| && a[i].left.Some? && a[i].left.value < |a| ==> a[a[i].left.value].key < a[i].key
  }

  /** The nodes reachable from `cur` through left and right links; a shared node counts once. */
  ghost function Reach<V>(a: Arena<V>, cur: Option<nat>): (r: set<nat>)
    requires WellFormed(a) && InArena(cur, |a|)
    ensures forall i :: i in r ==> i < |a| && cur.Some? && cur.value <= i
    ensures cur.Some? ==> cur.value in r
    decreases Rank(cur, |a|)
  {
    match cur
    case None => {}
    case Some(i) => {i} + Reach(a, a[i].left) + Reach(a, a[i].right)
  }

  /** The nodes on the left spine that starts at `cur`: the path that insertion walks. */
  ghost function Spine<V>(a: Arena<V>, cur: Option<nat>): (r: set<nat>)
    requires WellFormed(a) && InArena(cur, |a|)
    ensures forall i :: i in r ==> i < |a| && cur.Some? && cur.value <= i
    ensures r <= Reach(a, cur)
    decreases Rank(cur, |a|)
  {
    match cur
    case None => {}
    case Some(i) => {i} + Spine(a, a[i].left)
  }

  /** The keys carried by a set of nodes. */
  ghost function KeysAt<V>(a: Arena<V>, nodes: set<nat>): set<int>
  {
    set i | i in nodes && i < |a| :: a[i].key
  }

  /**
   * `searchKey(current, key)`: stop on null or on an equal key; otherwise go
   * left when the node's key is greater than `k`, right when it is smaller.
   */
  function Search<V>(a: Arena<V>, cur: Option<nat>, k: int): (r: Option<nat>)
    requires WellFormed(a) && InArena(cur, |a|)
    ensures r.Some? ==> r.value in Reach(a, cur) && a[r.value].key == k
    ensures cur.None? ==> r.None?
    decreases Rank(cur, |a|)
  {
    match cur
    case None => None
    case Some(i) =>
      if a[i].key == k then Some(i)
      else if a[i].key > k then Search(a, a[i].left, k)
      else Search(a, a[i].right, k)
  }

  /**
   * How `insert` leaves the node `i` it was called on: the recursive call always
   * goes to the left child, and its result (the old left child, or the new leaf
   * at position `n` when there was none) is stored on the left when the node's
   * key is greater than `k` and on the RIGHT otherwise, replacing the old right
   * subtree.
   */
  ghost predicate Relinked<V>(a: Arena<V>, i: nat, a': Arena<V>, k: int)
    requires i < |a| <= |a'|
  {
    var sub := if a[i].left.Some? then a[i].left.value else |a|;
    if a[i].key > k then a'[i].left == Some(sub) && a'[i].right == a[i].right
    else a'[i].left == a[i].left && a'[i].right == Some(sub)
  }

  /**
   * `insert(current, key, value)`, returning the new arena and the subtree's
   * root. The new leaf is appended at position `|a|`; what happens to the
   * existing nodes is stated by `InsertFrame`, `InsertRelinks` and
   * `InsertKeepsLeftOrdered`.
   */
  function Insert<V>(a: Arena<V>, cur: Option<nat>, k: int, v: Option<V>): (r: (Arena<V>, nat))
    requires WellFormed(a) && InArena(cur, |a|)
    ensures |r.0| == |a| + 1 && r.0[|a|] == NodeRec(k, v, None, None)
    ensures WellFormed(r.0)
    ensures cur.None? ==> r.1 == |a| && r.0[..|a|] == a
    ensures cur.Some? ==> r.1 == cur.value
    decreases Rank(cur, |a|)
  {
    match cur
    case None => (a + [NodeRec(k, v, None, None)], |a|)
    case Some(i) =>
      var n := a[i];
      var (a1, sub) := Insert(a, n.left, k, v);
      if n.key > k then (a1[i := NodeRec(n.key, n.value, Some(sub), n.right)], i)
      else (a1[i := NodeRec(n.key, n.value, n.left, Some(sub))], i)
  }

  /** One step of `insert` on node `i`: the recursive call on its left link, then the re-link of `i` alone. */
  lemma InsertUnfold<V>(a: Arena<V>, i: nat, k: int, v: Option<V>)
    requires WellFormed(a) && i < |a|
    ensures var (a1, sub) := Insert(a, a[i].left, k, v);
      var (a', root) := Insert(a, Some(i), k, v);
      && root == i && |a'| == |a1|
      && sub == (if a[i].left.Some? then a[i].left.value else |a|)
      && a' == a1[i := if a[i].key > k then NodeRec(a[i].key, a[i].value, Some(sub), a[i].right)
                       else NodeRec(a[i].key, a[i].value, a[i].left, Some(sub))]
      && (forall j :: i < j < |a'| ==> a'[j] == a1[j])
  {
  }

  /**
   * Insertion keeps every key and value, never changes a non-null left link,
   * and touches no node off the left spine below `cur`.
   */
  lemma {:induction false} InsertFrame<V>(a: Arena<V>, cur: Option<nat>, k: int, v: Option<V>)
    requires WellFormed(a) && InArena(cur, |a|)
    ensures var a' := Insert(a, cur, k, v).0;
      && (forall j :: 0 <= j < |a| ==> a'[j].key == a[j].key && a'[j].value == a[j].value)
      && (forall j :: 0 <= j < |a| && a[j].left.Some? ==> a'[j].left == a[j].left)
      && (forall j :: 0 <= j < |a| && j !in Spine(a, cur) ==> a'[j] == a[j])
    decreases Rank(cur, |a|)
  {
    match cur
    case None =>
    case Some(i) =>
      InsertUnfold(a, i, k, v);
      InsertFrame(a, a[i].left, k, v);
  }

  /** The node `insert` was called on ends up linked as `Relinked` describes. */
  lemma InsertRelinks<V>(a: Arena<V>, i: nat, k: int, v: Option<V>)
    requires WellFormed(a) && i < |a|
    ensures Relinked(a, i, Insert(a, Some(i), k, v).0, k)
  {
  }

  /** Every node of the left spine below `cur` ends up linked as `Relinked` describes. */
  lemma {:induction false} InsertRelinksSpine<V>(a: Arena<V>, cur: Option<nat>, k: int, v: Option<V>)
    requires WellFormed(a) && InArena(cur, |a|)
    ensures forall j :: j in Spine(a, cur) ==> Relinked(a, j, Insert(a, cur, k, v).0, k)
    decreases Rank(cur, |a|)
  {
    match cur
    case None =>
    case Some(i) =>
      InsertRelinks(a, i, k, v);
      InsertRelinksSpine(a, a[i].left, k, v);
  }

  /**
   * Each link of a node after insertion is one of the node's old links or the
   * new leaf: insertion only ever copies a left link or points at the new leaf.
   */
  lemma InsertLinks<V>(a: Arena<V>, cur: Option<nat>, k: int, v: Option<V>)
    requires WellFormed(a) && InArena(cur, |a|)
    ensures var a' := Insert(a, cur, k, v).0;
      forall j :: 0 <= j < |a| ==> LinkFrom(a[j], a'[j].left, |a|) && LinkFrom(a[j], a'[j].right, |a|)
  {
    InsertFrame(a, cur, k, v);
    InsertRelinksSpine(a, cur, k, v);
  }

  /** `l` is a link of `n` or a link to the node at position `next`. */
  predicate LinkFrom<V>(n: NodeRec<V>, l: Option<nat>, next: nat)
  {
    l == n.left || l == n.right || l == Some(next)
  }

  /** Insertion keeps every left child's key below its parent's key. */
  lemma {:induction false} InsertKeepsLeftOrdered<V>(a: Arena<V>, cur: Option<nat>, k: int, v: Option<V>)
    requires WellFormed(a) && InArena(cur, |a|) && LeftOrdered(a)
    ensures LeftOrdered(Insert(a, cur, k, v).0)
    decreases Rank(cur, |a|)
  {
    match cur
    case None =>
    case Some(i) =>
      var n := a[i];
      var (a1, sub) := Insert(a, n.left, k, v);
      var a' := Insert(a, cur, k, v).0;
      InsertUnfold(a, i, k, v);
      InsertFrame(a, n.left, k, v);
      InsertKeepsLeftOrdered(a, n.left, k, v);
      forall j | 0 <= j < |a'| && a'[j].left.Some? && a'[j].left.value < |a'|
        ensures a'[a'[j].left.value].key < a'[j].key
      {
        if j == i {
          if n.key > k {
            assert a1[sub].key < n.key;
          }
        } else {
          assert a'[j] == a1[j];
        }
      }
  }

  /** No node on the left spine below `cur` carries the key `k`. */
  ghost predicate SpineAvoids<V>(a: Arena<V>, cur: Option<nat>, k: int)
    requires WellFormed(a) && InArena(cur, |a|)
  {
    forall j :: j in Spine(a, cur) ==> a[j].key != k
  }

  /** Two arenas that agree from position `lo` on give the same search from any node at or after `lo`. */
  lemma {:induction false} SearchFrame<V>(a: Arena<V>, b: Arena<V>, cur: Option<nat>, k: int, lo: nat)
    requires WellFormed(a) && WellFormed(b) && |a| == |b| && InArena(cur, |a|)
    requires cur.Some? ==> lo <= cur.value
    requires forall j :: lo <= j < |a| ==> a[j] == b[j]
    ensures Search(a, cur, k) == Search(b, cur, k)
    decreases Rank(cur, |a|)
  {
    match cur
    case None =>
    case Some(i) =>
      SearchFrame(a, b, a[i].left, k, lo);
      SearchFrame(a, b, a[i].right, k, lo);
  }

  /** When the left spine below `cur` avoids `k`, searching for `k` from `cur` after insertion finds the new leaf. */
  lemma {:induction false} InsertFinds<V>(a: Arena<V>, cur: Option<nat>, k: int, v: Option<V>)
    requires WellFormed(a) && InArena(cur, |a|) && SpineAvoids(a, cur, k)
    ensures var (a', root) := Insert(a, cur, k, v); Search(a', Some(root), k) == Some(|a|)
    decreases Rank(cur, |a|)
  {
    match cur
    case None =>
    case Some(i) =>
      var n := a[i];
      var (a1, sub) := Insert(a, n.left, k, v);
      InsertFinds(a, n.left, k, v);
      InsertFrame(a, n.left, k, v);
      var (a', root) := Insert(a, cur, k, v);
      assert a'[i].key == n.key != k;
      SearchFrame(a', a1, Some(sub), k, sub);
  }

  /** A spine whose top key is below `k` avoids `k`: left links only lower the key. */
  lemma {:induction false} SpineBelow<V>(a: Arena<V>, cur: Option<nat>, k: int)
    requires WellFormed(a) && InArena(cur, |a|) && LeftOrdered(a)
    requires cur.Some? ==> a[cur.value].key < k
    ensures SpineAvoids(a, cur, k)
    decreases Rank(cur, |a|)
  {
    match cur
    case None =>
    case Some(i) =>
      SpineBelow(a, a[i].left, k);
  }

  /** In a left-ordered heap, a failed search means the insertion spine avoids the key. */
  lemma {:induction false} NotFoundAvoids<V>(a: Arena<V>, cur: Option<nat>, k: int)
    requires WellFormed(a) && InArena(cur, |a|) && LeftOrdered(a)
    requires Search(a, cur, k).None?
    ensures SpineAvoids(a, cur, k)
    decreases Rank(cur, |a|)
  {
    match cur
    case None =>
    case Some(i) =>
      if a[i].key > k {
        NotFoundAvoids(a, a[i].left, k);
      } else {
        SpineBelow(a, a[i].left, k);
      }
  }

  /**
   * `addKeys(current, s)`: adds the node's key, then the keys below its left
   * link, then those below its right link.
   */
  function AddKeys<V>(a: Arena<V>, cur: Option<nat>, s: set<int>): (r: set<int>)
    requires WellFormed(a) && InArena(cur, |a|)
    ensures r == s + KeysAt(a, Reach(a, cur))
    decreases Rank(cur, |a|)
  {
    match cur
    case None => s
    case Some(i) =>
      ReachKeys(a, i);
      AddKeys(a, a[i].right, AddKeys(a, a[i].left, s + {a[i].key}))
  }

  /** The keys below a node: its own key and the keys below its two links. */
  lemma ReachKeys<V>(a: Arena<V>, i: nat)
    requires WellFormed(a) && i < |a|
    ensures KeysAt(a, Reach(a, Some(i)))
      == {a[i].key} + KeysAt(a, Reach(a, a[i].left)) + KeysAt(a, Reach(a, a[i].right))
  {
    var l := Reach(a, a[i].left);
    var r := Reach(a, a[i].right);
    assert Reach(a, Some(i)) == {i} + l + r;
    KeysAtUnion(a, {i} + l, r);
    KeysAtUnion(a, {i}, l);
    assert KeysAt(a, {i}) == {a[i].key};
  }

  /** The keys of a union of node sets. */
  lemma KeysAtUnion<V>(a: Arena<V>, x: set<nat>, y: set<nat>)
    ensures KeysAt(a, x + y) == KeysAt(a, x) + KeysAt(a, y)
  {
    forall key | key in KeysAt(a, x + y)
      ensures key in KeysAt(a, x) + KeysAt(a, y)
    {
      var j :| j in x + y && j < |a| && a[j].key == key;
      if j in x {
        assert key in KeysAt(a, x);
      } else {
        assert key in KeysAt(a, y);
      }
    }
  }
}
