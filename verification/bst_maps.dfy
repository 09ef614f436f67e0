/**
 * `BSTMap`: a map from integer keys to nullable values kept in the node heap
 * of `BstArena`. Its `insert` always descends the left link and stores the
 * result on the right for keys at or below the new key, so the structure is
 * not a binary search tree; this model keeps that behaviour.
 */
module BstMaps {
  import opened Common
  import opened BstArena
  import opened BstShape

  /** The map object: the heap, the `root` reference and the `size` field. */
  datatype BSTMap<V> = BSTMap(nodes: Arena<V>, root: Option<nat>, size: int)

  datatype MapError = UnsupportedOperation

  /** The heap is acyclic and `root` names one of its nodes (or is null). */
  ghost predicate Linked<V>(m: BSTMap<V>)
  {
    WellFormed(m.nodes) && InArena(m.root, |m.nodes|)
  }

  /** No two nodes reachable from `root` carry the same key. */
  ghost predicate UniqueKeys<V>(m: BSTMap<V>)
    requires Linked(m)
  {
    forall i, j :: i in Reach(m.nodes, m.root) && j in Reach(m.nodes, m.root) && m.nodes[i].key == m.nodes[j].key ==> i == j
  }

  /** The invariant of every map built by the constructor, `put` and `clear`. */
  ghost predicate Valid<V>(m: BSTMap<V>)
  {
    Linked(m) && LeftOrdered(m.nodes) && Good(m.nodes, m.root) && UniqueKeys(m)
  }

  /** The keys of all nodes reachable from `root`, a shared node counted once. */
  ghost function Keys<V>(m: BSTMap<V>): set<int>
    requires Linked(m)
  {
    KeysAt(m.nodes, Reach(m.nodes, m.root))
  }

  /** `new BSTMap()`: no nodes and `size` 0. */
  function Empty<V>(): (m: BSTMap<V>)
    ensures Valid(m) && m.size == 0 && Keys(m) == {}
  {
    BSTMap([], None, 0)
  }

  /**
   * `clear()`: `root` becomes null, so every node becomes unreachable (the
   * model drops them); `size` is left alone.
   */
  function Clear<V>(m: BSTMap<V>): (r: BSTMap<V>)
    ensures Valid(r) && r.size == m.size && Keys(r) == {}
    ensures forall k :: !ContainsKey(r, k) && Get(r, k).None?
  {
    BSTMap([], None, m.size)
  }

  /** `containsKey(k)`: whether `searchKey` from the root finds a node. */
  function ContainsKey<V>(m: BSTMap<V>, k: int): (r: bool)
    requires Linked(m)
    ensures r ==> k in Keys(m)
  {
    var found := Search(m.nodes, m.root, k);
    if found.Some? then
      assert m.nodes[found.value].key == k;
      true
    else false
  }

  /** `get(k)`: the value of the node `searchKey` finds, or null. */
  function Get<V>(m: BSTMap<V>, k: int): (r: Option<V>)
    requires Linked(m)
    ensures !ContainsKey(m, k) ==> r.None?
    ensures ContainsKey(m, k) ==>
      exists j :: j in Reach(m.nodes, m.root) && m.nodes[j].key == k && r == m.nodes[j].value
    ensures Valid(m) ==> forall j :: j in Reach(m.nodes, m.root) && m.nodes[j].key == k ==> r == m.nodes[j].value
  {
    SearchFindsUnique(m, k);
    match Search(m.nodes, m.root, k)
    case None => None
    case Some(j) => m.nodes[j].value
  }

  /** `size()`: the field, which nothing but the constructor ever writes. */
  function Size<V(!new)>(m: BSTMap<V>): (r: int)
    ensures Clear(m).size == r
    ensures Linked(m) ==> forall k, v :: Put(m, k, v).size == r
  {
    m.size
  }

  /**
   * `put(k, v)`: nothing happens when `searchKey` finds `k`; otherwise
   * `insert` runs from the root and its result becomes the root. On a valid
   * map the result is valid and finds `k`. A new key gets the new value, and
   * every node on the left spine below the root is re-linked on the side
   * `searchKey` takes for `k`. Keys may be lost but never invented.
   */
  function Put<V>(m: BSTMap<V>, k: int, v: Option<V>): (r: BSTMap<V>)
    requires Linked(m)
    ensures Linked(r) && r.size == m.size
    ensures ContainsKey(m, k) ==> r == m
    ensures !ContainsKey(m, k) ==>
      && |r.nodes| == |m.nodes| + 1
      && r.nodes[|m.nodes|] == NodeRec(k, v, None, None)
      && r.root == (if m.root.None? then Some(|m.nodes|) else m.root)
    ensures Valid(m) ==> Valid(r) && ContainsKey(r, k) && k in Keys(r) && Keys(r) <= Keys(m) + {k}
    ensures Valid(m) && !ContainsKey(m, k) ==> Get(r, k) == v
    ensures Valid(m) && !ContainsKey(m, k) ==>
      forall j :: j in Spine(m.nodes, m.root) ==> m.nodes[j].key != k && Relinked(m.nodes, j, r.nodes, k)
  {
    if Search(m.nodes, m.root, k).Some? then m
    else
      var (a', root) := Insert(m.nodes, m.root, k, v);
      NewKeyValid(m, k, v);
      NewKeyFound(m, k, v);
      NewKeyKeys(m, k, v);
      BSTMap(a', Some(root), m.size)
  }

  /** `keySet()`: `addKeys` from the root into an empty set. */
  function KeySet<V>(m: BSTMap<V>): (r: set<int>)
    requires Linked(m)
    ensures r == Keys(m)
  {
    AddKeys(m.nodes, m.root, {})
  }

  /** `remove(k)`: always throws `UnsupportedOperationException`. */
  function Remove<V>(m: BSTMap<V>, k: int): (r: Result<Option<V>, MapError>)
    ensures r == Err(UnsupportedOperation)
  {
    Err(UnsupportedOperation)
  }

  /** `remove(k, v)`: always throws `UnsupportedOperationException`. */
  function RemoveIfMapped<V>(m: BSTMap<V>, k: int, v: Option<V>): (r: Result<Option<V>, MapError>)
    ensures r == Err(UnsupportedOperation)
  {
    Err(UnsupportedOperation)
  }

  /** Inserting a key `searchKey` does not find keeps the invariant and re-links the left spine. */
  lemma NewKeyValid<V>(m: BSTMap<V>, k: int, v: Option<V>)
    requires Linked(m) && Search(m.nodes, m.root, k).None?
    ensures var (a', root) := Insert(m.nodes, m.root, k, v);
            Valid(m) ==>
              && Valid(BSTMap(a', Some(root), m.size))
              && forall j :: j in Spine(m.nodes, m.root) ==> m.nodes[j].key != k && Relinked(m.nodes, j, a', k)
  {
    NewKeyUnique(m, k, v);
    if Valid(m) {
      InsertKeepsLeftOrdered(m.nodes, m.root, k, v);
      InsertKeepsGood(m.nodes, m.root, k, v);
      NotFoundAvoids(m.nodes, m.root, k);
      InsertRelinksSpine(m.nodes, m.root, k, v);
    }
  }

  /** In a valid map the search for `k` finds the one reachable node keyed `k`, if there is one. */
  lemma SearchFindsUnique<V>(m: BSTMap<V>, k: int)
    requires Linked(m)
    ensures Valid(m) ==>
      forall j :: j in Reach(m.nodes, m.root) && m.nodes[j].key == k ==> Search(m.nodes, m.root, k) == Some(j)
  {
    if Valid(m) {
      forall j | j in Reach(m.nodes, m.root) && m.nodes[j].key == k
        ensures Search(m.nodes, m.root, k) == Some(j)
      {
        SearchComplete(m.nodes, m.root, j);
      }
    }
  }

  /** Inserting a key `searchKey` does not find adds the one node carrying it to the reachable ones. */
  lemma NewKeyUnique<V>(m: BSTMap<V>, k: int, v: Option<V>)
    requires Linked(m) && Search(m.nodes, m.root, k).None?
    ensures var (a', root) := Insert(m.nodes, m.root, k, v);
            Valid(m) ==> UniqueKeys(BSTMap(a', Some(root), m.size))
  {
    if Valid(m) {
      var a := m.nodes;
      var (a', root) := Insert(a, m.root, k, v);
      InsertFrame(a, m.root, k, v);
      InsertReachWithin(a, m.root, k, v);
      var reach := Reach(a, m.root);
      forall j | j in reach
        ensures a[j].key != k
      {
        SearchComplete(a, m.root, j);
      }
      forall i, j | i in Reach(a', Some(root)) && j in Reach(a', Some(root)) && a'[i].key == a'[j].key
        ensures i == j
      {
        assert i in reach || i == |a|;
        assert j in reach || j == |a|;
      }
    }
  }

  /** After inserting a key `searchKey` did not find, the search finds it with the new value. */
  lemma NewKeyFound<V>(m: BSTMap<V>, k: int, v: Option<V>)
    requires Linked(m) && Search(m.nodes, m.root, k).None?
    ensures var (a', root) := Insert(m.nodes, m.root, k, v);
            var r := BSTMap(a', Some(root), m.size);
            Valid(m) ==> Linked(r) && ContainsKey(r, k) && Get(r, k) == v
  {
    if Valid(m) {
      NotFoundAvoids(m.nodes, m.root, k);
      InsertFinds(m.nodes, m.root, k, v);
    }
  }

  /** Inserting a key adds it and nothing else to the keys reachable from the root. */
  lemma NewKeyKeys<V>(m: BSTMap<V>, k: int, v: Option<V>)
    requires Linked(m) && Search(m.nodes, m.root, k).None?
    ensures var (a', root) := Insert(m.nodes, m.root, k, v);
            var r := BSTMap(a', Some(root), m.size);
            Linked(r) && Keys(r) <= Keys(m) + {k} && (Valid(m) ==> k in Keys(r))
  {
    var (a', root) := Insert(m.nodes, m.root, k, v);
    var r := BSTMap(a', Some(root), m.size);
    NewKeyFound(m, k, v);
    InsertFrame(m.nodes, m.root, k, v);
    InsertReachWithin(m.nodes, m.root, k, v);
    forall x | x in Keys(r)
      ensures x in Keys(m) + {k}
    {
      var j :| j in Reach(r.nodes, r.root) && j < |r.nodes| && r.nodes[j].key == x;
      if j < |m.nodes| {
        assert j in Reach(m.nodes, m.root);
      }
    }
  }

  /** In every valid map, `containsKey` agrees with `keySet`. */
  lemma ContainsKeyIffInKeySet<V>(m: BSTMap<V>, k: int)
    requires Valid(m)
    ensures ContainsKey(m, k) <==> k in KeySet(m)
  {
    if k in Keys(m) {
      var j :| j in Reach(m.nodes, m.root) && j < |m.nodes| && m.nodes[j].key == k;
      SearchComplete(m.nodes, m.root, j);
    }
  }

  /** One call on the map: `put(k, v)` or `clear()`. */
  datatype Op<V> = PutOp(key: int, value: Option<V>) | ClearOp

  /**
   * Any sequence of calls keeps the invariant and never changes `size`; from
   * the constructor, `size()` is therefore 0 forever.
   */
  function Run<V(!new)>(m: BSTMap<V>, ops: seq<Op<V>>): (r: BSTMap<V>)
    requires Valid(m)
    ensures Valid(r) && Size(r) == Size(m)
    decreases |ops|
  {
    if |ops| == 0 then m
    else
      match ops[0]
      case ClearOp => Run(Clear(m), ops[1..])
      case PutOp(k, v) => Run(Put(m, k, v), ops[1..])
  }

  /** `size()` is 0 after any sequence of calls on a new map. */
  lemma SizeAlwaysZero<V(!new)>(ops: seq<Op<V>>)
    ensures Size(Run(Empty(), ops)) == 0
  {
  }

  /** Putting 5, 7 and 9 into a new map loses 7: the 9 leaf replaces it as the root's right child. */
  lemma PutFiveSevenNine()
    ensures var m := Put(Put(Put(Empty<int>(), 5, Some(50)), 7, Some(70)), 9, Some(90));
      !ContainsKey(m, 7) && KeySet(m) == {5, 9}
  {
    assert Put(Empty<int>(), 5, Some(50)) == BSTMap([NodeRec(5, Some(50), None, None)], Some(0), 0);
    SevenGoesRight();
    NineReplacesSeven();
    SevenIsLost();
  }

  /** In the heap left by putting 5, 7 and 9, node 7 is unreachable. */
  lemma SevenIsLost()
    ensures var m := BSTMap([NodeRec(5, Some(50), None, Some(2)), NodeRec(7, Some(70), None, None),
                             NodeRec(9, Some(90), None, None)], Some(0), 0);
      Linked(m) && !ContainsKey(m, 7) && KeySet(m) == {5, 9}
  {
    var a := [NodeRec(5, Some(50), None, Some(2)), NodeRec(7, Some(70), None, None), NodeRec(9, Some(90), None, None)];
    assert Search(a, Some(2), 7) == None;
    assert Reach(a, Some(0)) == {0, 2};
    assert KeysAt(a, {0, 2}) == {5, 9} by {
      assert a[0].key == 5 && a[2].key == 9;
    }
  }

  lemma SevenGoesRight()
    ensures Put(BSTMap([NodeRec(5, Some(50), None, None)], Some(0), 0), 7, Some(70))
        == BSTMap([NodeRec(5, Some(50), None, Some(1)), NodeRec(7, Some(70), None, None)], Some(0), 0)
  {
  }

  /** The root's left link is null, so the 9 leaf also goes to its right, replacing 7. */
  lemma NineReplacesSeven()
    ensures Put(BSTMap([NodeRec(5, Some(50), None, Some(1)), NodeRec(7, Some(70), None, None)], Some(0), 0), 9, Some(90))
        == BSTMap([NodeRec(5, Some(50), None, Some(2)), NodeRec(7, Some(70), None, None),
                   NodeRec(9, Some(90), None, None)], Some(0), 0)
  {
  }

  /** The heap after putting 5, 3, 6, 1, 4 into a new map, step by step. */
  lemma PutFiveThreeSixOneFourHeap()
    ensures Put(Put(Put(Put(Put(Empty<int>(), 5, Some(50)), 3, Some(30)), 6, Some(60)), 1, Some(10)), 4, Some(40))
      == BSTMap([NodeRec(5, Some(50), Some(1), Some(1)), NodeRec(3, Some(30), Some(3), Some(3)),
                 NodeRec(6, Some(60), None, None), NodeRec(1, Some(10), None, Some(4)),
                 NodeRec(4, Some(40), None, None)], Some(0), 0)
  {
    assert Put(Empty<int>(), 5, Some(50)) == BSTMap([NodeRec(5, Some(50), None, None)], Some(0), 0);
    ThreeGoesLeft();
    SixGoesRight();
    OneGoesLeft();
    FourReplacesSix();
  }

  lemma ThreeGoesLeft()
    ensures Put(BSTMap([NodeRec(5, Some(50), None, None)], Some(0), 0), 3, Some(30))
        == BSTMap([NodeRec(5, Some(50), Some(1), None), NodeRec(3, Some(30), None, None)], Some(0), 0)
  {
  }

  /** 5 <= 6 and 3 <= 6: the root's right link becomes its left child 3, and 3's right link the new 6. */
  lemma SixGoesRight()
    ensures Put(BSTMap([NodeRec(5, Some(50), Some(1), None), NodeRec(3, Some(30), None, None)], Some(0), 0), 6, Some(60))
        == BSTMap([NodeRec(5, Some(50), Some(1), Some(1)), NodeRec(3, Some(30), None, Some(2)),
                   NodeRec(6, Some(60), None, None)], Some(0), 0)
  {
  }

  lemma OneGoesLeft()
    ensures Put(BSTMap([NodeRec(5, Some(50), Some(1), Some(1)), NodeRec(3, Some(30), None, Some(2)),
                        NodeRec(6, Some(60), None, None)], Some(0), 0), 1, Some(10))
        == BSTMap([NodeRec(5, Some(50), Some(1), Some(1)), NodeRec(3, Some(30), Some(3), Some(2)),
                   NodeRec(6, Some(60), None, None), NodeRec(1, Some(10), None, None)], Some(0), 0)
  {
  }

  /** 3 <= 4: 3's right link (to 6) is replaced by its left child 1, whose right link gets the new 4. */
  lemma FourReplacesSix()
    ensures Put(BSTMap([NodeRec(5, Some(50), Some(1), Some(1)), NodeRec(3, Some(30), Some(3), Some(2)),
                        NodeRec(6, Some(60), None, None), NodeRec(1, Some(10), None, None)], Some(0), 0), 4, Some(40))
        == BSTMap([NodeRec(5, Some(50), Some(1), Some(1)), NodeRec(3, Some(30), Some(3), Some(3)),
                   NodeRec(6, Some(60), None, None), NodeRec(1, Some(10), None, Some(4)),
                   NodeRec(4, Some(40), None, None)], Some(0), 0)
  {
  }

  /** Putting 5, 3, 6, 1, 4 into a new map loses 6: `get(6)` returns null and 6 is no longer a key. */
  lemma PutFiveThreeSixOneFour()
    ensures var m := Put(Put(Put(Put(Put(Empty<int>(), 5, Some(50)), 3, Some(30)), 6, Some(60)), 1, Some(10)), 4, Some(40));
      Get(m, 6).None? && KeySet(m) == {5, 3, 1, 4}
  {
    PutFiveThreeSixOneFourHeap();
    SixIsLost();
  }

  /** In the heap `PutFiveThreeSixOneFourHeap` describes, 6 is unreachable. */
  lemma SixIsLost()
    ensures var m := BSTMap([NodeRec(5, Some(50), Some(1), Some(1)), NodeRec(3, Some(30), Some(3), Some(3)),
                             NodeRec(6, Some(60), None, None), NodeRec(1, Some(10), None, Some(4)),
                             NodeRec(4, Some(40), None, None)], Some(0), 0);
      Linked(m) && Get(m, 6).None? && KeySet(m) == {5, 3, 1, 4}
  {
    var a := [NodeRec(5, Some(50), Some(1), Some(1)), NodeRec(3, Some(30), Some(3), Some(3)),
              NodeRec(6, Some(60), None, None), NodeRec(1, Some(10), None, Some(4)),
              NodeRec(4, Some(40), None, None)];
    // the search for 6 goes right at every node: 5, 3, 1, 4, then null
    assert Search(a, Some(4), 6) == None;
    assert Search(a, Some(3), 6) == None;
    assert Search(a, Some(1), 6) == None;
    assert Search(a, Some(0), 6) == None;
    assert Reach(a, Some(3)) == {3, 4};
    assert Reach(a, Some(0)) == {0, 1, 3, 4};
    assert KeysAt(a, {0, 1, 3, 4}) == {5, 3, 1, 4} by {
      assert a[0].key == 5 && a[1].key == 3 && a[3].key == 1 && a[4].key == 4;
    }
  }

  /** Putting a key a second time keeps the first value. */
  lemma PutTwiceKeepsFirst()
    ensures var m := Put(Put(Put(Empty<int>(), 5, Some(1)), 3, Some(2)), 5, Some(3));
      Get(m, 5) == Some(1)
  {
  }
}
