/**
 * The storage layer of the chained hash table: entries, buckets, the table
 * of buckets, bucket scans and the re-hashing that a resize performs.
 */
module Buckets {
  import opened Common

  /** One stored mapping (the table's `Node`); a `None` value is a stored null. */
  datatype Entry<K, V> = Entry(key: K, value: Option<V>)

  /** A bucket keeps its entries in insertion order. */
  type Bucket<K, V> = seq<Entry<K, V>>

  type Table<K, V> = seq<Bucket<K, V>>

  /** `Math.floorMod(h, n)`: for a positive divisor Dafny's `%` already rounds toward minus infinity. */
  function FloorMod(h: int, n: int): (r: int)
    requires n > 0
    ensures 0 <= r < n
    ensures exists q :: h == q * n + r
  {
    assert h == (h / n) * n + h % n;
    h % n
  }

  /** A fresh table of `n` empty buckets. */
  function EmptyTable<K, V>(n: nat): (t: Table<K, V>)
    ensures |t| == n
    ensures forall i :: 0 <= i < n ==> |t[i]| == 0
  {
    seq(n, _ => [])
  }

  /** The keys carried by a sequence of entries. */
  function Keys<K(==), V>(s: seq<Entry<K, V>>): set<K>
  {
    set j | 0 <= j < |s| :: s[j].key
  }

  /** No two positions of `s` carry the same key. */
  ghost predicate DistinctKeys<K, V>(s: seq<Entry<K, V>>)
  {
    forall p, q :: 0 <= p < q < |s| ==> s[p].key != s[q].key
  }

  /** All entries of the table, bucket after bucket, each bucket in its own order. */
  function Flatten<K, V>(t: Table<K, V>): seq<Entry<K, V>>
    decreases |t|
  {
    if |t| == 0 then [] else Flatten(t[..|t| - 1]) + t[|t| - 1]
  }

  /** Every entry of bucket `i` hashes to `i` for a table of length `n`. */
  ghost predicate Placed<K, V>(hash: K -> int, t: Table<K, V>, n: int)
  {
    n > 0 && forall i, e :: 0 <= i < |t| && e in t[i] ==> FloorMod(hash(e.key), n) == i
  }

  /** Every bucket is free of duplicate keys. */
  ghost predicate BucketsDistinct<K, V>(t: Table<K, V>)
  {
    forall i :: 0 <= i < |t| ==> DistinctKeys(t[i])
  }

  /** The placement and uniqueness half of the hash table's representation invariant. */
  ghost predicate WellPlaced<K, V>(hash: K -> int, t: Table<K, V>)
  {
    |t| > 0 && Placed(hash, t, |t|) && BucketsDistinct(t)
  }

  /** Scan of a bucket from position `j`: the first position whose key equals `k`. */
  function FindFrom<K(==), V>(b: Bucket<K, V>, k: K, j: nat): (r: Option<nat>)
    requires j <= |b|
    ensures r.Some? ==> j <= r.value < |b| && b[r.value].key == k
    ensures r.Some? ==> forall p :: j <= p < r.value ==> b[p].key != k
    ensures r.None? <==> forall p :: j <= p < |b| ==> b[p].key != k
    decreases |b| - j
  {
    if j == |b| then None
    else if b[j].key == k then Some(j)
    else FindFrom(b, k, j + 1)
  }

  /** Scan of a whole bucket from its front, as the lookups of the table do: the first position holding `k`. */
  function Find<K(==), V>(b: Bucket<K, V>, k: K): (r: Option<nat>)
    ensures r.Some? ==> r.value < |b| && b[r.value].key == k
    ensures r.Some? ==> forall p :: 0 <= p < r.value ==> b[p].key != k
    ensures r.None? <==> k !in Keys(b)
  {
    var r := FindFrom(b, k, 0);
    assert r.None? ==> forall j :: 0 <= j < |b| ==> b[j].key != k;
    r
  }

  /** The value stored under `k` in bucket `b`, or null when no entry has key `k`. */
  function BucketGet<K(==), V>(b: Bucket<K, V>, k: K): (r: Option<V>)
    ensures k !in Keys(b) ==> r.None?
    ensures k in Keys(b) ==> exists j :: 0 <= j < |b| && b[j].key == k && r == b[j].value && forall p :: 0 <= p < j ==> b[p].key != k
  {
    match Find(b, k)
    case Some(j) => b[j].value
    case None => None
  }

  /** Appends `e` at the end of the bucket its key hashes to, as the re-placement in `resize` does. */
  function AddEntry<K, V>(hash: K -> int, t: Table<K, V>, e: Entry<K, V>): (r: Table<K, V>)
    requires |t| > 0
    ensures |r| == |t|
    ensures multiset(Flatten(r)) == multiset(Flatten(t)) + multiset{e}
    ensures e in r[FloorMod(hash(e.key), |t|)]
    ensures forall x :: 0 <= x < |t| && x != FloorMod(hash(e.key), |t|) ==> r[x] == t[x]
  {
    var i := FloorMod(hash(e.key), |t|);
    FlattenAppend(t, i, e);
    t[i := t[i] + [e]]
  }

  /** Appends the entries of `s`, in order, each to the bucket its key hashes to. */
  function AddAll<K, V>(hash: K -> int, t: Table<K, V>, s: seq<Entry<K, V>>): (r: Table<K, V>)
    requires |t| > 0
    ensures |r| == |t|
    ensures multiset(Flatten(r)) == multiset(Flatten(t)) + multiset(s)
    decreases |s|
  {
    if |s| == 0 then t
    else
      assert s == [s[0]] + s[1..];
      AddAll(hash, AddEntry(hash, t, s[0]), s[1..])
  }

  /**
   * The re-distribution loop of a resize: a fresh table of `n` buckets filled by
   * visiting the old buckets in table order and each bucket in its own order.
   */
  function Rehash<K, V>(hash: K -> int, t: Table<K, V>, n: nat): (r: Table<K, V>)
    requires n > 0
    ensures |r| == n
    ensures multiset(Flatten(r)) == multiset(Flatten(t))
    decreases |t|
  {
    if |t| == 0 then FlattenEmpty<K, V>(n); EmptyTable(n)
    else
      var r := Rehash(hash, t[..|t| - 1], n);
      assert multiset(Flatten(t)) == multiset(Flatten(t[..|t| - 1])) + multiset(t[|t| - 1]);
      AddAll(hash, r, t[|t| - 1])
  }

  // ---------------------------------------------------------------------------
  // Lemmas about flattening

  lemma {:induction false} FlattenEmpty<K, V>(n: nat)
    ensures Flatten(EmptyTable<K, V>(n)) == []
    decreases n
  {
    if n > 0 {
      var t := EmptyTable<K, V>(n);
      assert t[..n - 1] == EmptyTable<K, V>(n - 1);
      FlattenEmpty<K, V>(n - 1);
    }
  }

  /** Replacing bucket `i` by `b` swaps that bucket's entries for those of `b`. */
  lemma {:induction false} FlattenUpdate<K, V>(t: Table<K, V>, i: int, b: Bucket<K, V>)
    requires 0 <= i < |t|
    ensures multiset(Flatten(t[i := b])) + multiset(t[i]) == multiset(Flatten(t)) + multiset(b)
    decreases |t|
  {
    var n := |t| - 1;
    var u := t[i := b];
    assert Flatten(t) == Flatten(t[..n]) + t[n];
    assert Flatten(u) == Flatten(u[..n]) + u[n];
    if i == n {
      assert u[..n] == t[..n];
    } else {
      assert u[..n] == t[..n][i := b];
      assert t[..n][i] == t[i] && u[n] == t[n];
      FlattenUpdate(t[..n], i, b);
      var fu, ft := multiset(Flatten(u[..n])), multiset(Flatten(t[..n]));
      assert multiset(Flatten(u)) == fu + multiset(t[n]);
      assert multiset(Flatten(t)) == ft + multiset(t[n]);
      MultisetShift(fu, multiset(t[i]), ft, multiset(b), multiset(t[n]));
    }
  }

  /** An entry is in the flattened table exactly when it is in one of its buckets. */
  lemma {:induction false} FlattenMember<K, V>(t: Table<K, V>, e: Entry<K, V>)
    ensures e in Flatten(t) <==> exists i :: 0 <= i < |t| && e in t[i]
    decreases |t|
  {
    if |t| > 0 {
      var n := |t| - 1;
      FlattenMember(t[..n], e);
      assert forall i :: 0 <= i < n ==> t[..n][i] == t[i];
      if e in Flatten(t) && e !in t[n] {
        assert e in Flatten(t[..n]);
      }
    }
  }

  /** Appending `e` to bucket `i` adds exactly `e` to the table's entries. */
  lemma FlattenAppend<K, V>(t: Table<K, V>, i: int, e: Entry<K, V>)
    requires 0 <= i < |t|
    ensures multiset(Flatten(t[i := t[i] + [e]])) == multiset(Flatten(t)) + multiset{e}
  {
    var r := t[i := t[i] + [e]];
    FlattenUpdate(t, i, t[i] + [e]);
    assert multiset(t[i] + [e]) == multiset(t[i]) + multiset{e};
    MultisetCancel(multiset(Flatten(r)), multiset(Flatten(t)) + multiset{e}, multiset(t[i]));
  }

  /** Swapping in a distinct bucket whose entries all hash to `i` keeps the table well placed. */
  lemma ReplaceBucket<K, V>(hash: K -> int, t: Table<K, V>, i: int, b: Bucket<K, V>)
    requires WellPlaced(hash, t) && 0 <= i < |t| && DistinctKeys(b)
    requires forall f :: f in b ==> FloorMod(hash(f.key), |t|) == i
    ensures WellPlaced(hash, t[i := b])
    ensures |Flatten(t[i := b])| + |t[i]| == |Flatten(t)| + |b|
  {
    var u := t[i := b];
    FlattenUpdate(t, i, b);
    assert |multiset(Flatten(u)) + multiset(t[i])| == |multiset(Flatten(t)) + multiset(b)|;
    forall x, f: Entry<K, V> | 0 <= x < |u| && f in u[x] ensures FloorMod(hash(f.key), |t|) == x {
      if x != i { assert f in t[x]; }
    }
  }

  lemma MultisetCancel<T>(a: multiset<T>, c: multiset<T>, b: multiset<T>)
    requires a + b == c + b
    ensures a == c
  {
    forall x ensures a[x] == c[x] { assert (a + b)[x] == (c + b)[x]; }
  }

  lemma MultisetShift<T>(a: multiset<T>, b: multiset<T>, c: multiset<T>, d: multiset<T>, m: multiset<T>)
    requires a + b == c + d
    ensures (a + m) + b == (c + m) + d
  {
    forall x ensures ((a + m) + b)[x] == ((c + m) + d)[x] { assert (a + b)[x] == (c + d)[x]; }
  }

  lemma FlattenPrefix<K, V>(t: Table<K, V>, i: int)
    requires 0 <= i < |t|
    ensures Flatten(t[..i + 1]) == Flatten(t[..i]) + t[i]
  {
    assert t[..i + 1][..i] == t[..i];
  }

  /** The keys of a concatenation. */
  lemma KeysAppend<K, V>(a: seq<Entry<K, V>>, b: seq<Entry<K, V>>)
    ensures Keys(a + b) == Keys(a) + Keys(b)
  {
    var c := a + b;
    forall k | k in Keys(c) ensures k in Keys(a) + Keys(b) {
      var j :| 0 <= j < |c| && c[j].key == k;
      if j < |a| { assert a[j] == c[j]; } else { assert b[j - |a|] == c[j]; }
    }
    forall k | k in Keys(a) + Keys(b) ensures k in Keys(c) {
      if k in Keys(a) {
        var j :| 0 <= j < |a| && a[j].key == k;
        assert c[j] == a[j];
      } else {
        var j :| 0 <= j < |b| && b[j].key == k;
        assert c[|a| + j] == b[j];
      }
    }
  }

  /** The keys of a one-entry sequence. */
  lemma KeysSingleton<K, V>(e: Entry<K, V>)
    ensures Keys([e]) == {e.key}
  {
    assert [e][0] == e;
  }

  lemma KeysMember<K, V>(s: seq<Entry<K, V>>, k: K)
    ensures k in Keys(s) <==> exists e :: e in s && e.key == k
  {
    if k in Keys(s) {
      var j :| 0 <= j < |s| && s[j].key == k;
      assert s[j] in s;
    }
  }

  /** Without duplicate keys there are as many keys as entries. */
  lemma {:induction false} DistinctCard<K, V>(s: seq<Entry<K, V>>)
    requires DistinctKeys(s)
    ensures |Keys(s)| == |s|
    decreases |s|
  {
    if |s| > 0 {
      var n := |s| - 1;
      var p := s[..n];
      assert s == p + [s[n]];
      KeysAppend(p, [s[n]]);
      KeysSingleton(s[n]);
      DistinctCard(p);
      assert s[n].key !in Keys(p);
    }
  }

  lemma DistinctAppend<K, V>(a: seq<Entry<K, V>>, b: seq<Entry<K, V>>)
    requires DistinctKeys(a) && DistinctKeys(b)
    requires Keys(a) !! Keys(b)
    ensures DistinctKeys(a + b)
  {
    var c := a + b;
    forall p, q | 0 <= p < q < |c| ensures c[p].key != c[q].key {
      if q < |a| {
        assert c[p] == a[p] && c[q] == a[q];
      } else if p >= |a| {
        assert c[p] == b[p - |a|] && c[q] == b[q - |a|];
      } else {
        assert c[p] == a[p] && c[q] == b[q - |a|];
        assert c[p].key in Keys(a) && c[q].key in Keys(b);
      }
    }
  }

  /** A placed table with distinct buckets has no key twice anywhere. */
  lemma {:induction false} FlattenDistinct<K, V>(hash: K -> int, t: Table<K, V>, n: int)
    requires Placed(hash, t, n) && BucketsDistinct(t)
    ensures DistinctKeys(Flatten(t))
    decreases |t|
  {
    if |t| > 0 {
      var last := |t| - 1;
      var p := t[..last];
      assert forall i :: 0 <= i < last ==> p[i] == t[i];
      FlattenDistinct(hash, p, n);
      forall k | k in Keys(Flatten(p)) ensures k !in Keys(t[last]) {
        KeysMember(Flatten(p), k);
        var e :| e in Flatten(p) && e.key == k;
        FlattenMember(p, e);
        var i :| 0 <= i < last && e in p[i];
        assert e in t[i];
        KeysMember(t[last], k);
      }
      DistinctAppend(Flatten(p), t[last]);
    }
  }

  /** Distinct keys and one entry per key: the table holds as many keys as entries. */
  lemma KeysOfPlacedTable<K, V>(hash: K -> int, t: Table<K, V>)
    requires WellPlaced(hash, t)
    ensures |Keys(Flatten(t))| == |Flatten(t)|
  {
    FlattenDistinct(hash, t, |t|);
    DistinctCard(Flatten(t));
  }

  // ---------------------------------------------------------------------------
  // Lemmas about bucket scans

  /** In a bucket without duplicate keys, a present entry is the one the scan returns. */
  lemma FindPresent<K, V>(b: Bucket<K, V>, e: Entry<K, V>)
    requires DistinctKeys(b) && e in b
    ensures Find(b, e.key).Some? && b[Find(b, e.key).value] == e
    ensures BucketGet(b, e.key) == e.value
  {
    var j :| 0 <= j < |b| && b[j] == e;
    assert e.key in Keys(b);
    var p := Find(b, e.key).value;
    assert b[p].key == b[j].key;
  }

  /** Unlinking position `j` of a bucket without duplicate keys drops exactly that entry's key. */
  lemma RemoveAt<K, V>(b: Bucket<K, V>, j: int)
    requires DistinctKeys(b) && 0 <= j < |b|
    ensures var b' := b[..j] + b[j + 1..];
            && DistinctKeys(b') && b[j].key !in Keys(b')
            && (forall e :: e in b' ==> e in b)
            && (forall e: Entry<K, V> :: e.key != b[j].key ==> (e in b' <==> e in b))
  {
    var b' := b[..j] + b[j + 1..];
    assert forall p :: 0 <= p < |b'| ==> b'[p] == if p < j then b[p] else b[p + 1];
    forall p, q | 0 <= p < q < |b'| ensures b'[p].key != b'[q].key {
      var p1 := if p < j then p else p + 1;
      var q1 := if q < j then q else q + 1;
      assert b'[p] == b[p1] && b'[q] == b[q1] && p1 < q1;
    }
    forall p | 0 <= p < |b'| ensures b'[p].key != b[j].key {
      var p1 := if p < j then p else p + 1;
      assert b'[p] == b[p1] && p1 != j;
      if p1 < j { assert b[p1].key != b[j].key; } else { assert b[j].key != b[p1].key; }
    }
    forall e | e in b' ensures e in b {
      var p :| 0 <= p < |b'| && b'[p] == e;
      var p1 := if p < j then p else p + 1;
      assert b[p1] == e;
    }
    forall e: Entry<K, V> | e.key != b[j].key && e in b ensures e in b' {
      var p :| 0 <= p < |b| && b[p] == e;
      if p < j { assert b'[p] == e; } else { assert b'[p - 1] == e; }
    }
  }

  // ---------------------------------------------------------------------------
  // Lemmas about re-hashing

  lemma AddEntryPlaced<K, V>(hash: K -> int, t: Table<K, V>, e: Entry<K, V>)
    requires Placed(hash, t, |t|)
    ensures Placed(hash, AddEntry(hash, t, e), |t|)
  {
    var r := AddEntry(hash, t, e);
    var i := FloorMod(hash(e.key), |t|);
    forall j, f: Entry<K, V> | 0 <= j < |r| && f in r[j] ensures FloorMod(hash(f.key), |t|) == j {
      if j != i { assert r[j] == t[j]; }
      else if f != e { assert f in t[i]; }
    }
  }

  lemma {:induction false} AddAllPlaced<K, V>(hash: K -> int, t: Table<K, V>, s: seq<Entry<K, V>>)
    requires Placed(hash, t, |t|)
    ensures Placed(hash, AddAll(hash, t, s), |t|)
    decreases |s|
  {
    if |s| > 0 {
      AddEntryPlaced(hash, t, s[0]);
      AddAllPlaced(hash, AddEntry(hash, t, s[0]), s[1..]);
    }
  }

  /** Keys of `s` that are distinct and absent from `t` keep every bucket distinct. */
  lemma {:induction false} AddAllDistinct<K, V>(hash: K -> int, t: Table<K, V>, s: seq<Entry<K, V>>)
    requires |t| > 0 && BucketsDistinct(t) && DistinctKeys(s)
    requires forall i :: 0 <= i < |t| ==> Keys(t[i]) !! Keys(s)
    ensures BucketsDistinct(AddAll(hash, t, s))
    decreases |s|
  {
    if |s| > 0 {
      var e := s[0];
      var rest := s[1..];
      var i := FloorMod(hash(e.key), |t|);
      var u := AddEntry(hash, t, e);
      assert e.key in Keys(s);
      assert e.key !in Keys(t[i]);
      KeysSingleton(e);
      DistinctAppend(t[i], [e]);
      assert s == [e] + rest;
      KeysAppend([e], rest);
      assert DistinctKeys(rest);
      forall j | 0 <= j < |rest| ensures rest[j].key != e.key {
        assert rest[j] == s[j + 1];
      }
      forall j | 0 <= j < |u| ensures Keys(u[j]) !! Keys(rest) {
        if j == i { KeysAppend(t[i], [e]); }
      }
      AddAllDistinct(hash, u, rest);
    }
  }

  /** Adding two runs of entries one after the other is adding their concatenation. */
  lemma {:induction false} AddAllConcat<K, V>(hash: K -> int, t: Table<K, V>, s1: seq<Entry<K, V>>, s2: seq<Entry<K, V>>)
    requires |t| > 0
    ensures AddAll(hash, t, s1 + s2) == AddAll(hash, AddAll(hash, t, s1), s2)
    decreases |s1|
  {
    if |s1| > 0 {
      assert (s1 + s2)[1..] == s1[1..] + s2;
      AddAllConcat(hash, AddEntry(hash, t, s1[0]), s1[1..], s2);
    } else {
      assert s1 + s2 == s2;
    }
  }

  /** The bucket-by-bucket re-distribution adds the flattened table, entry by entry, to empty buckets. */
  lemma {:induction false} RehashFlat<K, V>(hash: K -> int, t: Table<K, V>, n: nat)
    requires n > 0
    ensures Rehash(hash, t, n) == AddAll(hash, EmptyTable(n), Flatten(t))
    decreases |t|
  {
    if |t| == 0 {
      FlattenEmpty<K, V>(0);
    } else {
      var p := t[..|t| - 1];
      RehashFlat(hash, p, n);
      assert Flatten(t) == Flatten(p) + t[|t| - 1];
      AddAllConcat(hash, EmptyTable(n), Flatten(p), t[|t| - 1]);
    }
  }

  /** Re-hashing a well-placed table gives a well-placed table with the same entries. */
  lemma RehashWellPlaced<K, V>(hash: K -> int, t: Table<K, V>, n: nat)
    requires WellPlaced(hash, t) && n > 0
    ensures WellPlaced(hash, Rehash(hash, t, n))
  {
    var e := EmptyTable<K, V>(n);
    RehashFlat(hash, t, n);
    FlattenDistinct(hash, t, |t|);
    AddAllPlaced(hash, e, Flatten(t));
    forall i | 0 <= i < n ensures Keys(e[i]) !! Keys(Flatten(t)) {
      assert Keys(e[i]) == {};
    }
    AddAllDistinct(hash, e, Flatten(t));
  }
}
