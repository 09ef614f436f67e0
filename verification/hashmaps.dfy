/**
 * The chained hash map (`MyHashMap`): a table of buckets, an entry count and a
 * maximum load factor. Every operation is a pure function from the old map to
 * the new one; the key's `hashCode` is the map's `hash` field.
 */
module HashMaps {
  import opened Common
  import opened Buckets

  /** Table length used by the no-argument constructor and by `clear`. */
  const DefaultSize: nat := 16

  /** Load factor used when the caller gives none. */
  const DefaultMaxLoad: real := 0.75

  datatype MyHashMap<!K, V> = MyHashMap(hash: K -> int, buckets: Table<K, V>, count: int, maxLoad: real)

  /** Why a constructor cannot produce a usable table. */
  datatype CreateError =
    | NegativeArraySize   // `new Collection[n]` with n < 0
    | ZeroLengthTable     // n == 0: every later `floorMod(h, 0)` divides by zero

  /**
   * The representation invariant: every entry sits in the bucket its key hashes
   * to, no bucket holds a key twice, and `count` is the number of entries.
   */
  ghost predicate Valid<K, V>(m: MyHashMap<K, V>)
  {
    WellPlaced(m.hash, m.buckets) && m.count == |Flatten(m.buckets)|
  }

  /** All stored entries, with multiplicity. */
  ghost function Entries<K, V>(m: MyHashMap<K, V>): multiset<Entry<K, V>>
  {
    multiset(Flatten(m.buckets))
  }

  /** The keys of all stored entries, whatever bucket they sit in. */
  function KeysOf<K(==), V>(m: MyHashMap<K, V>): set<K>
  {
    Keys(Flatten(m.buckets))
  }

  /**
   * Java's `int` division, which truncates toward zero: the remainder takes
   * the sign of the dividend and is smaller than the divisor in magnitude.
   */
  function JavaDiv(a: int, b: int): (q: int)
    requires b > 0
    ensures var rem := a - q * b; a >= 0 ==> 0 <= rem < b
    ensures var rem := a - q * b; a < 0 ==> -b < rem <= 0
  {
    if a >= 0 then a / b else -((-a) / b)
  }

  // ---------------------------------------------------------------------------
  // Construction

  /** `new MyHashMap()`: 16 empty buckets, load factor 0.75. */
  function New<K, V>(hash: K -> int): (m: MyHashMap<K, V>)
    ensures Valid(m) && m.count == 0 && KeysOf(m) == {}
    ensures |m.buckets| == DefaultSize && m.maxLoad == DefaultMaxLoad
  {
    FlattenEmpty<K, V>(DefaultSize);
    MyHashMap(hash, EmptyTable(DefaultSize), 0, DefaultMaxLoad)
  }

  /** `new MyHashMap(initialSize, maxLoad)`. */
  function NewWithLoad<K, V>(hash: K -> int, initialSize: int, maxLoad: real): (r: Result<MyHashMap<K, V>, CreateError>)
    ensures initialSize < 0 <==> r.Err? && r.error == NegativeArraySize
    ensures initialSize == 0 <==> r.Err? && r.error == ZeroLengthTable
    ensures r.Ok? ==> Valid(r.value) && r.value.count == 0 && KeysOf(r.value) == {}
    ensures r.Ok? ==> |r.value.buckets| == initialSize && r.value.maxLoad == maxLoad && r.value.hash == hash
  {
    if initialSize < 0 then Err(NegativeArraySize)
    else if initialSize == 0 then Err(ZeroLengthTable)
    else
      FlattenEmpty<K, V>(initialSize);
      Ok(MyHashMap(hash, EmptyTable(initialSize), 0, maxLoad))
  }

  /** `new MyHashMap(initialSize)`: the given table length, load factor 0.75. */
  function NewWithSize<K, V>(hash: K -> int, initialSize: int): (r: Result<MyHashMap<K, V>, CreateError>)
    ensures r.Ok? <==> initialSize > 0
    ensures r.Ok? ==> Valid(r.value) && r.value.count == 0 && KeysOf(r.value) == {}
    ensures r.Ok? ==> |r.value.buckets| == initialSize && r.value.maxLoad == DefaultMaxLoad
  {
    NewWithLoad(hash, initialSize, DefaultMaxLoad)
  }

  /** `clear()`: a fresh table of 16 buckets whatever the constructed size; the load factor stays. */
  function Clear<K, V>(m: MyHashMap<K, V>): (r: MyHashMap<K, V>)
    ensures Valid(r) && r.count == 0 && KeysOf(r) == {}
    ensures |r.buckets| == DefaultSize && forall i :: 0 <= i < |r.buckets| ==> |r.buckets[i]| == 0
    ensures r.maxLoad == m.maxLoad && r.hash == m.hash
  {
    FlattenEmpty<K, V>(DefaultSize);
    MyHashMap(m.hash, EmptyTable(DefaultSize), 0, m.maxLoad)
  }

  // ---------------------------------------------------------------------------
  // Queries

  /** `getIndex(key, buckets.length)`. */
  function IndexOf<K, V>(m: MyHashMap<K, V>, k: K): (i: int)
    requires |m.buckets| > 0
    ensures 0 <= i < |m.buckets|
  {
    FloorMod(m.hash(k), |m.buckets|)
  }

  /** `containsKey(key)`: scans the key's bucket. */
  function ContainsKey<K(==), V>(m: MyHashMap<K, V>, k: K): (r: bool)
    requires |m.buckets| > 0
    ensures r <==> exists e :: e in m.buckets[IndexOf(m, k)] && e.key == k
  {
    Find(m.buckets[IndexOf(m, k)], k).Some?
  }

  /** `get(key)`: the value in the key's bucket, or null. */
  function Get<K(==), V>(m: MyHashMap<K, V>, k: K): (r: Option<V>)
    requires |m.buckets| > 0
    ensures !ContainsKey(m, k) ==> r.None?
    ensures ContainsKey(m, k) ==> exists e :: e in m.buckets[IndexOf(m, k)] && e.key == k && r == e.value
  {
    BucketGet(m.buckets[IndexOf(m, k)], k)
  }

  /** `size()`: the entry count, which under the invariant is the number of distinct keys stored. */
  function Size<K, V>(m: MyHashMap<K, V>): (r: int)
    ensures Valid(m) ==> r == |KeysOf(m)|
  {
    SizeCountsKeys(m);
    m.count
  }

  /** Under the invariant the count is the number of distinct keys stored. */
  lemma SizeCountsKeys<K, V>(m: MyHashMap<K, V>)
    ensures Valid(m) ==> m.count == |KeysOf(m)|
  {
    if Valid(m) {
      KeysOfPlacedTable(m.hash, m.buckets);
    }
  }

  /** `keySet()`: visits every bucket in table order and every entry in bucket order. */
  method KeySet<K(==), V>(m: MyHashMap<K, V>) returns (ks: set<K>)
    ensures ks == KeysOf(m)
    ensures Valid(m) ==> |ks| == Size(m)
    ensures Valid(m) ==> forall k :: k in ks <==> ContainsKey(m, k)
  {
    var t := m.buckets;
    ks := {};
    assert t[..0] == [];
    var i := 0;
    while i < |t|
      invariant 0 <= i <= |t|
      invariant ks == Keys(Flatten(t[..i]))
    {
      var b := t[i];
      var j := 0;
      assert b[..0] == [];
      while j < |b|
        invariant 0 <= j <= |b|
        invariant ks == Keys(Flatten(t[..i])) + Keys(b[..j])
      {
        ks := ks + {b[j].key};
        assert b[..j + 1] == b[..j] + [b[j]];
        KeysAppend(b[..j], [b[j]]);
        j := j + 1;
      }
      assert b[..j] == b;
      FlattenPrefix(t, i);
      KeysAppend(Flatten(t[..i]), b);
      i := i + 1;
    }
    assert t[..i] == t;
    if Valid(m) {
      KeysOfPlacedTable(m.hash, t);
      forall k ensures k in ks <==> ContainsKey(m, k) {
        LookupChar(m, k);
      }
    }
  }

  // ---------------------------------------------------------------------------
  // Updates

  /** The integer load `count / buckets.length` exceeds `maxLoad` (the test in `resize`). */
  predicate Overloaded<K, V>(m: MyHashMap<K, V>): (r: bool)
    requires |m.buckets| > 0
    ensures m.count >= 0 && 0.0 <= m.maxLoad < 1.0 ==> (r <==> m.count >= |m.buckets|)
    ensures m.count >= 0 && m.maxLoad >= 0.0 && r ==> m.count >= |m.buckets|
  {
    assert 0 <= m.count < |m.buckets| ==> m.count / |m.buckets| == 0;
    assert m.count >= |m.buckets| ==> m.count / |m.buckets| >= 1;
    JavaDiv(m.count, |m.buckets|) as real > m.maxLoad
  }

  /**
   * `resize()`: doubles the table and re-places every entry when overloaded.
   * The entries, the invariant and every lookup survive it.
   */
  function Resize<K(!new), V>(m: MyHashMap<K, V>): (r: MyHashMap<K, V>)
    requires |m.buckets| > 0
    ensures r.hash == m.hash && r.count == m.count && r.maxLoad == m.maxLoad
    ensures |r.buckets| == if Overloaded(m) then 2 * |m.buckets| else |m.buckets|
    ensures Entries(r) == Entries(m)
    ensures Valid(m) ==> Valid(r)
    ensures Valid(m) ==> forall k :: Get(r, k) == Get(m, k) && ContainsKey(r, k) == ContainsKey(m, k)
    ensures m.count >= 1 && m.maxLoad >= 0.0 && JavaDiv(m.count - 1, |m.buckets|) as real <= m.maxLoad ==> LoadWithin(r)
  {
    if Overloaded(m) then
      RehashKeeps(m, 2 * |m.buckets|);
      DoubledLoadWithin(m.count - 1, |m.buckets|, m.maxLoad);
      MyHashMap(m.hash, Rehash(m.hash, m.buckets, 2 * |m.buckets|), m.count, m.maxLoad)
    else m
  }

  /** The in-place update of `put`: the entry at position `j` takes the new value and keeps its key object. */
  function Overwrite<K, V>(b: Bucket<K, V>, j: nat, v: Option<V>): (r: Bucket<K, V>)
    requires j < |b|
    ensures |r| == |b| && r[j].value == v
    ensures forall p :: 0 <= p < |b| ==> r[p].key == b[p].key
    ensures forall p :: 0 <= p < |b| && p != j ==> r[p] == b[p]
  {
    b[j := Entry(b[j].key, v)]
  }

  /** The part of `put` for an absent key before its resize check: a new entry at the end of the key's bucket, and one more in the count. */
  function Append<K, V>(m: MyHashMap<K, V>, k: K, v: Option<V>): (r: MyHashMap<K, V>)
    requires |m.buckets| > 0
    ensures r.hash == m.hash && r.maxLoad == m.maxLoad && |r.buckets| == |m.buckets|
    ensures r.count == m.count + 1
    ensures Entries(r) == Entries(m) + multiset{Entry(k, v)}
    ensures Entry(k, v) in r.buckets[IndexOf(m, k)]
    ensures forall x :: 0 <= x < |m.buckets| && x != IndexOf(m, k) ==> r.buckets[x] == m.buckets[x]
  {
    var i := IndexOf(m, k);
    FlattenAppend(m.buckets, i, Entry(k, v));
    MyHashMap(m.hash, m.buckets[i := m.buckets[i] + [Entry(k, v)]], m.count + 1, m.maxLoad)
  }

  /**
   * `put(key, value)`: overwrite in place when the key is found, else append,
   * count and resize. On a valid map these are the map laws: `k` now maps to
   * `v`, every other key answers as before, `size()` grows by one exactly when
   * `k` was absent, and the integer load stays within a non-negative `maxLoad`.
   */
  function Put<K(==,!new), V>(m: MyHashMap<K, V>, k: K, v: Option<V>): (r: MyHashMap<K, V>)
    requires |m.buckets| > 0
    ensures r.hash == m.hash && r.maxLoad == m.maxLoad
    ensures |r.buckets| == |m.buckets| || |r.buckets| == 2 * |m.buckets|
    ensures Valid(m) ==> Valid(r) && Size(r) == if ContainsKey(m, k) then Size(m) else Size(m) + 1
    ensures Valid(m) ==> Get(r, k) == v && ContainsKey(r, k)
    ensures Valid(m) ==> forall k2 :: k2 != k ==> Get(r, k2) == Get(m, k2) && ContainsKey(r, k2) == ContainsKey(m, k2)
    ensures Valid(m) && LoadWithin(m) && m.maxLoad >= 0.0 ==> LoadWithin(r)
  {
    var i := IndexOf(m, k);
    var b := m.buckets[i];
    match Find(b, k)
    case Some(j) =>
      OverwriteKeeps(m, k, v, j);
      MyHashMap(m.hash, m.buckets[i := Overwrite(b, j, v)], m.count, m.maxLoad)
    case None =>
      AppendKeeps(m, k, v);
      Resize(Append(m, k, v))
  }

  /**
   * The removal loop shared by both `remove` forms: unlinks the entry with key
   * `k`, if any. On a valid map it removes `k` and nothing else.
   */
  function Delete<K(==,!new), V>(m: MyHashMap<K, V>, k: K): (r: MyHashMap<K, V>)
    requires |m.buckets| > 0
    ensures r.hash == m.hash && r.maxLoad == m.maxLoad && |r.buckets| == |m.buckets|
    ensures !ContainsKey(m, k) ==> r == m
    ensures Valid(m) ==> Valid(r) && !ContainsKey(r, k) && Get(r, k) == None
    ensures Valid(m) ==> Size(r) == if ContainsKey(m, k) then Size(m) - 1 else Size(m)
    ensures Valid(m) ==> forall k2 :: k2 != k ==> Get(r, k2) == Get(m, k2) && ContainsKey(r, k2) == ContainsKey(m, k2)
  {
    var i := IndexOf(m, k);
    var b := m.buckets[i];
    match Find(b, k)
    case Some(j) =>
      UnlinkKeeps(m, k, j);
      MyHashMap(m.hash, m.buckets[i := b[..j] + b[j + 1..]], m.count - 1, m.maxLoad)
    case None => m
  }

  /**
   * `remove(key)`: removes only when `get(key)` is non-null and returns what
   * `get` returned; an absent key, or one mapped to null, changes nothing.
   */
  function Remove<K(==,!new), V>(m: MyHashMap<K, V>, k: K): (r: (MyHashMap<K, V>, Option<V>))
    requires |m.buckets| > 0
    ensures r.1 == Get(m, k)
    ensures r.1.None? ==> r.0 == m
    ensures |r.0.buckets| == |m.buckets|
    ensures Valid(m) ==> Valid(r.0)
    ensures Valid(m) && r.1.Some? ==> Size(r.0) == Size(m) - 1 && !ContainsKey(r.0, k)
    ensures Valid(m) ==> forall k2 :: k2 != k ==> Get(r.0, k2) == Get(m, k2) && ContainsKey(r.0, k2) == ContainsKey(m, k2)
  {
    var val := Get(m, k);
    if val.Some? then (Delete(m, k), val) else (m, val)
  }

  /**
   * `remove(key, value)`: removes only when the current value equals `value`
   * and returns the current value; a mismatch or an absent key changes nothing.
   */
  function RemoveIfMapped<K(==,!new), V(==)>(m: MyHashMap<K, V>, k: K, v: Option<V>): (r: (MyHashMap<K, V>, Option<V>))
    requires |m.buckets| > 0
    ensures r.1 == Get(m, k)
    ensures Get(m, k) != v || !ContainsKey(m, k) ==> r.0 == m
    ensures |r.0.buckets| == |m.buckets|
    ensures Valid(m) ==> Valid(r.0)
    ensures Valid(m) && Get(m, k) == v && ContainsKey(m, k) ==> Size(r.0) == Size(m) - 1 && !ContainsKey(r.0, k)
    ensures Valid(m) ==> forall k2 :: k2 != k ==> Get(r.0, k2) == Get(m, k2) && ContainsKey(r.0, k2) == ContainsKey(m, k2)
  {
    var val := Get(m, k);
    if val == v then (Delete(m, k), val) else (m, val)
  }

  // ---------------------------------------------------------------------------
  // Lookups in terms of the stored entries

  /**
   * Under the invariant, `containsKey` and `get` agree with the whole table: the
   * key is found iff some entry anywhere carries it, and `get` returns that
   * entry's value.
   */
  lemma LookupChar<K, V>(m: MyHashMap<K, V>, k: K)
    requires Valid(m)
    ensures ContainsKey(m, k) <==> k in KeysOf(m)
    ensures forall e :: e in Flatten(m.buckets) && e.key == k ==> Get(m, k) == e.value
    ensures k !in KeysOf(m) ==> Get(m, k) == None
  {
    var t := m.buckets;
    var i := IndexOf(m, k);
    forall e | e in Flatten(t) && e.key == k ensures e in t[i] && Get(m, k) == e.value {
      FlattenMember(t, e);
      FindPresent(t[i], e);
    }
    KeysMember(Flatten(t), k);
    if ContainsKey(m, k) {
      var j := Find(t[i], k).value;
      assert t[i][j] in t[i];
      FlattenMember(t, t[i][j]);
    }
  }

  /** Two valid maps with the same entries answer every lookup alike. */
  lemma SameEntriesSameLookups<K, V>(m1: MyHashMap<K, V>, m2: MyHashMap<K, V>, k: K)
    requires Valid(m1) && Valid(m2) && Entries(m1) == Entries(m2)
    ensures Get(m1, k) == Get(m2, k)
    ensures ContainsKey(m1, k) == ContainsKey(m2, k)
  {
    LookupChar(m1, k);
    LookupChar(m2, k);
    assert forall e :: e in Flatten(m1.buckets) <==> e in Flatten(m2.buckets) by {
      forall e ensures e in Flatten(m1.buckets) <==> e in Flatten(m2.buckets) {
        assert e in Entries(m1) <==> e in Entries(m2);
      }
    }
    KeysMember(Flatten(m1.buckets), k);
    KeysMember(Flatten(m2.buckets), k);
  }

  /**
   * In two buckets without duplicate keys that hold the same entries with key
   * `k`, the scan for `k` gives the same answer.
   */
  lemma BucketsAgreeOn<K, V>(b1: Bucket<K, V>, b2: Bucket<K, V>, k: K)
    requires DistinctKeys(b1) && DistinctKeys(b2)
    requires forall e: Entry<K, V> :: e.key == k ==> (e in b1 <==> e in b2)
    ensures BucketGet(b1, k) == BucketGet(b2, k)
    ensures Find(b1, k).Some? == Find(b2, k).Some?
  {
    KeysMember(b1, k);
    KeysMember(b2, k);
    if k in Keys(b1) {
      var e :| e in b1 && e.key == k;
      FindPresent(b1, e);
      FindPresent(b2, e);
    }
  }

  /**
   * Replacing the bucket of `k` by one that agrees with it on every other key
   * leaves every other key's lookup unchanged.
   */
  lemma OtherKeysUnchanged<K, V>(m: MyHashMap<K, V>, r: MyHashMap<K, V>, k: K, b: Bucket<K, V>, k2: K)
    requires Valid(m) && k2 != k
    requires r.hash == m.hash && r.buckets == m.buckets[IndexOf(m, k) := b]
    requires DistinctKeys(b)
    requires forall e: Entry<K, V> :: e.key != k ==> (e in b <==> e in m.buckets[IndexOf(m, k)])
    ensures Get(r, k2) == Get(m, k2) && ContainsKey(r, k2) == ContainsKey(m, k2)
  {
    var i := IndexOf(m, k);
    if IndexOf(m, k2) == i {
      BucketsAgreeOn(m.buckets[i], b, k2);
    }
  }

  // ---------------------------------------------------------------------------
  // put

  /** Appending a new key's entry to its bucket keeps the invariant and adds exactly that entry. */
  lemma AppendValid<K, V>(m: MyHashMap<K, V>, k: K, v: Option<V>)
    requires Valid(m) && !ContainsKey(m, k)
    ensures var i := IndexOf(m, k);
            var a := Append(m, k, v);
            a.buckets == m.buckets[i := m.buckets[i] + [Entry(k, v)]] && Valid(a) && Entries(a) == Entries(m) + multiset{Entry(k, v)}
  {
    var i := IndexOf(m, k);
    var t := m.buckets;
    var e := Entry(k, v);
    var b := t[i] + [e];
    FlattenAppend(t, i, e);
    KeysSingleton(e);
    DistinctAppend(t[i], [e]);
    forall f | f in b ensures FloorMod(m.hash(f.key), |t|) == i {
      if f != e { assert f in t[i]; }
    }
    ReplaceBucket(m.hash, t, i, b);
  }

  /** Overwriting the value of the entry found for `k` keeps the invariant and answers `v` for `k` only. */
  lemma OverwriteKeeps<K, V>(m: MyHashMap<K, V>, k: K, v: Option<V>, j: nat)
    requires |m.buckets| > 0 && Find(m.buckets[IndexOf(m, k)], k) == Some(j)
    ensures var i := IndexOf(m, k);
            var r := MyHashMap(m.hash, m.buckets[i := Overwrite(m.buckets[i], j, v)], m.count, m.maxLoad);
            Valid(m) ==>
              && Valid(r) && Get(r, k) == v && ContainsKey(r, k)
              && forall k2 :: k2 != k ==> Get(r, k2) == Get(m, k2) && ContainsKey(r, k2) == ContainsKey(m, k2)
  {
    if Valid(m) {
      var t := m.buckets;
      var i := IndexOf(m, k);
      var b := t[i];
      var b' := Overwrite(b, j, v);
      var r := MyHashMap(m.hash, t[i := b'], m.count, m.maxLoad);
      forall f | f in b' ensures FloorMod(m.hash(f.key), |t|) == i {
        var p :| 0 <= p < |b'| && b'[p] == f;
        assert b[p] in t[i];
      }
      assert DistinctKeys(b') by {
        forall p, q | 0 <= p < q < |b'| ensures b'[p].key != b'[q].key {
          assert b'[p].key == b[p].key && b'[q].key == b[q].key;
        }
      }
      ReplaceBucket(m.hash, t, i, b');
      assert b'[j] in b';
      FindPresent(b', b'[j]);
      forall e: Entry<K, V> | e.key != k ensures e in b' <==> e in b {
        if e in b' { var p :| 0 <= p < |b'| && b'[p] == e; assert b[p] == e; }
        if e in b { var p :| 0 <= p < |b| && b[p] == e; assert b'[p] == e; }
      }
      forall k2 | k2 != k ensures Get(r, k2) == Get(m, k2) && ContainsKey(r, k2) == ContainsKey(m, k2) {
        OtherKeysUnchanged(m, r, k, b', k2);
      }
    }
  }

  /** Appending an absent key's entry, then resizing, keeps the invariant and answers `v` for `k` only. */
  lemma AppendKeeps<K(!new), V>(m: MyHashMap<K, V>, k: K, v: Option<V>)
    requires |m.buckets| > 0
    ensures var r := Resize(Append(m, k, v));
            Valid(m) && !ContainsKey(m, k) ==>
              && Valid(r) && r.count == m.count + 1 && Get(r, k) == v && ContainsKey(r, k)
              && forall k2 :: k2 != k ==> Get(r, k2) == Get(m, k2) && ContainsKey(r, k2) == ContainsKey(m, k2)
  {
    if Valid(m) && !ContainsKey(m, k) {
      var b := m.buckets[IndexOf(m, k)];
      var e := Entry(k, v);
      var a := Append(m, k, v);
      AppendValid(m, k, v);
      assert e in b + [e];
      FindPresent(b + [e], e);
      forall k2 | k2 != k ensures Get(a, k2) == Get(m, k2) && ContainsKey(a, k2) == ContainsKey(m, k2) {
        OtherKeysUnchanged(m, a, k, b + [e], k2);
      }
    }
  }

  /** `put` on a key already present replaces that entry's value and nothing else. */
  lemma PutExisting<K(!new), V>(m: MyHashMap<K, V>, k: K, v: Option<V>)
    requires Valid(m) && ContainsKey(m, k)
    ensures var r := Put(m, k, v);
            var i := IndexOf(m, k);
            && r.count == m.count && |r.buckets| == |m.buckets|
            && (forall x :: 0 <= x < |m.buckets| && x != i ==> r.buckets[x] == m.buckets[x])
            && |r.buckets[i]| == |m.buckets[i]|
            && (forall p :: 0 <= p < |m.buckets[i]| ==> r.buckets[i][p].key == m.buckets[i][p].key)
            && (forall p :: 0 <= p < |m.buckets[i]| ==>
                  r.buckets[i][p].value == if m.buckets[i][p].key == k then v else m.buckets[i][p].value)
  {
    var t := m.buckets;
    var i := IndexOf(m, k);
    var b := t[i];
    var j := Find(b, k).value;
    assert Put(m, k, v).buckets == t[i := Overwrite(b, j, v)];
    forall p | 0 <= p < |b| && p != j ensures b[p].key != k {
      if p < j { assert b[p].key != b[j].key; } else { assert b[j].key != b[p].key; }
    }
  }

  /** `put` on a new key adds exactly one entry; without a resize it is appended to its bucket. */
  lemma PutNew<K(!new), V>(m: MyHashMap<K, V>, k: K, v: Option<V>)
    requires Valid(m) && !ContainsKey(m, k)
    ensures var r := Put(m, k, v);
            && Entries(r) == Entries(m) + multiset{Entry(k, v)}
            && (|r.buckets| == |m.buckets| ==>
                  r.buckets == m.buckets[IndexOf(m, k) := m.buckets[IndexOf(m, k)] + [Entry(k, v)]])
  {
    AppendValid(m, k, v);
  }

  // ---------------------------------------------------------------------------
  // resize

  /** Re-hashing a valid map into any positive number of buckets keeps the invariant and every lookup. */
  lemma RehashKeeps<K, V>(m: MyHashMap<K, V>, n: nat)
    requires n > 0
    ensures var r := MyHashMap(m.hash, Rehash(m.hash, m.buckets, n), m.count, m.maxLoad);
            Valid(m) ==> Valid(r) && forall k :: Get(r, k) == Get(m, k) && ContainsKey(r, k) == ContainsKey(m, k)
  {
    if Valid(m) {
      var r := MyHashMap(m.hash, Rehash(m.hash, m.buckets, n), m.count, m.maxLoad);
      RehashWellPlaced(m.hash, m.buckets, n);
      assert |Flatten(r.buckets)| == |Entries(r)| == |Entries(m)| == |Flatten(m.buckets)|;
      forall k ensures Get(r, k) == Get(m, k) && ContainsKey(r, k) == ContainsKey(m, k) {
        SameEntriesSameLookups(r, m, k);
      }
    }
  }

  /**
   * With the default load factor a 16-bucket table grows when its 16th key
   * arrives, not at 75% occupancy: 13 keys still fit in 16 buckets.
   */
  lemma DefaultTableGrowsAtSixteenth<K(!new), V>(m: MyHashMap<K, V>, k: K, v: Option<V>)
    requires Valid(m) && |m.buckets| == DefaultSize && m.maxLoad == DefaultMaxLoad
    requires !ContainsKey(m, k)
    ensures |Put(m, k, v).buckets| == if m.count + 1 >= 16 then 32 else 16
    ensures m.count == 12 ==> |Put(m, k, v).buckets| == 16
    ensures m.count == 15 ==> |Put(m, k, v).buckets| == 32
  {
    var i := IndexOf(m, k);
    var a := Append(m, k, v);
    assert Overloaded(a) <==> a.count >= |a.buckets|;
  }

  /** The integer load after a put is again within a non-negative load factor. */
  ghost predicate LoadWithin<K, V>(m: MyHashMap<K, V>)
  {
    |m.buckets| > 0 && JavaDiv(m.count, |m.buckets|) as real <= m.maxLoad
  }

  /** A dividend below `(q + 1) * d` has a quotient of at most `q`. */
  lemma DivBelow(x: int, d: int, q: int)
    requires x >= 0 && d > 0 && x < (q + 1) * d
    ensures x / d <= q
  {
    var y := x / d;
    assert y * d <= x;
    assert (q + 1 - y) * d == (q + 1) * d - y * d;
    ProductSign(q + 1 - y, d);
  }

  /** With a positive factor `d`, the product `a * d` is positive exactly when `a` is. */
  lemma ProductSign(a: int, d: int)
    requires d > 0
    ensures a > 0 <==> a * d > 0
  {
    if a > 0 {
      assert a * d >= d;
    } else {
      assert a * d <= 0;
    }
  }

  lemma DoublingHalvesLoad(c: int, n: int)
    requires c >= 0 && n > 0
    ensures (c + 1) / (2 * n) <= c / n
  {
    var q := c / n;
    assert c == q * n + c % n;
    assert c + 1 <= (q + 1) * n;
    assert (q + 1) * n < (q + 1) * (2 * n);
    DivBelow(c + 1, 2 * n, q);
  }

  /** One more entry in a doubled table keeps an integer load that was within `maxLoad` within it. */
  lemma DoubledLoadWithin(c: int, n: int, maxLoad: real)
    requires n > 0
    ensures c >= 0 && JavaDiv(c, n) as real <= maxLoad ==> JavaDiv(c + 1, 2 * n) as real <= maxLoad
  {
    if c >= 0 {
      DoublingHalvesLoad(c, n);
    }
  }

  // ---------------------------------------------------------------------------
  // remove

  /** Unlinking the entry found for `k` keeps the invariant, drops `k` only and decrements the count. */
  lemma UnlinkKeeps<K, V>(m: MyHashMap<K, V>, k: K, j: nat)
    requires |m.buckets| > 0 && Find(m.buckets[IndexOf(m, k)], k) == Some(j)
    ensures var i := IndexOf(m, k);
            var b := m.buckets[i];
            var r := MyHashMap(m.hash, m.buckets[i := b[..j] + b[j + 1..]], m.count - 1, m.maxLoad);
            Valid(m) ==>
              && Valid(r) && !ContainsKey(r, k) && Get(r, k) == None
              && forall k2 :: k2 != k ==> Get(r, k2) == Get(m, k2) && ContainsKey(r, k2) == ContainsKey(m, k2)
  {
    if Valid(m) {
      var t := m.buckets;
      var i := IndexOf(m, k);
      var b := t[i];
      var b' := b[..j] + b[j + 1..];
      var r := MyHashMap(m.hash, t[i := b'], m.count - 1, m.maxLoad);
      RemoveAt(b, j);
      forall f | f in b' ensures FloorMod(m.hash(f.key), |t|) == i {
        assert f in b;
      }
      ReplaceBucket(m.hash, t, i, b');
      forall k2 | k2 != k ensures Get(r, k2) == Get(m, k2) && ContainsKey(r, k2) == ContainsKey(m, k2) {
        OtherKeysUnchanged(m, r, k, b', k2);
      }
    }
  }
}
