/**
 * The separate-chaining hash table of mht.c.
 *
 * A table is a sequence of buckets; each bucket lists its chain from the head,
 * so `buckets[i][0]` is the entry `table[i]` points at.  The capacity is the
 * number of buckets.  The hash function is a parameter of every operation
 * (the C table stores it in the header and never changes it), keys are
 * compared with `==`, and the optional free function is reduced to a flag:
 * every operation returns, in call order, the pairs it handed to `free_fn`.
 * The meaning of a table is the map `Contents`.
 */
module HashTable {
  import opened Common

  /** The growth threshold 0.66, taken as the rational 66/100. */
  const LoadNum: nat := 66
  const LoadDen: nat := 100

  type Bucket<K, V> = seq<(K, V)>

  datatype Table<K, V> = Table(buckets: seq<Bucket<K, V>>, size: nat, hasFree: bool)

  /** The result of `mht_set` and `mht_rehash`: 0 (`ok`) or -1, the table afterwards, and the pairs passed to `free_fn`. */
  datatype Outcome<K, V> = Outcome(ok: bool, table: Table<K, V>, freed: seq<(K, V)>)

  /** The result of `mht_delete`, which returns nothing. */
  datatype Removal<K, V> = Removal(table: Table<K, V>, freed: seq<(K, V)>)

  /**
   * Which allocations of a rehash succeed: the new header and bucket array
   * (`tableOk`), and how many entry nodes can be allocated while copying
   * (`entryLimit`, unbounded when None).
   */
  datatype GrowAlloc = GrowAlloc(tableOk: bool, entryLimit: Option<nat>)

  predicate AllocCovers(alloc: GrowAlloc, entries: nat)
  {
    alloc.tableOk && (alloc.entryLimit.None? || entries <= alloc.entryLimit.value)
  }

  /** `hash(k) % capacity`. */
  function Index(h: nat, capacity: nat): (i: nat)
    requires capacity > 0
    ensures i < capacity
  {
    h % capacity
  }

  /** All entries, bucket by bucket, each chain from its head. */
  function Flatten<K, V>(bs: seq<Bucket<K, V>>): seq<(K, V)>
  {
    if |bs| == 0 then [] else Flatten(bs[..|bs| - 1]) + bs[|bs| - 1]
  }

  /** The map a list of pairs denotes (for lists with distinct keys, order is irrelevant). */
  function ToMap<K(==), V>(s: seq<(K, V)>): map<K, V>
  {
    if |s| == 0 then map[] else ToMap(s[..|s| - 1])[s[|s| - 1].0 := s[|s| - 1].1]
  }

  /** The abstract value of a table. */
  function Contents<K(==), V>(t: Table<K, V>): map<K, V>
  {
    ToMap(Flatten(t.buckets))
  }

  ghost predicate MapsTo<K, V>(m: map<K, V>, k: K, v: V)
  {
    k in m && m[k] == v
  }

  ghost predicate UniqueKeys<K, V>(s: seq<(K, V)>)
  {
    forall a, b :: 0 <= a < |s| && 0 <= b < |s| && s[a].0 == s[b].0 ==> a == b
  }

  /** Some bucket holds the entry `e`. */
  ghost predicate Stored<K, V>(bs: seq<Bucket<K, V>>, e: (K, V))
  {
    exists i, j :: 0 <= i < |bs| && 0 <= j < |bs[i]| && bs[i][j] == e
  }

  /** Every entry of chain `b` hashes to `i` modulo `capacity`. */
  ghost predicate ChainPlaced<K, V>(b: Bucket<K, V>, hash: K -> nat, capacity: nat, i: nat)
    requires capacity > 0
  {
    forall j :: 0 <= j < |b| ==> Index(hash(b[j].0), capacity) == i
  }

  /** Chain `b` holds no key twice. */
  ghost predicate ChainDistinct<K, V>(b: Bucket<K, V>)
  {
    forall j1, j2 :: 0 <= j1 < |b| && 0 <= j2 < |b| && b[j1].0 == b[j2].0 ==> j1 == j2
  }

  /** Every entry of bucket `i` hashes to `i` modulo `capacity`. */
  ghost predicate PlacedIn<K, V>(bs: seq<Bucket<K, V>>, hash: K -> nat, capacity: nat)
    requires capacity > 0
  {
    forall i :: 0 <= i < |bs| ==> ChainPlaced(bs[i], hash, capacity, i)
  }

  /** No chain holds the same key twice. */
  ghost predicate DistinctChains<K, V>(bs: seq<Bucket<K, V>>)
  {
    forall i :: 0 <= i < |bs| ==> ChainDistinct(bs[i])
  }

  /**
   * The load bound every `mht_set` keeps: the table holds at most one entry
   * beyond the growth threshold.
   */
  predicate Balanced(size: nat, capacity: nat)
  {
    size == 0 || (size - 1) * LoadDen < LoadNum * capacity
  }

  /** `size >= capacity * 0.66`, the condition on entry to `mht_set` that triggers growth. */
  predicate NeedsGrowth<K, V>(t: Table<K, V>)
  {
    t.size * LoadDen >= LoadNum * |t.buckets|
  }

  /**
   * The table invariant: capacity > 0, every entry in bucket
   * `hash(k) % capacity`, each key at most once, `size` counts the entries,
   * and the load bound.
   */
  ghost predicate Valid<K, V>(t: Table<K, V>, hash: K -> nat)
  {
    && |t.buckets| > 0
    && PlacedIn(t.buckets, hash, |t.buckets|)
    && DistinctChains(t.buckets)
    && t.size == |Flatten(t.buckets)|
    && Balanced(t.size, |t.buckets|)
  }

  // ---------------------------------------------------------------------------
  // Facts about the abstraction

  lemma MapExtensionality<K, V>(m1: map<K, V>, m2: map<K, V>)
    requires forall k, v :: MapsTo(m1, k, v) <==> MapsTo(m2, k, v)
    ensures m1 == m2
  {
    forall k | k in m1
      ensures k in m2 && m2[k] == m1[k]
    {
      assert MapsTo(m1, k, m1[k]);
    }
    forall k | k in m2
      ensures k in m1
    {
      assert MapsTo(m2, k, m2[k]);
    }
  }

  /** With distinct keys, the map of a list holds exactly the list's pairs. */
  lemma {:induction false} ToMapHolds<K, V>(s: seq<(K, V)>)
    requires UniqueKeys(s)
    ensures forall k, v :: MapsTo(ToMap(s), k, v) <==> (k, v) in s
    ensures |ToMap(s)| == |s|
  {
    if |s| > 0 {
      var init, last := s[..|s| - 1], s[|s| - 1];
      assert s == init + [last];
      assert UniqueKeys(init) by {
        forall a, b | 0 <= a < |init| && 0 <= b < |init| && init[a].0 == init[b].0
          ensures a == b
        {
          assert s[a] == init[a] && s[b] == init[b];
        }
      }
      ToMapHolds(init);
      var m := ToMap(init);
      assert last.0 !in m by {
        if last.0 in m {
          assert MapsTo(m, last.0, m[last.0]);
        }
      }
      forall k, v
        ensures MapsTo(ToMap(s), k, v) <==> (k, v) in s
      {
        if k != last.0 && (k, v) in s {
          var a :| 0 <= a < |s| && s[a] == (k, v);
          assert a < |init| && init[a] == (k, v);
        }
      }
    }
  }

  /** An entry is in the flattened table exactly when some bucket holds it. */
  lemma {:induction false} FlattenHolds<K, V>(bs: seq<Bucket<K, V>>)
    ensures forall e :: e in Flatten(bs) <==> Stored(bs, e)
  {
    if |bs| > 0 {
      var init := bs[..|bs| - 1];
      FlattenHolds(init);
      forall e
        ensures e in Flatten(bs) <==> Stored(bs, e)
      {
        if e in Flatten(init) {
          var i, j :| 0 <= i < |init| && 0 <= j < |init[i]| && init[i][j] == e;
          assert bs[i][j] == e;
        }
        if e in bs[|bs| - 1] {
          var j :| 0 <= j < |bs[|bs| - 1]| && bs[|bs| - 1][j] == e;
          assert Stored(bs, e);
        }
        if Stored(bs, e) {
          var i, j :| 0 <= i < |bs| && 0 <= j < |bs[i]| && bs[i][j] == e;
          if i < |bs| - 1 {
            assert init[i][j] == e;
            assert Stored(init, e);
          } else {
            assert e in bs[|bs| - 1];
          }
        }
      }
    }
  }

  /** Placement plus distinct chains give distinct keys across the whole table. */
  lemma {:induction false} FlattenUnique<K, V>(bs: seq<Bucket<K, V>>, hash: K -> nat, capacity: nat)
    requires capacity > 0
    requires PlacedIn(bs, hash, capacity) && DistinctChains(bs)
    ensures UniqueKeys(Flatten(bs))
  {
    if |bs| > 0 {
      var init: seq<Bucket<K, V>> := bs[..|bs| - 1];
      var last := bs[|bs| - 1];
      assert PlacedIn(init, hash, capacity) by {
        forall i | 0 <= i < |init|
          ensures ChainPlaced(init[i], hash, capacity, i)
        {
          assert init[i] == bs[i];
        }
      }
      assert DistinctChains(init) by {
        forall i | 0 <= i < |init|
          ensures ChainDistinct(init[i])
        {
          assert init[i] == bs[i];
        }
      }
      FlattenUnique(init, hash, capacity);
      FlattenHolds(init);
      var f0 := Flatten(init);
      var f := Flatten(bs);
      assert f == f0 + last;
      assert ChainPlaced(last, hash, capacity, |bs| - 1);
      assert ChainDistinct(last);
      forall a, b | 0 <= a < |f0| && 0 <= b < |last|
        ensures f0[a].0 != last[b].0
      {
        assert f0[a] in Flatten(init);
        assert Stored(init, f0[a]);
        OtherBucket(init, hash, capacity, f0[a], last[b], |bs| - 1);
      }
      UniqueConcat(f0, last);
    }
  }

  /** Two lists with distinct keys and no key in common concatenate to a list with distinct keys. */
  lemma UniqueConcat<K, V>(x: seq<(K, V)>, y: seq<(K, V)>)
    requires UniqueKeys(x) && ChainDistinct(y)
    requires forall a, b :: 0 <= a < |x| && 0 <= b < |y| ==> x[a].0 != y[b].0
    ensures UniqueKeys(x + y)
  {
    var f := x + y;
    forall a, b | 0 <= a < |f| && 0 <= b < |f| && f[a].0 == f[b].0 && a < |x| && b < |x|
      ensures a == b
    {
      assert f[a] == x[a] && f[b] == x[b];
    }
    forall a, b | 0 <= a < |f| && 0 <= b < |f| && f[a].0 == f[b].0 && a >= |x| && b >= |x|
      ensures a == b
    {
      assert f[a] == y[a - |x|] && f[b] == y[b - |x|];
    }
  }

  /** An entry of the first `n` buckets and an entry placed in bucket `n` have different keys. */
  lemma OtherBucket<K, V>(init: seq<Bucket<K, V>>, hash: K -> nat, capacity: nat, e: (K, V), e': (K, V), n: nat)
    requires capacity > 0 && n == |init|
    requires PlacedIn(init, hash, capacity) && Stored(init, e)
    requires Index(hash(e'.0), capacity) == n
    ensures e.0 != e'.0
  {
    var i, j :| 0 <= i < |init| && 0 <= j < |init[i]| && init[i][j] == e;
    assert ChainPlaced(init[i], hash, capacity, i);
  }

  /** In a valid table a key's pair, if any, sits in the key's own bucket. */
  lemma ContentsByBucket<K, V>(t: Table<K, V>, hash: K -> nat)
    requires Valid(t, hash)
    ensures forall k, v :: MapsTo(Contents(t), k, v) <==> (k, v) in t.buckets[Index(hash(k), |t.buckets|)]
    ensures |Contents(t)| == t.size
  {
    var bs := t.buckets;
    FlattenUnique(bs, hash, |bs|);
    FlattenHolds(bs);
    ToMapHolds(Flatten(bs));
    forall k, v
      ensures (k, v) in Flatten(bs) <==> (k, v) in bs[Index(hash(k), |bs|)]
    {
      if (k, v) in Flatten(bs) {
        var i, j :| 0 <= i < |bs| && 0 <= j < |bs[i]| && bs[i][j] == (k, v);
        assert ChainPlaced(bs[i], hash, |bs|, i);
      }
      if (k, v) in bs[Index(hash(k), |bs|)] {
        var j :| 0 <= j < |bs[Index(hash(k), |bs|)]| && bs[Index(hash(k), |bs|)][j] == (k, v);
        assert Stored(bs, (k, v));
      }
    }
  }

  /** Replacing one bucket changes the entry count by the difference of the two chains. */
  lemma {:induction false} FlattenLength<K, V>(bs: seq<Bucket<K, V>>, i: nat, b: Bucket<K, V>)
    requires i < |bs|
    ensures |Flatten(bs[i := b])| == |Flatten(bs)| - |bs[i]| + |b|
  {
    var n := |bs| - 1;
    if i == n {
      assert bs[i := b][..n] == bs[..n];
    } else {
      assert bs[i := b][..n] == bs[..n][i := b];
      FlattenLength(bs[..n], i, b);
    }
  }

  /**
   * Replacing bucket `i` by a placed, duplicate-free chain `b`: the table stays
   * valid and its pairs are those of `b` for keys of bucket `i`, and the old
   * ones for every other key.
   */
  lemma UpdateBucket<K, V>(t: Table<K, V>, hash: K -> nat, i: nat, b: Bucket<K, V>, size: nat, m: map<K, V>)
    requires Valid(t, hash) && i < |t.buckets|
    requires ChainPlaced(b, hash, |t.buckets|, i) && ChainDistinct(b)
    requires size == t.size - |t.buckets[i]| + |b|
    requires Balanced(size, |t.buckets|)
    requires forall k, v :: Index(hash(k), |t.buckets|) == i ==> ((k, v) in b <==> MapsTo(m, k, v))
    requires forall k, v :: Index(hash(k), |t.buckets|) != i ==> (MapsTo(Contents(t), k, v) <==> MapsTo(m, k, v))
    ensures Valid(Table(t.buckets[i := b], size, t.hasFree), hash)
    ensures Contents(Table(t.buckets[i := b], size, t.hasFree)) == m
  {
    var t' := Table(t.buckets[i := b], size, t.hasFree);
    FlattenLength(t.buckets, i, b);
    assert PlacedIn(t'.buckets, hash, |t.buckets|) by {
      forall i' | 0 <= i' < |t'.buckets|
        ensures ChainPlaced(t'.buckets[i'], hash, |t.buckets|, i')
      {
        if i' != i {
          assert t'.buckets[i'] == t.buckets[i'];
        }
      }
    }
    assert DistinctChains(t'.buckets) by {
      forall i' | 0 <= i' < |t'.buckets|
        ensures ChainDistinct(t'.buckets[i'])
      {
        if i' != i {
          assert t'.buckets[i'] == t.buckets[i'];
        }
      }
    }
    ContentsByBucket(t, hash);
    ContentsByBucket(t', hash);
    forall k, v
      ensures MapsTo(Contents(t'), k, v) <==> MapsTo(m, k, v)
    {
      if Index(hash(k), |t.buckets|) != i {
        assert t'.buckets[Index(hash(k), |t.buckets|)] == t.buckets[Index(hash(k), |t.buckets|)];
      }
    }
    MapExtensionality(Contents(t'), m);
  }

  // ---------------------------------------------------------------------------
  // Chains

  /** Pairs of a duplicate-free chain without its node at `j`. */
  lemma ChainWithout<K, V>(b: Bucket<K, V>, j: nat)
    requires j < |b| && ChainDistinct(b)
    ensures ChainDistinct(b[..j] + b[j + 1..])
    ensures forall e :: e in b[..j] + b[j + 1..] <==> e in b && e.0 != b[j].0
    ensures forall hash: K -> nat, capacity: nat, i: nat {:trigger ChainPlaced(b, hash, capacity, i)} ::
      capacity > 0 && ChainPlaced(b, hash, capacity, i) ==> ChainPlaced(b[..j] + b[j + 1..], hash, capacity, i)
  {
    var c := b[..j] + b[j + 1..];
    forall a | 0 <= a < |c|
      ensures c[a] == b[if a < j then a else a + 1]
    {
    }
    forall e
      ensures e in c <==> e in b && e.0 != b[j].0
    {
      if e in c {
        var a :| 0 <= a < |c| && c[a] == e;
        assert b[if a < j then a else a + 1] == e;
      }
      if e in b && e.0 != b[j].0 {
        var a :| 0 <= a < |b| && b[a] == e;
        assert c[if a < j then a else a - 1] == e;
      }
    }
  }

  /** Pairs of a duplicate-free chain after its node at `j` takes a pair with the same key. */
  lemma ChainReplace<K, V>(b: Bucket<K, V>, j: nat, v: V)
    requires j < |b| && ChainDistinct(b)
    ensures ChainDistinct(b[j := (b[j].0, v)])
    ensures forall e :: e in b[j := (b[j].0, v)] <==> e == (b[j].0, v) || (e in b && e.0 != b[j].0)
    ensures forall hash: K -> nat, capacity: nat, i: nat {:trigger ChainPlaced(b, hash, capacity, i)} ::
      capacity > 0 && ChainPlaced(b, hash, capacity, i) ==> ChainPlaced(b[j := (b[j].0, v)], hash, capacity, i)
  {
    var c := b[j := (b[j].0, v)];
    forall e
      ensures e in c <==> e == (b[j].0, v) || (e in b && e.0 != b[j].0)
    {
      if e in c && e != (b[j].0, v) {
        var a :| 0 <= a < |c| && c[a] == e;
        assert a != j && c[a] == b[a];
        assert b[a].0 != b[j].0;
      }
      if e == (b[j].0, v) {
        assert c[j] == e;
      }
      if e in b && e.0 != b[j].0 {
        var a :| 0 <= a < |b| && b[a] == e;
        assert c[a] == e;
      }
    }
  }

  // ---------------------------------------------------------------------------
  // Operations

  /** The zeroed bucket array `calloc` returns. */
  function EmptyBuckets<K, V>(capacity: nat): (bs: seq<Bucket<K, V>>)
    ensures |bs| == capacity && forall i :: 0 <= i < capacity ==> bs[i] == []
  {
    seq(capacity, _ => [])
  }

  /** `mht_new`: an empty table, or None (NULL) when either allocation fails. */
  function New<K, V>(initialCapacity: nat, hasFree: bool, headerOk: bool, bucketsOk: bool): (r: Option<Table<K, V>>)
    ensures r.Some? <==> headerOk && bucketsOk
    ensures r.Some? ==> |r.value.buckets| == initialCapacity && r.value.size == 0 && r.value.hasFree == hasFree
    ensures r.Some? ==> forall i :: 0 <= i < |r.value.buckets| ==> r.value.buckets[i] == []
  {
    if !headerOk || !bucketsOk then None
    else Some(Table(EmptyBuckets(initialCapacity), 0, hasFree))
  }

  /** A fresh table with a non-zero capacity is valid under any hash function and empty. */
  lemma NewIsEmpty<K, V>(initialCapacity: nat, hasFree: bool, hash: K -> nat)
    requires initialCapacity > 0
    ensures var t := New<K, V>(initialCapacity, hasFree, true, true).value;
      Valid(t, hash) && Contents(t) == map[] && Flatten(t.buckets) == []
  {
    var t := New<K, V>(initialCapacity, hasFree, true, true).value;
    var bs := t.buckets;
    FlattenEmpty(bs);
  }

  lemma {:induction false} FlattenEmpty<K, V>(bs: seq<Bucket<K, V>>)
    requires forall i :: 0 <= i < |bs| ==> bs[i] == []
    ensures Flatten(bs) == []
  {
    if |bs| > 0 {
      FlattenEmpty(bs[..|bs| - 1]);
    }
  }

  /** `mht_search_bucket`: the position of the first entry of a chain whose key equals `k`. */
  function Search<K(==), V>(b: Bucket<K, V>, k: K): (r: Option<nat>)
    ensures r.Some? ==> r.value < |b| && b[r.value].0 == k
    ensures r.Some? ==> forall j :: 0 <= j < r.value ==> b[j].0 != k
    ensures r.None? <==> forall j :: 0 <= j < |b| ==> b[j].0 != k
  {
    if |b| == 0 then None
    else if b[0].0 == k then Some(0)
    else
      match Search(b[1..], k)
      case None => None
      case Some(j) => Some(j + 1)
  }

  /** `mht_search_bucket` on the key's own bucket, `hash(k) % capacity`, as every operation calls it. */
  function Locate<K(==), V>(t: Table<K, V>, hash: K -> nat, k: K): (r: Option<nat>)
    requires Valid(t, hash)
    ensures r.Some? <==> k in Contents(t)
    ensures r.Some? ==> r.value < |t.buckets[Index(hash(k), |t.buckets|)]|
    ensures r.Some? ==> t.buckets[Index(hash(k), |t.buckets|)][r.value] == (k, Contents(t)[k])
  {
    var b := t.buckets[Index(hash(k), |t.buckets|)];
    ContentsByBucket(t, hash);
    var r := Search(b, k);
    if r.Some? then
      assert MapsTo(Contents(t), k, b[r.value].1) by {
        assert b[r.value] == (k, b[r.value].1);
      }
      r
    else
      assert k !in Contents(t) by {
        if k in Contents(t) {
          assert MapsTo(Contents(t), k, Contents(t)[k]);
        }
      }
      r
  }

  /** `mht_get`: 0 with the stored value (Some) or -1 (None); the table is not touched. */
  function Get<K(==), V>(t: Table<K, V>, hash: K -> nat, k: K): (r: Option<V>)
    requires Valid(t, hash)
    ensures r.Some? <==> k in Contents(t)
    ensures r.Some? ==> Contents(t)[k] == r.value
  {
    match Locate(t, hash, k)
    case None => None
    case Some(j) => Some(t.buckets[Index(hash(k), |t.buckets|)][j].1)
  }

  /** Inserting `e` at the head of bucket `i`. */
  function InsertHead<K, V>(bs: seq<Bucket<K, V>>, i: nat, e: (K, V)): (r: seq<Bucket<K, V>>)
    requires i < |bs|
    ensures |r| == |bs| && r[i] == [e] + bs[i]
    ensures forall i' :: 0 <= i' < |bs| && i' != i ==> r[i'] == bs[i']
  {
    bs[i := [e] + bs[i]]
  }

  /** A key absent from a placed, duplicate-free chain can head it when it hashes to the chain's bucket. */
  lemma ConsChain<K, V>(b: Bucket<K, V>, hash: K -> nat, capacity: nat, i: nat, k: K, v: V)
    requires capacity > 0 && Index(hash(k), capacity) == i
    requires ChainPlaced(b, hash, capacity, i) && ChainDistinct(b)
    requires forall j :: 0 <= j < |b| ==> b[j].0 != k
    ensures ChainPlaced([(k, v)] + b, hash, capacity, i) && ChainDistinct([(k, v)] + b)
  {
    var c := [(k, v)] + b;
    assert forall j :: 0 < j < |c| ==> c[j] == b[j - 1];
  }

  /** Linking a new node for an absent key at the head of its bucket (`mht_set`, new-entry path). */
  function Link<K(==), V>(t: Table<K, V>, hash: K -> nat, k: K, v: V): (r: Table<K, V>)
    requires Valid(t, hash) && k !in Contents(t)
    requires Balanced(t.size + 1, |t.buckets|)
    ensures Valid(r, hash) && Contents(r) == Contents(t)[k := v]
    ensures r.size == t.size + 1 && r.hasFree == t.hasFree
    ensures r.buckets == InsertHead(t.buckets, Index(hash(k), |t.buckets|), (k, v))
  {
    var i := Index(hash(k), |t.buckets|);
    var old_ := t.buckets[i];
    var b := [(k, v)] + old_;
    ContentsByBucket(t, hash);
    assert ChainPlaced(b, hash, |t.buckets|, i) && ChainDistinct(b) by {
      forall j | 0 <= j < |old_|
        ensures old_[j].0 != k
      {
        assert MapsTo(Contents(t), old_[j].0, old_[j].1) by {
          assert old_[j] in old_;
        }
      }
      ConsChain(old_, hash, |t.buckets|, i, k, v);
    }
    var m := Contents(t)[k := v];
    forall k', v' | Index(hash(k'), |t.buckets|) == i
      ensures (k', v') in b <==> MapsTo(m, k', v')
    {
      assert (k', v') in b <==> (k', v') == (k, v) || (k', v') in old_;
    }
    UpdateBucket(t, hash, i, b, t.size + 1, m);
    Table(t.buckets[i := b], t.size + 1, t.hasFree)
  }

  /** Giving the node of a present key a new value (`mht_set` with `overwrite`). */
  function Replace<K(==), V>(t: Table<K, V>, hash: K -> nat, k: K, v: V, j: nat): (r: Table<K, V>)
    requires Valid(t, hash) && Locate(t, hash, k) == Some(j)
    ensures Valid(r, hash) && Contents(r) == Contents(t)[k := v]
    ensures r.size == t.size && r.hasFree == t.hasFree && |r.buckets| == |t.buckets|
  {
    var i := Index(hash(k), |t.buckets|);
    var old_ := t.buckets[i];
    var b := old_[j := (k, v)];
    assert ChainPlaced(old_, hash, |t.buckets|, i);
    ChainReplace(old_, j, v);
    ContentsByBucket(t, hash);
    var m := Contents(t)[k := v];
    forall k', v' | Index(hash(k'), |t.buckets|) == i
      ensures (k', v') in b <==> MapsTo(m, k', v')
    {
      assert (k', v') in old_ <==> MapsTo(Contents(t), k', v');
    }
    UpdateBucket(t, hash, i, b, t.size, m);
    Table(t.buckets[i := b], t.size, t.hasFree)
  }

  /** Unlinking the node of a present key from its chain (`mht_delete`). */
  function Unlink<K(==), V>(t: Table<K, V>, hash: K -> nat, k: K, j: nat): (r: Table<K, V>)
    requires Valid(t, hash) && Locate(t, hash, k) == Some(j)
    ensures t.size > 0
    ensures Valid(r, hash) && Contents(r) == Contents(t) - {k}
    ensures r.size == t.size - 1 && r.hasFree == t.hasFree && |r.buckets| == |t.buckets|
    ensures forall i :: 0 <= i < |t.buckets| && i != Index(hash(k), |t.buckets|) ==> r.buckets[i] == t.buckets[i]
  {
    var i := Index(hash(k), |t.buckets|);
    var old_ := t.buckets[i];
    var b := old_[..j] + old_[j + 1..];
    assert ChainPlaced(old_, hash, |t.buckets|, i);
    ChainWithout(old_, j);
    ContentsByBucket(t, hash);
    var m := Contents(t) - {k};
    forall k', v' | Index(hash(k'), |t.buckets|) == i
      ensures (k', v') in b <==> MapsTo(m, k', v')
    {
      assert (k', v') in old_ <==> MapsTo(Contents(t), k', v');
    }
    UpdateBucket(t, hash, i, b, t.size - 1, m);
    Table(t.buckets[i := b], t.size - 1, t.hasFree)
  }

  /** Copying `es`, in order, into the heads of their buckets (the loop of `mht_rehash`). */
  function Fill<K(==), V>(bs: seq<Bucket<K, V>>, es: seq<(K, V)>, hash: K -> nat): (r: seq<Bucket<K, V>>)
    requires |bs| > 0
    ensures |r| == |bs|
    decreases |es|
  {
    if |es| == 0 then bs
    else Fill(InsertHead(bs, Index(hash(es[0].0), |bs|), es[0]), es[1..], hash)
  }

  /** Filling a valid table with pairs of new, distinct keys adds exactly those pairs. */
  lemma {:induction false} FillAdds<K, V>(t: Table<K, V>, es: seq<(K, V)>, hash: K -> nat)
    requires Valid(t, hash) && UniqueKeys(es)
    requires forall j :: 0 <= j < |es| ==> es[j].0 !in Contents(t)
    requires Balanced(t.size + |es|, |t.buckets|)
    ensures var t' := Table(Fill(t.buckets, es, hash), t.size + |es|, t.hasFree);
      Valid(t', hash) && (forall k, v :: MapsTo(Contents(t'), k, v) <==> MapsTo(Contents(t), k, v) || (k, v) in es)
    decreases |es|
  {
    if |es| > 0 {
      var e := es[0];
      var t1 := Link(t, hash, e.0, e.1);
      var rest := es[1..];
      assert UniqueKeys(rest) by {
        forall a, b | 0 <= a < |rest| && 0 <= b < |rest| && rest[a].0 == rest[b].0
          ensures a == b
        {
          assert es[a + 1] == rest[a] && es[b + 1] == rest[b];
        }
      }
      forall j | 0 <= j < |rest|
        ensures rest[j].0 !in Contents(t1)
      {
        assert es[j + 1] == rest[j];
      }
      FillAdds(t1, rest, hash);
      assert es == [e] + rest;
      forall k, v
        ensures MapsTo(Contents(t1), k, v) <==> MapsTo(Contents(t), k, v) || (k, v) == e
      {
      }
    }
  }

  /** Copying pairs with distinct keys into empty buckets stores exactly those pairs. */
  lemma FillOfEmpty<K, V>(capacity: nat, es: seq<(K, V)>, hash: K -> nat, hasFree: bool)
    requires capacity > 0 && UniqueKeys(es) && Balanced(|es|, capacity)
    ensures Valid(Table(Fill(EmptyBuckets(capacity), es, hash), |es|, hasFree), hash)
    ensures forall k, v :: MapsTo(Contents(Table(Fill(EmptyBuckets(capacity), es, hash), |es|, hasFree)), k, v) <==> (k, v) in es
  {
    var empty := New<K, V>(capacity, hasFree, true, true).value;
    NewIsEmpty<K, V>(capacity, hasFree, hash);
    FillAdds(empty, es, hash);
  }

  /** The entries such a copy holds, bucket by bucket, are exactly the copied pairs. */
  lemma FillOfEmptyEntries<K, V>(capacity: nat, es: seq<(K, V)>, hash: K -> nat)
    requires capacity > 0 && UniqueKeys(es) && Balanced(|es|, capacity)
    ensures forall e :: e in Flatten(Fill(EmptyBuckets(capacity), es, hash)) ==> e in es
    ensures |Flatten(Fill(EmptyBuckets(capacity), es, hash))| == |es|
  {
    var bs := Fill(EmptyBuckets(capacity), es, hash);
    FillOfEmpty(capacity, es, hash, false);
    FlattenUnique(bs, hash, capacity);
    ToMapHolds(Flatten(bs));
    forall e | e in Flatten(bs)
      ensures e in es
    {
      assert MapsTo(Contents(Table(bs, |es|, false)), e.0, e.1);
    }
  }

  /** The table `mht_rehash` builds: `Fill` over every old pair, in bucket order. */
  function Regrow<K(==), V>(t: Table<K, V>, hash: K -> nat, newCapacity: nat): (r: Table<K, V>)
    requires Valid(t, hash) && newCapacity > 0 && Balanced(t.size, newCapacity)
    ensures Valid(r, hash) && |r.buckets| == newCapacity
    ensures Contents(r) == Contents(t) && r.size == t.size && r.hasFree == t.hasFree
  {
    var es := Flatten(t.buckets);
    FlattenUnique(t.buckets, hash, |t.buckets|);
    ToMapHolds(es);
    FillOfEmpty(newCapacity, es, hash, t.hasFree);
    var r := Table(Fill(EmptyBuckets(newCapacity), es, hash), |es|, t.hasFree);
    MapExtensionality(Contents(r), Contents(t));
    r
  }

  /**
   * `mht_rehash` as evidently intended: on success the table holds the same
   * pairs in `newCapacity` buckets; on any allocation failure it is left as it
   * was and no pair is freed.  The source instead frees the old header and
   * never installs the new buckets; see `RehashAsWritten`.
   */
  function Rehash<K(==), V>(t: Table<K, V>, hash: K -> nat, newCapacity: nat, alloc: GrowAlloc): (r: Outcome<K, V>)
    requires Valid(t, hash) && newCapacity > 0 && Balanced(t.size, newCapacity)
    ensures r.ok <==> AllocCovers(alloc, t.size)
    ensures r.freed == []
    ensures Valid(r.table, hash) && Contents(r.table) == Contents(t)
    ensures r.table.size == t.size && r.table.hasFree == t.hasFree
    ensures |r.table.buckets| == if r.ok then newCapacity else |t.buckets|
    ensures !r.ok ==> r.table == t
  {
    if AllocCovers(alloc, t.size) then Outcome(true, Regrow(t, hash, newCapacity), [])
    else Outcome(false, t, [])
  }

  /**
   * `mht_rehash` as written, seen from the caller: after the copy loop it
   * frees the old header `t` and leaks the new table, so the caller's table
   * keeps its old buckets and capacity; and when an entry allocation fails
   * midway, `mht_free(nt)` hands to `free_fn` every pair copied so far --
   * pairs the old table still owns.
   */
  function RehashAsWritten<K(==), V>(t: Table<K, V>, hash: K -> nat, newCapacity: nat, alloc: GrowAlloc): (r: Outcome<K, V>)
    requires Valid(t, hash) && newCapacity > 0 && Balanced(t.size, newCapacity)
    ensures r.table == t
    ensures r.ok <==> AllocCovers(alloc, t.size)
  {
    if !alloc.tableOk then Outcome(false, t, [])
    else if AllocCovers(alloc, t.size) then Outcome(true, t, [])
    else
      var copied := Flatten(t.buckets)[..alloc.entryLimit.value];
      var partial := Fill(EmptyBuckets(newCapacity), copied, hash);
      Outcome(false, t, if t.hasFree then Flatten(partial) else [])
  }

  /** As written, a rehash that reports success leaves the capacity where it was. */
  lemma RehashAsWrittenNeverGrows<K, V>(t: Table<K, V>, hash: K -> nat, newCapacity: nat, alloc: GrowAlloc)
    requires Valid(t, hash) && newCapacity > 0 && Balanced(t.size, newCapacity)
    requires AllocCovers(alloc, t.size) && newCapacity != |t.buckets|
    ensures RehashAsWritten(t, hash, newCapacity, alloc).ok
    ensures |RehashAsWritten(t, hash, newCapacity, alloc).table.buckets| != newCapacity
    ensures |Rehash(t, hash, newCapacity, alloc).table.buckets| == newCapacity
  {
  }

  /**
   * As written, an entry allocation failure after `n > 0` copies makes
   * `free_fn` run on `n` pairs the table still stores, so they are freed
   * twice once the table itself is freed.
   */
  lemma RehashAsWrittenFreesLivePairs<K, V>(t: Table<K, V>, hash: K -> nat, newCapacity: nat, n: nat)
    requires Valid(t, hash) && newCapacity > 0 && Balanced(t.size, newCapacity)
    requires t.hasFree && 0 < n < t.size
    ensures var r := RehashAsWritten(t, hash, newCapacity, GrowAlloc(true, Some(n)));
      !r.ok && |r.freed| == n && forall e :: e in r.freed ==> MapsTo(Contents(r.table), e.0, e.1)
    ensures Rehash(t, hash, newCapacity, GrowAlloc(true, Some(n))).freed == []
  {
    var copied := Flatten(t.buckets)[..n];
    LivePrefix(t, hash, n);
    assert |copied| == n;
    assert Balanced(n, newCapacity);
    FillOfEmptyEntries(newCapacity, copied, hash);
    var freed := Flatten(Fill(EmptyBuckets(newCapacity), copied, hash));
    assert RehashAsWritten(t, hash, newCapacity, GrowAlloc(true, Some(n))) == Outcome(false, t, freed);
  }

  /** The first `n` entries of a valid table, in bucket order, are live pairs with distinct keys. */
  lemma LivePrefix<K, V>(t: Table<K, V>, hash: K -> nat, n: nat)
    requires Valid(t, hash) && n <= t.size
    ensures UniqueKeys(Flatten(t.buckets)[..n])
    ensures forall e :: e in Flatten(t.buckets)[..n] ==> MapsTo(Contents(t), e.0, e.1)
  {
    FlattenUnique(t.buckets, hash, |t.buckets|);
    PrefixLive(Flatten(t.buckets), n);
  }

  lemma PrefixLive<K, V>(es: seq<(K, V)>, n: nat)
    requires UniqueKeys(es) && n <= |es|
    ensures UniqueKeys(es[..n])
    ensures forall e :: e in es[..n] ==> MapsTo(ToMap(es), e.0, e.1)
  {
    PrefixUnique(es, n);
    ToMapHolds(es);
    PrefixIn(es, n);
  }

  lemma PrefixIn<T>(s: seq<T>, n: nat)
    requires n <= |s|
    ensures forall e :: e in s[..n] ==> e in s
  {
    forall e | e in s[..n]
      ensures e in s
    {
      var a :| 0 <= a < n && s[..n][a] == e;
      assert s[a] == e;
    }
  }

  lemma PrefixUnique<K, V>(s: seq<(K, V)>, n: nat)
    requires UniqueKeys(s) && n <= |s|
    ensures UniqueKeys(s[..n])
  {
    var p := s[..n];
    forall a, b | 0 <= a < |p| && 0 <= b < |p| && p[a].0 == p[b].0
      ensures a == b
    {
      assert s[a] == p[a] && s[b] == p[b];
    }
  }

  /** Room for one more entry after the growth check of `mht_set`. */
  lemma GrowthKeepsRoom(size: nat, capacity: nat)
    requires capacity > 0 && Balanced(size, capacity)
    ensures size * LoadDen < LoadNum * capacity ==> Balanced(size + 1, capacity)
    ensures Balanced(size, 2 * capacity) && Balanced(size + 1, 2 * capacity)
  {
  }

  /**
   * The part of `mht_set` after the growth check: a present key is left alone
   * unless `overwrite`, in which case the old pair goes to `free_fn` and the
   * new pair takes its node; an absent key is linked at the head of its
   * bucket, unless its entry cannot be allocated (`entryOk` false, -1).
   */
  function Store<K(==), V>(t: Table<K, V>, hash: K -> nat, k: K, v: V, overwrite: bool, entryOk: bool): (r: Outcome<K, V>)
    requires Valid(t, hash) && Balanced(t.size + 1, |t.buckets|)
    ensures Valid(r.table, hash) && r.table.hasFree == t.hasFree && |r.table.buckets| == |t.buckets|
    ensures r.ok <==> k in Contents(t) || entryOk
    ensures Contents(r.table) == if r.ok && (overwrite || k !in Contents(t)) then Contents(t)[k := v] else Contents(t)
    ensures r.table.size == if r.ok && k !in Contents(t) then t.size + 1 else t.size
    ensures r.freed == if overwrite && k in Contents(t) && t.hasFree then [(k, Contents(t)[k])] else []
    ensures r.ok && k !in Contents(t) ==> r.table.buckets == InsertHead(t.buckets, Index(hash(k), |t.buckets|), (k, v))
  {
    match Locate(t, hash, k)
    case Some(j) =>
      if !overwrite then Outcome(true, t, [])
      else Outcome(true, Replace(t, hash, k, v, j), if t.hasFree then [(k, Contents(t)[k])] else [])
    case None =>
      if !entryOk then Outcome(false, t, [])
      else Outcome(true, Link(t, hash, k, v), [])
  }

  /**
   * `mht_set` over the corrected `Rehash`.  When `size >= capacity * 0.66` on
   * entry the table first grows to twice its capacity -- even if `k` is
   * already present -- and a failed growth makes the call return -1; then
   * `Store`.  The source's own rehash differs on both growth outcomes (see
   * `RehashAsWritten`): it never installs the new buckets, and a failed
   * growth hands the pairs copied so far to `free_fn`.
   */
  function Set<K(==), V>(t: Table<K, V>, hash: K -> nat, k: K, v: V, overwrite: bool, grow: GrowAlloc, entryOk: bool): (r: Outcome<K, V>)
    requires Valid(t, hash)
    ensures Valid(r.table, hash) && r.table.hasFree == t.hasFree
    ensures r.ok <==> (!NeedsGrowth(t) || AllocCovers(grow, t.size)) && (k in Contents(t) || entryOk)
    ensures |r.table.buckets| == if NeedsGrowth(t) && AllocCovers(grow, t.size) then 2 * |t.buckets| else |t.buckets|
    ensures Contents(r.table) == if r.ok && (overwrite || k !in Contents(t)) then Contents(t)[k := v] else Contents(t)
    ensures r.table.size == if r.ok && k !in Contents(t) then t.size + 1 else t.size
    ensures r.freed == if r.ok && overwrite && k in Contents(t) && t.hasFree then [(k, Contents(t)[k])] else []
    ensures r.ok && k !in Contents(t) && !NeedsGrowth(t) ==>
      r.table.buckets == InsertHead(t.buckets, Index(hash(k), |t.buckets|), (k, v))
  {
    GrowthKeepsRoom(t.size, |t.buckets|);
    if NeedsGrowth(t) then
      var g := Rehash(t, hash, 2 * |t.buckets|, grow);
      if !g.ok then g else Store(g.table, hash, k, v, overwrite, entryOk)
    else
      Store(t, hash, k, v, overwrite, entryOk)
  }

  /**
   * `mht_delete`: for a present key the pair goes to `free_fn` once, its node
   * is unlinked from its chain, `size` drops by one and nothing else changes;
   * for an absent key nothing happens at all.
   */
  function Delete<K(==), V>(t: Table<K, V>, hash: K -> nat, k: K): (r: Removal<K, V>)
    requires Valid(t, hash)
    ensures Valid(r.table, hash) && r.table.hasFree == t.hasFree && |r.table.buckets| == |t.buckets|
    ensures Contents(r.table) == Contents(t) - {k}
    ensures r.table.size == if k in Contents(t) then t.size - 1 else t.size
    ensures r.freed == if k in Contents(t) && t.hasFree then [(k, Contents(t)[k])] else []
    ensures k !in Contents(t) ==> r.table == t
    ensures forall i :: 0 <= i < |t.buckets| && i != Index(hash(k), |t.buckets|) ==> r.table.buckets[i] == t.buckets[i]
  {
    match Locate(t, hash, k)
    case None =>
      assert Contents(t) - {k} == Contents(t);
      Removal(t, [])
    case Some(j) =>
      Removal(Unlink(t, hash, k, j), if t.hasFree then [(k, Contents(t)[k])] else [])
  }

  /**
   * `mht_free`: every live pair goes to `free_fn` exactly once (bucket by
   * bucket, each chain from its head); nothing is freed twice.
   */
  function Free<K(==,!new), V(!new)>(t: Table<K, V>, hash: K -> nat): (freed: seq<(K, V)>)
    requires Valid(t, hash)
    ensures t.hasFree ==> UniqueKeys(freed) && |freed| == t.size
    ensures t.hasFree ==> forall k, v :: (k, v) in freed <==> MapsTo(Contents(t), k, v)
    ensures !t.hasFree ==> freed == []
  {
    FlattenUnique(t.buckets, hash, |t.buckets|);
    ToMapHolds(Flatten(t.buckets));
    if t.hasFree then Flatten(t.buckets) else []
  }

  // ---------------------------------------------------------------------------
  // Properties relating the operations

  /** The most recent successful write of a key is what `Get` returns; other keys read as before. */
  lemma GetAfterSet<K, V>(t: Table<K, V>, hash: K -> nat, k: K, v: V, overwrite: bool, grow: GrowAlloc, entryOk: bool, other: K)
    requires Valid(t, hash) && other != k
    ensures var r := Set(t, hash, k, v, overwrite, grow, entryOk);
      && (r.ok && (overwrite || k !in Contents(t)) ==> Get(r.table, hash, k) == Some(v))
      && (r.ok && !overwrite && k in Contents(t) ==> Get(r.table, hash, k) == Get(t, hash, k))
      && Get(r.table, hash, other) == Get(t, hash, other)
  {
  }

  /** After a delete the key is gone and every other key reads as before. */
  lemma GetAfterDelete<K, V>(t: Table<K, V>, hash: K -> nat, k: K, other: K)
    requires Valid(t, hash) && other != k
    ensures Get(Delete(t, hash, k).table, hash, k) == None
    ensures Get(Delete(t, hash, k).table, hash, other) == Get(t, hash, other)
  {
  }

  /** Setting an absent key and deleting it again restores the table's contents and size. */
  lemma SetThenDelete<K, V>(t: Table<K, V>, hash: K -> nat, k: K, v: V, overwrite: bool, grow: GrowAlloc)
    requires Valid(t, hash) && k !in Contents(t)
    ensures var r := Set(t, hash, k, v, overwrite, grow, true);
      r.ok ==> Contents(Delete(r.table, hash, k).table) == Contents(t) && Delete(r.table, hash, k).table.size == t.size
  {
    var r := Set(t, hash, k, v, overwrite, grow, true);
    if r.ok {
      assert Contents(t)[k := v] - {k} == Contents(t);
    }
  }
}
