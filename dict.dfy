/**
  Model of dict.c: a hash map with chained buckets.  A bucket is the list of
  (key, value) items that hash to it, in insertion order; the dict keeps a
  list of buckets whose number follows the capacity rule of list.c (none when
  empty, else a power of two with buckets/2 < len <= buckets).

  key_eq is Dafny equality on K and key_hash is the function `hash`.  Items
  are (key, value) values rather than shared item_t objects, and dict_get's
  NULL for "absent" is None.
*/
module Dicts {
  import opened Wrappers
  import opened Utils
  import opened Lists

  type Bucket<K, V> = seq<(K, V)>

  /** The keys of a bucket, in order. */
  function Keys<K, V>(b: Bucket<K, V>): (ks: seq<K>)
    ensures |ks| == |b| && forall i :: 0 <= i < |b| ==> ks[i] == b[i].0
  {
    seq(|b|, i requires 0 <= i < |b| => b[i].0)
  }

  /** No key occurs twice. */
  ghost predicate UniqueKeys<K, V>(b: Bucket<K, V>)
  {
    forall i, j :: 0 <= i < j < |b| ==> b[i].0 != b[j].0
  }

  /** The index of the first item with key k: the item _bucket_item finds. */
  function KeyIndex<K(==), V>(b: Bucket<K, V>, k: K): (r: Option<nat>)
    ensures r.Some? ==> r.value < |b| && b[r.value].0 == k
  {
    if b == [] then None
    else if b[0].0 == k then Some(0)
    else match KeyIndex(b[1..], k)
      case None => None
      case Some(i) => Some(i + 1)
  }

  /** KeyIndex is the first match, and None means there is no match. */
  lemma {:induction false} KeyIndexSpec<K, V>(b: Bucket<K, V>, k: K)
    ensures KeyIndex(b, k).Some? ==> forall j :: 0 <= j < KeyIndex(b, k).value ==> b[j].0 != k
    ensures KeyIndex(b, k).None? ==> forall j :: 0 <= j < |b| ==> b[j].0 != k
  {
    if b != [] && b[0].0 != k {
      KeyIndexSpec(b[1..], k);
      assert forall j :: 1 <= j < |b| ==> b[j] == b[1..][j - 1];
    }
  }

  /** A match with no earlier match is what KeyIndex finds. */
  lemma KeyIndexIs<K, V>(b: Bucket<K, V>, k: K, i: nat)
    requires i < |b| && b[i].0 == k && forall j :: 0 <= j < i ==> b[j].0 != k
    ensures KeyIndex(b, k) == Some(i)
  {
    KeyIndexSpec(b, k);
  }

  /** Without a match KeyIndex finds nothing. */
  lemma KeyIndexNone<K, V>(b: Bucket<K, V>, k: K)
    requires forall j :: 0 <= j < |b| ==> b[j].0 != k
    ensures KeyIndex(b, k) == None
  {
  }

  /** The value stored under k in a bucket (bucket_get), or None. */
  function Lookup<K(==), V>(b: Bucket<K, V>, k: K): Option<V>
  {
    match KeyIndex(b, k)
    case None => None
    case Some(i) => Some(b[i].1)
  }

  /** In a bucket without repeated keys, the item with key k gives the lookup. */
  lemma LookupAt<K, V>(b: Bucket<K, V>, k: K, i: nat)
    requires UniqueKeys(b) && i < |b| && b[i].0 == k
    ensures Lookup(b, k) == Some(b[i].1)
  {
    KeyIndexIs(b, k, i);
  }

  /** A key that no item has is not found. */
  lemma LookupAbsent<K, V>(b: Bucket<K, V>, k: K)
    requires forall j :: 0 <= j < |b| ==> b[j].0 != k
    ensures Lookup(b, k) == None
  {
    KeyIndexNone(b, k);
  }

  /** A lookup finds an item of the bucket. */
  lemma LookupFound<K, V>(b: Bucket<K, V>, k: K)
    ensures Lookup(b, k).Some? ==> (k, Lookup(b, k).value) in b
    ensures Lookup(b, k).None? ==> forall j :: 0 <= j < |b| ==> b[j].0 != k
  {
    KeyIndexSpec(b, k);
  }

  /** Looking up in a concatenation looks in the first part, then in the second. */
  lemma LookupAppend<K, V>(a: Bucket<K, V>, b: Bucket<K, V>, k: K)
    ensures Lookup(a + b, k) == if Lookup(a, k).Some? then Lookup(a, k) else Lookup(b, k)
  {
    KeyIndexSpec(a, k);
    KeyIndexSpec(b, k);
    match KeyIndex(a, k)
    case Some(i) =>
      KeyIndexIs(a + b, k, i);
    case None =>
      match KeyIndex(b, k)
      case Some(i) =>
        KeyIndexIs(a + b, k, |a| + i);
      case None =>
        KeyIndexNone(a + b, k);
  }

  /** In a bucket without repeated keys, one more item of a prefix adds just its own key. */
  lemma LookupPrefixStep<K, V>(b: Bucket<K, V>, i: nat)
    requires UniqueKeys(b) && i < |b|
    ensures Lookup(b[..i], b[i].0) == None
    ensures forall k :: Lookup(b[..i + 1], k) == if k == b[i].0 then Some(b[i].1) else Lookup(b[..i], k)
  {
    LookupAbsent(b[..i], b[i].0);
    assert b[..i + 1] == b[..i] + [b[i]];
    forall k
      ensures Lookup(b[..i + 1], k) == if k == b[i].0 then Some(b[i].1) else Lookup(b[..i], k)
    {
      LookupAppend(b[..i], [b[i]], k);
    }
  }

  /** The keys of a bucket, as a set. */
  ghost function KeySet<K, V>(b: Bucket<K, V>): set<K>
  {
    set i | 0 <= i < |b| :: b[i].0
  }

  /** A lookup succeeds exactly for the keys of the bucket. */
  lemma LookupSomeIffKey<K, V>(b: Bucket<K, V>, k: K)
    ensures Lookup(b, k).Some? <==> k in KeySet(b)
  {
    KeyIndexSpec(b, k);
    if KeyIndex(b, k).Some? {
      assert b[KeyIndex(b, k).value].0 == k;
    }
  }

  /** One more item adds its key to the key set. */
  lemma KeySetSnoc<K, V>(b: Bucket<K, V>, i: nat)
    requires i < |b|
    ensures KeySet(b[..i + 1]) == KeySet(b[..i]) + {b[i].0}
  {
    var p, q := b[..i + 1], b[..i];
    assert forall j :: 0 <= j < i ==> p[j] == q[j];
    assert p[i] == b[i];
  }

  /** Without repeated keys there are as many keys as items. */
  lemma {:induction false} UniqueKeySetSize<K, V>(b: Bucket<K, V>)
    requires UniqueKeys(b)
    ensures |KeySet(b)| == |b|
  {
    if b != [] {
      var n := |b| - 1;
      assert UniqueKeys(b[..n]);
      UniqueKeySetSize(b[..n]);
      KeySetSnoc(b, n);
      assert b[..n + 1] == b;
    }
  }

  /** The loop of _bucket_item: scan for the first item with key k. */
  method BucketItem<K(==), V>(b: Bucket<K, V>, k: K) returns (r: Option<nat>)
    ensures r == KeyIndex(b, k)
  {
    for i := 0 to |b|
      invariant forall j :: 0 <= j < i ==> b[j].0 != k
    {
      if b[i].0 == k {
        KeyIndexIs(b, k, i);
        return Some(i);
      }
    }
    KeyIndexNone(b, k);
    return None;
  }

  /** bucket_get: the value of the item with key k, if any. */
  method BucketGet<K(==), V>(b: Bucket<K, V>, k: K) returns (v: Option<V>)
    ensures v == Lookup(b, k)
    ensures v.Some? ==> (k, v.value) in b
    ensures v.None? ==> k !in Keys(b)
  {
    LookupFound(b, k);
    var i := BucketItem(b, k);
    if i.None? {
      return None;
    }
    return Some(b[i.value].1);
  }

  /**
    bucket_set: overwrite the value of the item with key k, or push a new
    item at the end when there is none.
  */
  method BucketSet<K(==), V>(b: Bucket<K, V>, k: K, v: V) returns (nb: Bucket<K, V>)
    ensures forall k' :: Lookup(nb, k') == if k' == k then Some(v) else Lookup(b, k')
    ensures |nb| == |b| + (if Lookup(b, k).None? then 1 else 0)
    ensures forall x :: x in nb ==> x in b || x == (k, v)
    ensures UniqueKeys(b) ==> UniqueKeys(nb)
  {
    KeyIndexSpec(b, k);
    var i := BucketItem(b, k);
    if i.None? {
      nb := b + [(k, v)];
      forall k' {
        LookupAppend(b, [(k, v)], k');
      }
    } else {
      var at := i.value;
      nb := b[at := (k, v)];
      KeyIndexIs(nb, k, at);
      forall k' | k' != k
        ensures Lookup(nb, k') == Lookup(b, k')
      {
        SameKeysSameIndex(b, nb, k');
      }
    }
  }

  /** Buckets with the same keys at the same places find k at the same place. */
  lemma SameKeysSameIndex<K, V>(b: Bucket<K, V>, c: Bucket<K, V>, k: K)
    requires |b| == |c| && forall j :: 0 <= j < |b| ==> b[j].0 == c[j].0
    ensures KeyIndex(b, k) == KeyIndex(c, k)
  {
    KeyIndexSpec(b, k);
    KeyIndexSpec(c, k);
    if KeyIndex(b, k).Some? {
      KeyIndexIs(c, k, KeyIndex(b, k).value);
    } else if KeyIndex(c, k).Some? {
      KeyIndexIs(b, k, KeyIndex(c, k).value);
    }
  }

  /**
    bucket_del: remove the first item with key k (list_remove keeps the order
    of the others) and return it, or return None when there is none.
  */
  method BucketDel<K(==), V>(b: Bucket<K, V>, k: K) returns (nb: Bucket<K, V>, r: Option<(K, V)>)
    ensures r.None? <==> Lookup(b, k).None?
    ensures r.Some? ==> r.value == (k, Lookup(b, k).value)
    ensures r.None? ==> nb == b
    ensures |nb| == |b| - (if r.Some? then 1 else 0)
    ensures forall x :: x in nb ==> x in b
    ensures UniqueKeys(b) ==> UniqueKeys(nb)
    ensures UniqueKeys(b) ==> forall k' :: Lookup(nb, k') == if k' == k then None else Lookup(b, k')
  {
    for i := 0 to |b|
      invariant forall j :: 0 <= j < i ==> b[j].0 != k
    {
      if b[i].0 == k {
        KeyIndexIs(b, k, i);
        nb, r := b[..i] + b[i + 1..], Some(b[i]);
        RemoveAtUnique(b, i);
        return;
      }
    }
    KeyIndexNone(b, k);
    nb, r := b, None;
  }

  /**
    Removing the item at i from a bucket without repeated keys keeps the other
    keys unique and their lookups, and loses the key of the removed item.
  */
  lemma RemoveAtUnique<K, V>(b: Bucket<K, V>, i: nat)
    requires i < |b|
    ensures forall x :: x in b[..i] + b[i + 1..] ==> x in b
    ensures UniqueKeys(b) ==> UniqueKeys(b[..i] + b[i + 1..])
    ensures UniqueKeys(b) ==> forall k' :: Lookup(b[..i] + b[i + 1..], k') == if k' == b[i].0 then None else Lookup(b, k')
  {
    var c := b[..i] + b[i + 1..];
    assert forall j :: 0 <= j < |c| ==> c[j] == if j < i then b[j] else b[j + 1];
    if UniqueKeys(b) {
      forall k'
        ensures Lookup(c, k') == if k' == b[i].0 then None else Lookup(b, k')
      {
        if k' == b[i].0 {
          LookupAbsent(c, k');
        } else if exists j :: 0 <= j < |b| && b[j].0 == k' {
          var j :| 0 <= j < |b| && b[j].0 == k';
          LookupAt(b, k', j);
          if j < i {
            LookupAt(c, k', j);
          } else {
            LookupAt(c, k', j - 1);
          }
        } else {
          LookupAbsent(b, k');
          LookupAbsent(c, k');
        }
      }
    }
  }

  /** _buckets_index: the bucket a hash selects among n > 0 buckets. */
  function BucketIndex(h: nat, n: nat): (r: nat)
    requires n > 0
    ensures r < n
  {
    if n == 1 then 0 else h % n
  }

  /** The items of all buckets, bucket by bucket, each in its own order. */
  function Flatten<K, V>(bs: seq<Bucket<K, V>>): seq<(K, V)>
  {
    if bs == [] then [] else Flatten(bs[..|bs| - 1]) + bs[|bs| - 1]
  }

  /** _get_bucket followed by bucket_get: the value under k, None with no buckets. */
  function FindIn<K(==), V>(bs: seq<Bucket<K, V>>, hash: K -> nat, k: K): Option<V>
  {
    if |bs| == 0 then None else Lookup(bs[BucketIndex(hash(k), |bs|)], k)
  }

  /** Every item sits in the bucket its key hashes to. */
  ghost predicate PlacedIn<K, V>(bs: seq<Bucket<K, V>>, hash: K -> nat)
  {
    forall i, j :: 0 <= i < |bs| && 0 <= j < |bs[i]| ==> BucketIndex(hash(bs[i][j].0), |bs|) == i
  }

  /** No bucket holds a key twice. */
  ghost predicate BucketsUnique<K, V>(bs: seq<Bucket<K, V>>)
  {
    forall i :: 0 <= i < |bs| ==> UniqueKeys(bs[i])
  }

  /** The shape every bucket array of a dict has between operations. */
  ghost predicate Structured<K, V>(bs: seq<Bucket<K, V>>, hash: K -> nat)
  {
    (|bs| == 0 || IsPow2(|bs|)) && PlacedIn(bs, hash) && BucketsUnique(bs)
  }

  /** A bucket array of empty buckets has no items. */
  lemma {:induction false} FlattenEmpty<K, V>(bs: seq<Bucket<K, V>>)
    requires forall i :: 0 <= i < |bs| ==> bs[i] == []
    ensures Flatten(bs) == []
  {
    if bs != [] {
      FlattenEmpty(bs[..|bs| - 1]);
    }
  }

  /** Flattening a prefix one bucket longer appends that bucket. */
  lemma FlattenPrefix<K, V>(bs: seq<Bucket<K, V>>, m: nat)
    requires m < |bs|
    ensures Flatten(bs[..m + 1]) == Flatten(bs[..m]) + bs[m]
  {
    assert bs[..m + 1][..m] == bs[..m];
  }

  /** Replacing one bucket changes the item count by the change in that bucket. */
  lemma {:induction false} FlattenUpdateLength<K, V>(bs: seq<Bucket<K, V>>, j: nat, b: Bucket<K, V>)
    requires j < |bs|
    ensures |Flatten(bs[j := b])| + |bs[j]| == |Flatten(bs)| + |b|
  {
    var n := |bs| - 1;
    if j == n {
      assert bs[j := b][..n] == bs[..n];
    } else {
      assert bs[j := b][..n] == bs[..n][j := b];
      FlattenUpdateLength(bs[..n], j, b);
    }
  }

  /** The items of the first m buckets all hash below m. */
  lemma {:induction false} FlattenPlaced<K, V>(bs: seq<Bucket<K, V>>, hash: K -> nat, m: nat)
    requires PlacedIn(bs, hash) && 0 < |bs| && m <= |bs|
    ensures forall t :: 0 <= t < |Flatten(bs[..m])| ==> BucketIndex(hash(Flatten(bs[..m])[t].0), |bs|) < m
  {
    if m > 0 {
      FlattenPlaced(bs, hash, m - 1);
      FlattenPrefix(bs, m - 1);
      var f := Flatten(bs[..m - 1]);
      assert forall t :: |f| <= t < |f| + |bs[m - 1]| ==> Flatten(bs[..m])[t] == bs[m - 1][t - |f|];
    }
  }

  /** The items of the first m buckets have pairwise different keys. */
  lemma {:induction false} FlattenUniqueUpTo<K, V>(bs: seq<Bucket<K, V>>, hash: K -> nat, m: nat)
    requires PlacedIn(bs, hash) && BucketsUnique(bs) && 0 < |bs| && m <= |bs|
    ensures UniqueKeys(Flatten(bs[..m]))
  {
    if m > 0 {
      FlattenUniqueUpTo(bs, hash, m - 1);
      FlattenPlaced(bs, hash, m - 1);
      FlattenPrefix(bs, m - 1);
      var f, b := Flatten(bs[..m - 1]), bs[m - 1];
      assert UniqueKeys(b);
      assert forall t :: |f| <= t < |f| + |b| ==> Flatten(bs[..m])[t] == b[t - |f|];
      assert forall t :: 0 <= t < |f| ==> Flatten(bs[..m])[t] == f[t];
    }
  }

  /** Looking k up in the first m buckets searches only the bucket k hashes to. */
  lemma {:induction false} FlattenLookupUpTo<K, V>(bs: seq<Bucket<K, V>>, hash: K -> nat, m: nat, k: K)
    requires PlacedIn(bs, hash) && 0 < |bs| && m <= |bs|
    ensures Lookup(Flatten(bs[..m]), k)
         == if BucketIndex(hash(k), |bs|) < m then Lookup(bs[BucketIndex(hash(k), |bs|)], k) else None
  {
    if m > 0 {
      FlattenLookupUpTo(bs, hash, m - 1, k);
      FlattenPrefix(bs, m - 1);
      LookupAppend(Flatten(bs[..m - 1]), bs[m - 1], k);
      if BucketIndex(hash(k), |bs|) != m - 1 {
        LookupAbsent(bs[m - 1], k);
      }
    }
  }

  /**
    In a structured bucket array the keys of all items are distinct, and the
    bucket lookup agrees with a lookup in the list of all items.
  */
  lemma FindIsLookup<K, V>(bs: seq<Bucket<K, V>>, hash: K -> nat)
    ensures Structured(bs, hash) ==> UniqueKeys(Flatten(bs))
    ensures Structured(bs, hash) ==> forall k :: FindIn(bs, hash, k) == Lookup(Flatten(bs), k)
  {
    if Structured(bs, hash) && |bs| > 0 {
      assert bs[..|bs|] == bs;
      FlattenUniqueUpTo(bs, hash, |bs|);
      forall k
        ensures FindIn(bs, hash, k) == Lookup(Flatten(bs), k)
      {
        FlattenLookupUpTo(bs, hash, |bs|, k);
      }
    }
  }

  /** Replacing the bucket of k by one that agrees on every other key. */
  lemma UpdateBucket<K, V>(bs: seq<Bucket<K, V>>, hash: K -> nat, k: K, nb: Bucket<K, V>)
    requires Structured(bs, hash) && |bs| > 0
    requires forall k' :: k' != k ==> Lookup(nb, k') == Lookup(bs[BucketIndex(hash(k), |bs|)], k')
    requires UniqueKeys(nb)
    requires forall x :: x in nb ==> x in bs[BucketIndex(hash(k), |bs|)] || x.0 == k
    ensures Structured(bs[BucketIndex(hash(k), |bs|) := nb], hash)
    ensures forall k' :: FindIn(bs[BucketIndex(hash(k), |bs|) := nb], hash, k')
                         == if k' == k then Lookup(nb, k) else FindIn(bs, hash, k')
  {
    var bi := BucketIndex(hash(k), |bs|);
    var c: seq<Bucket<K, V>> := bs[bi := nb];
    forall i, j | 0 <= i < |c| && 0 <= j < |c[i]|
      ensures BucketIndex(hash(c[i][j].0), |c|) == i
    {
      if i == bi {
        assert nb[j] in nb;
        if nb[j] !in bs[bi] {
          assert nb[j].0 == k;
        } else {
          var t :| 0 <= t < |bs[bi]| && bs[bi][t] == nb[j];
        }
      }
    }
    forall k'
      ensures FindIn(c, hash, k') == if k' == k then Lookup(nb, k) else FindIn(bs, hash, k')
    {
      var bj := BucketIndex(hash(k'), |bs|);
      assert FindIn(c, hash, k') == Lookup(c[bj], k');
    }
  }

  /** _get_bucket and bucket_set: store v under k in a non-empty bucket array. */
  method SetIn<K(==), V>(bs: seq<Bucket<K, V>>, hash: K -> nat, k: K, v: V) returns (nbs: seq<Bucket<K, V>>)
    requires Structured(bs, hash) && |bs| > 0
    ensures Structured(nbs, hash) && |nbs| == |bs|
    ensures forall k' :: FindIn(nbs, hash, k') == if k' == k then Some(v) else FindIn(bs, hash, k')
    ensures |Flatten(nbs)| == |Flatten(bs)| + (if FindIn(bs, hash, k).None? then 1 else 0)
  {
    var bi := BucketIndex(hash(k), |bs|);
    var nb := BucketSet(bs[bi], k, v);
    UpdateBucket(bs, hash, k, nb);
    FlattenUpdateLength(bs, bi, nb);
    nbs := bs[bi := nb];
  }

  /** _get_bucket and bucket_del: remove k from a non-empty bucket array. */
  method DelIn<K(==), V>(bs: seq<Bucket<K, V>>, hash: K -> nat, k: K) returns (nbs: seq<Bucket<K, V>>, r: Option<(K, V)>)
    requires Structured(bs, hash) && |bs| > 0
    ensures Structured(nbs, hash) && |nbs| == |bs|
    ensures r == if FindIn(bs, hash, k).None? then None else Some((k, FindIn(bs, hash, k).value))
    ensures r.None? ==> nbs == bs
    ensures forall k' :: FindIn(nbs, hash, k') == if k' == k then None else FindIn(bs, hash, k')
    ensures |Flatten(nbs)| == |Flatten(bs)| - (if r.Some? then 1 else 0)
  {
    var bi := BucketIndex(hash(k), |bs|);
    var nb: Bucket<K, V>;
    nb, r := BucketDel(bs[bi], k);
    UpdateBucket(bs, hash, k, nb);
    FlattenUpdateLength(bs, bi, nb);
    nbs := bs[bi := nb];
  }

  /** The nested loops of dict_items over a bucket array. */
  method FlattenLoop<K, V>(bs: seq<Bucket<K, V>>) returns (items: seq<(K, V)>)
    ensures items == Flatten(bs)
  {
    items := [];
    for i := 0 to |bs|
      invariant items == Flatten(bs[..i])
    {
      var b := bs[i];
      for j := 0 to |b|
        invariant items == Flatten(bs[..i]) + b[..j]
      {
        items := items + [b[j]];
      }
      assert b[..|b|] == b;
      FlattenPrefix(bs, i);
    }
    assert bs[..|bs|] == bs;
  }

  /**
    The rebuild of _dict_resize: fresh empty buckets of the given capacity,
    into which the first Min(capacity, |items|) items are set in order.
  */
  method Rehash<K(==), V>(items: seq<(K, V)>, hash: K -> nat, capacity: nat) returns (nbs: seq<Bucket<K, V>>)
    requires UniqueKeys(items) && (capacity == 0 || IsPow2(capacity))
    ensures |nbs| == capacity && Structured(nbs, hash)
    ensures |Flatten(nbs)| == Min(capacity, |items|)
    ensures forall k :: FindIn(nbs, hash, k) == Lookup(items[..Min(capacity, |items|)], k)
  {
    nbs := seq(capacity, _ => []);
    FlattenEmpty(nbs);
    var copyLen := Min(capacity, |items|);
    for i := 0 to copyLen
      invariant |nbs| == capacity && Structured(nbs, hash)
      invariant |Flatten(nbs)| == i
      invariant forall k :: FindIn(nbs, hash, k) == Lookup(items[..i], k)
    {
      LookupPrefixStep(items, i);
      nbs := SetIn(nbs, hash, items[i].0, items[i].1);
    }
  }

  /**
    A dict_t: len and the bucket list are updated in place; hash stands for
    key_hash.  Between operations Valid() holds: the bucket count follows the
    capacity rule for len, and len counts the items.
  */
  class Dict<K(==, !new), V> {
    const hash: K -> nat
    var len: nat
    var buckets: seq<Bucket<K, V>>

    ghost predicate Valid()
      reads this
    {
      Structured(buckets, hash) && CapacityFits(len, |buckets|) && len == |Flatten(buckets)|
    }

    /** What dict_get answers for k. */
    function Find(k: K): Option<V>
      reads this
    {
      FindIn(buckets, hash, k)
    }

    /** The keys stored in the dict. */
    ghost function Domain(): set<K>
      reads this
    {
      KeySet(Flatten(buckets))
    }

    /** dict_create: no items and no buckets. */
    constructor(hash: K -> nat)
      ensures Valid() && this.hash == hash
      ensures len == 0 && buckets == []
      ensures forall k :: Find(k) == None
    {
      this.hash := hash;
      len := 0;
      buckets := [];
    }

    /** dict_len: the number of items. */
    function Len(): (n: nat)
      reads this
      ensures Valid() ==> n == |Flatten(buckets)|
    {
      len
    }

    /** dict_items: every item, bucket by bucket. */
    method Items() returns (items: seq<(K, V)>)
      ensures items == Flatten(buckets)
      ensures Valid() ==> |items| == len && UniqueKeys(items)
      ensures Valid() ==> forall k :: Lookup(items, k) == Find(k)
    {
      FindIsLookup(buckets, hash);
      items := FlattenLoop(buckets);
    }

    /** dict_get: the value under k, None when k is absent or there are no buckets. */
    method Get(k: K) returns (v: Option<V>)
      ensures v == Find(k)
      ensures Valid() ==> v == Lookup(Flatten(buckets), k)
    {
      FindIsLookup(buckets, hash);
      if |buckets| == 0 {
        return None;
      }
      var i := BucketIndex(hash(k), |buckets|);
      v := BucketGet(buckets[i], k);
    }

    /**
      _dict_resize: inside the band buckets/2 < n <= buckets only len changes;
      otherwise a bucket array of the fitting capacity is built and the first
      Min(capacity, count) items are rehashed into it.
    */
    method Resize(n: nat)
      requires Structured(buckets, hash)
      modifies this
      ensures Structured(buckets, hash) && len == n && CapacityFits(n, |buckets|)
      ensures old(|buckets|) / 2 < n <= old(|buckets|) ==> buckets == old(buckets)
      ensures !(old(|buckets|) / 2 < n <= old(|buckets|)) ==>
                && |Flatten(buckets)| == Min(|buckets|, old(|Flatten(buckets)|))
                && forall k :: Find(k) == Lookup(old(Flatten(buckets))[..Min(|buckets|, old(|Flatten(buckets)|))], k)
    {
      var cap := |buckets|;
      if cap / 2 < n <= cap {
        len := n;
        return;
      }
      var newCap := 0;
      if n > 0 {
        newCap := CapacityFor(cap, n);
      }
      var items := Items();
      FindIsLookup(buckets, hash);
      var nbs := Rehash(items, hash, newCap);
      len, buckets := n, nbs;
    }

    /** dict_set: store v under k, growing first when k is new. */
    method Set(k: K, v: V)
      requires Valid()
      modifies this
      ensures Valid()
      ensures forall k' :: Find(k') == if k' == k then Some(v) else old(Find(k'))
      ensures len == old(len) + (if old(Find(k)).None? then 1 else 0)
    {
      var cur := Get(k);
      if cur.None? {
        ghost var before := Flatten(buckets);
        FindIsLookup(buckets, hash);
        Resize(len + 1);
        assert before[..|before|] == before;
        assert |Flatten(buckets)| == |before| && forall k' :: Find(k') == old(Find(k'));
      }
      buckets := SetIn(buckets, hash, k, v);
    }

    /** dict_del: remove the item of k and return it; an absent k changes nothing. */
    method Del(k: K) returns (r: Option<(K, V)>)
      requires Valid()
      modifies this
      ensures Valid()
      ensures r == if old(Find(k)).None? then None else Some((k, old(Find(k)).value))
      ensures old(Find(k)).None? ==> buckets == old(buckets) && len == old(len)
      ensures forall k' :: Find(k') == if k' == k then None else old(Find(k'))
      ensures len == old(len) - (if r.Some? then 1 else 0)
    {
      var cur := Get(k);
      if cur.None? {
        return None;
      }
      LookupFound(Flatten(buckets), k);
      var nbs: seq<Bucket<K, V>>;
      nbs, r := DelIn(buckets, hash, k);
      buckets := nbs;
      ghost var before := Flatten(buckets);
      FindIsLookup(buckets, hash);
      Resize(len - 1);
      assert before[..|before|] == before;
    }
  }

  /**
    In a valid dict, len counts the distinct keys and dict_get succeeds
    exactly for them.
  */
  lemma DomainFacts<K(!new), V>(d: Dict<K, V>)
    ensures d.Valid() ==> d.len == |d.Domain()|
    ensures d.Valid() ==> forall k :: d.Find(k).Some? <==> k in d.Domain()
  {
    if d.Valid() {
      FindIsLookup(d.buckets, d.hash);
      UniqueKeySetSize(Flatten(d.buckets));
      forall k
        ensures d.Find(k).Some? <==> k in d.Domain()
      {
        LookupSomeIffKey(Flatten(d.buckets), k);
      }
    }
  }
}
