/**
  Model of dict_extended.c: projections, copies and the rendering of a dict,
  each a loop over dict_items.  The lists these functions return are
  sequences here.
*/
module DictExtended {
  import opened Wrappers
  import opened Dicts
  import Str

  /** dict_keys: the key of every item, in items order. */
  method KeyList<K(==, !new), V>(d: Dict<K, V>) returns (ks: seq<K>)
    ensures |ks| == |Flatten(d.buckets)|
    ensures forall i :: 0 <= i < |ks| ==> ks[i] == Flatten(d.buckets)[i].0
    ensures d.Valid() ==> |ks| == d.len
    ensures d.Valid() ==> forall i, j :: 0 <= i < j < |ks| ==> ks[i] != ks[j]
    ensures d.Valid() ==> forall k :: k in ks <==> d.Find(k).Some?
  {
    var items := d.Items();
    ks := [];
    for i := 0 to |items|
      invariant |ks| == i && forall j :: 0 <= j < i ==> ks[j] == items[j].0
    {
      ks := ks + [items[i].0];
    }
    if d.Valid() {
      forall k
        ensures k in ks <==> d.Find(k).Some?
      {
        LookupSomeIffKey(items, k);
        if k in ks {
          var j :| 0 <= j < |ks| && ks[j] == k;
          assert items[j].0 == k;
        }
      }
    }
  }

  /** dict_values: the value of every item, in items order. */
  method ValueList<K(==, !new), V>(d: Dict<K, V>) returns (vs: seq<V>)
    ensures |vs| == |Flatten(d.buckets)|
    ensures forall i :: 0 <= i < |vs| ==> vs[i] == Flatten(d.buckets)[i].1
    ensures d.Valid() ==> |vs| == d.len
    ensures d.Valid() ==> forall i :: 0 <= i < |vs| ==> d.Find(Flatten(d.buckets)[i].0) == Some(vs[i])
  {
    var items := d.Items();
    vs := [];
    for i := 0 to |items|
      invariant |vs| == i && forall j :: 0 <= j < i ==> vs[j] == items[j].1
    {
      vs := vs + [items[i].1];
    }
    if d.Valid() {
      forall i | 0 <= i < |vs|
        ensures d.Find(items[i].0) == Some(vs[i])
      {
        LookupAt(items, items[i].0, i);
      }
    }
  }

  /** The items with both parts copied, in order. */
  function Mapped<K, V>(ms: seq<(K, V)>, keyCopy: K -> K, valueCopy: V -> V): (r: seq<(K, V)>)
    ensures |r| == |ms|
    ensures forall i :: 0 <= i < |ms| ==> r[i] == (keyCopy(ms[i].0), valueCopy(ms[i].1))
  {
    seq(|ms|, i requires 0 <= i < |ms| => (keyCopy(ms[i].0), valueCopy(ms[i].1)))
  }

  /**
    The value that setting the items one after the other leaves under k: that
    of the last item with key k, as dict_set overwrites.
  */
  function LastLookup<K(==), V>(ms: seq<(K, V)>, k: K): Option<V>
  {
    if ms == [] then None
    else if ms[|ms| - 1].0 == k then Some(ms[|ms| - 1].1)
    else LastLookup(ms[..|ms| - 1], k)
  }

  /** One more item takes over its own key. */
  lemma LastLookupSnoc<K, V>(ms: seq<(K, V)>, i: nat, k: K)
    requires i < |ms|
    ensures LastLookup(ms[..i + 1], k) == if k == ms[i].0 then Some(ms[i].1) else LastLookup(ms[..i], k)
  {
    assert ms[..i + 1][..i] == ms[..i];
  }

  /** The last item with a key gives a value exactly for the keys present. */
  lemma {:induction false} LastLookupKeys<K, V>(ms: seq<(K, V)>, k: K)
    ensures LastLookup(ms, k).Some? <==> k in KeySet(ms)
  {
    if ms != [] {
      var n := |ms| - 1;
      LastLookupKeys(ms[..n], k);
      KeySetSnoc(ms, n);
      assert ms[..n + 1] == ms;
    }
  }

  /** Without repeated keys the last item with a key is also the first. */
  lemma {:induction false} LastLookupUnique<K, V>(ms: seq<(K, V)>, k: K)
    requires UniqueKeys(ms)
    ensures LastLookup(ms, k) == Lookup(ms, k)
  {
    if ms != [] {
      var n := |ms| - 1;
      assert UniqueKeys(ms[..n]);
      LastLookupUnique(ms[..n], k);
      assert ms == ms[..n] + [ms[n]];
      LookupAppend(ms[..n], [ms[n]], k);
      if ms[n].0 == k {
        LookupAbsent(ms[..n], k);
      }
    }
  }

  /** f sends different arguments to different results. */
  ghost predicate Injective<A(!new)>(f: A -> A)
  {
    forall a, b :: f(a) == f(b) ==> a == b
  }

  /** An injective key copy keeps the keys distinct and carries every lookup over. */
  lemma MappedLookup<K(!new), V>(ms: seq<(K, V)>, keyCopy: K -> K, valueCopy: V -> V, k: K)
    requires UniqueKeys(ms) && Injective(keyCopy)
    ensures UniqueKeys(Mapped(ms, keyCopy, valueCopy))
    ensures LastLookup(Mapped(ms, keyCopy, valueCopy), keyCopy(k))
         == if Lookup(ms, k).None? then None else Some(valueCopy(Lookup(ms, k).value))
  {
    var r := Mapped(ms, keyCopy, valueCopy);
    LastLookupUnique(r, keyCopy(k));
    KeyIndexSpec(ms, k);
    match KeyIndex(ms, k)
    case Some(i) =>
      KeyIndexIs(r, keyCopy(k), i);
    case None =>
      KeyIndexNone(r, keyCopy(k));
  }

  /** The loop of dict_copy and dict_deep_copy: dict_set each item, in order, into an empty dict. */
  method SetEach<K(==, !new), V>(c: Dict<K, V>, ms: seq<(K, V)>)
    requires c.Valid() && c.len == 0 && forall k :: c.Find(k) == None
    modifies c
    ensures c.Valid()
    ensures forall k :: c.Find(k) == LastLookup(ms, k)
    ensures c.len == |KeySet(ms)|
  {
    for i := 0 to |ms|
      invariant c.Valid()
      invariant forall k :: c.Find(k) == LastLookup(ms[..i], k)
      invariant c.len == |KeySet(ms[..i])|
    {
      LastLookupKeys(ms[..i], ms[i].0);
      KeySetSnoc(ms, i);
      c.Set(ms[i].0, ms[i].1);
      forall k
        ensures c.Find(k) == LastLookup(ms[..i + 1], k)
      {
        LastLookupSnoc(ms, i, k);
      }
    }
    assert ms[..|ms|] == ms;
  }

  /**
    dict_deep_copy: a fresh dict with the same hash into which every item is
    set with its key and value copied.  When two keys copy to the same key,
    the later item wins.
  */
  method DeepCopy<K(==, !new), V>(d: Dict<K, V>, keyCopy: K -> K, valueCopy: V -> V) returns (c: Dict<K, V>)
    requires d.Valid()
    ensures fresh(c) && c.Valid() && c.hash == d.hash
    ensures forall k :: c.Find(k) == LastLookup(Mapped(Flatten(d.buckets), keyCopy, valueCopy), k)
    ensures c.len == |KeySet(Mapped(Flatten(d.buckets), keyCopy, valueCopy))|
  {
    c := new Dict(d.hash);
    var items := d.Items();
    SetEach(c, Mapped(items, keyCopy, valueCopy));
  }

  /** With an injective key copy, the copy maps keyCopy(k) to valueCopy(v) for each item (k, v). */
  lemma DeepCopyMapping<K(!new), V>(d: Dict<K, V>, keyCopy: K -> K, valueCopy: V -> V)
    requires d.Valid() && Injective(keyCopy)
    ensures forall k :: LastLookup(Mapped(Flatten(d.buckets), keyCopy, valueCopy), keyCopy(k))
                        == if d.Find(k).None? then None else Some(valueCopy(d.Find(k).value))
    ensures |KeySet(Mapped(Flatten(d.buckets), keyCopy, valueCopy))| == d.len
  {
    FindIsLookup(d.buckets, d.hash);
    var items := Flatten(d.buckets);
    forall k
      ensures LastLookup(Mapped(items, keyCopy, valueCopy), keyCopy(k))
              == if d.Find(k).None? then None else Some(valueCopy(d.Find(k).value))
    {
      MappedLookup(items, keyCopy, valueCopy, k);
    }
    if items != [] {
      MappedLookup(items, keyCopy, valueCopy, items[0].0);
      UniqueKeySetSize(Mapped(items, keyCopy, valueCopy));
    }
  }

  /** dict_copy: a fresh dict with the same hash, the same len and the same mapping. */
  method Copy<K(==, !new), V>(d: Dict<K, V>) returns (c: Dict<K, V>)
    requires d.Valid()
    ensures fresh(c) && c.Valid() && c.hash == d.hash
    ensures c.len == d.len
    ensures forall k :: c.Find(k) == d.Find(k)
  {
    c := DeepCopy(d, k => k, v => v);
    var items := Flatten(d.buckets);
    assert Mapped(items, k => k, v => v) == items;
    FindIsLookup(d.buckets, d.hash);
    UniqueKeySetSize(items);
    forall k
      ensures c.Find(k) == d.Find(k)
    {
      LastLookupUnique(items, k);
    }
  }

  /** The "k:v" rendering of each item. */
  function ItemStrings<K, V>(ms: seq<(K, V)>, keyString: K -> string, valueString: V -> string): (r: seq<string>)
    ensures |r| == |ms|
    ensures forall i :: 0 <= i < |ms| ==> r[i] == keyString(ms[i].0) + ":" + valueString(ms[i].1)
  {
    seq(|ms|, i requires 0 <= i < |ms| => keyString(ms[i].0) + ":" + valueString(ms[i].1))
  }

  /** dict_string: "{", the "k:v" strings of the items separated by commas, then "}". */
  method String<K(==, !new), V>(d: Dict<K, V>, keyString: K -> string, valueString: V -> string) returns (res: string)
    ensures res == "{" + Str.Joined(ItemStrings(Flatten(d.buckets), keyString, valueString), ",") + "}"
    ensures Flatten(d.buckets) == [] ==> res == "{}"
  {
    var items := d.Items();
    ghost var strs := ItemStrings(items, keyString, valueString);
    var body := "";
    for i := 0 to |items|
      invariant body == Str.Joined(strs[..i], ",")
    {
      var entry := keyString(items[i].0) + ":" + valueString(items[i].1);
      assert entry == strs[i];
      if i != 0 {
        body := body + ",";
      }
      body := body + entry;
      assert strs[..i + 1] == strs[..i] + [entry];
      Str.JoinedSnoc(strs[..i], entry, ",");
    }
    assert strs[..|items|] == strs;
    res := "{" + body + "}";
  }
}
