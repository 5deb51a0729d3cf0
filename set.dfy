/**
  Model of set.c: a set is a dict whose stored value is always the same
  sentinel (DEFAULT_VALUE, here the unit value), so its elements are the
  dict's keys.
*/
module Sets {
  import opened Wrappers
  import opened Dicts
  import DictExtended

  class Set<E(==, !new)> {
    const dict: Dict<E, ()>

    ghost predicate Valid()
      reads this, dict
    {
      dict.Valid()
    }

    /** The elements of the set. */
    ghost function Elements(): set<E>
      reads this, dict
    {
      dict.Domain()
    }

    /** set_create: an empty set over a fresh dict with the given hash. */
    constructor(hash: E -> nat)
      ensures fresh(dict) && Valid() && dict.hash == hash
      ensures Elements() == {} && dict.len == 0
    {
      dict := new Dict(hash);
    }

    /** set_len: the number of elements. */
    function Len(): (n: nat)
      reads this, dict
      ensures Valid() ==> n == |Elements()|
    {
      DomainFacts(dict);
      dict.Len()
    }

    /** set_includes: whether dict_get finds e. */
    method Includes(e: E) returns (b: bool)
      ensures b == dict.Find(e).Some?
      ensures Valid() ==> (b <==> e in Elements())
    {
      DomainFacts(dict);
      var v := dict.Get(e);
      b := v.Some?;
    }

    /** set_to_list: the elements in the order of dict_keys, each once. */
    method ToList() returns (es: seq<E>)
      ensures es == Keys(Flatten(dict.buckets))
      ensures Valid() ==> |es| == |Elements()|
      ensures Valid() ==> forall i, j :: 0 <= i < j < |es| ==> es[i] != es[j]
      ensures Valid() ==> forall e :: e in es <==> e in Elements()
    {
      DomainFacts(dict);
      es := DictExtended.KeyList(dict);
    }

    /** set_add: store e under the sentinel. */
    method Add(e: E)
      requires Valid()
      modifies dict
      ensures Valid()
      ensures Elements() == old(Elements()) + {e}
      ensures dict.len == old(dict.len) + (if e in old(Elements()) then 0 else 1)
    {
      DomainFacts(dict);
      dict.Set(e, ());
      DomainFacts(dict);
    }

    /** set_remove: delete e and return the element that was stored, or None. */
    method Remove(e: E) returns (r: Option<E>)
      requires Valid()
      modifies dict
      ensures Valid()
      ensures Elements() == old(Elements()) - {e}
      ensures r == if e in old(Elements()) then Some(e) else None
      ensures dict.len == old(dict.len) - (if r.Some? then 1 else 0)
    {
      DomainFacts(dict);
      var item := dict.Del(e);
      DomainFacts(dict);
      r := if item.Some? then Some(item.value.0) else None;
    }
  }
}
