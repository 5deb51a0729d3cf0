/**
  Model of set_extended.c: set algebra, construction from a list, copies
  and rendering, each a loop over set_to_list that calls set_add on a fresh
  set.  Lists are sequences here.
*/
module SetExtended {
  import opened Sets
  import Dicts
  import ListExtended
  import Str

  /** The elements of a sequence, as a set. */
  ghost function Members<E>(es: seq<E>): set<E>
  {
    set i | 0 <= i < |es| :: es[i]
  }

  /** The loop of set_union and set_from_list: set_add each entry in order. */
  method AddEach<E(==, !new)>(s: Set<E>, es: seq<E>)
    requires s.Valid()
    modifies s.dict
    ensures s.Valid()
    ensures s.Elements() == old(s.Elements()) + Members(es)
  {
    for i := 0 to |es|
      invariant s.Valid()
      invariant s.Elements() == old(s.Elements()) + Members(es[..i])
    {
      assert Members(es[..i + 1]) == Members(es[..i]) + {es[i]} by {
        assert forall j :: 0 <= j < i ==> es[..i + 1][j] == es[..i][j];
      }
      s.Add(es[i]);
    }
    assert es[..|es|] == es;
  }

  /** The elements of a set's list are its elements. */
  lemma ListMembers<E(!new)>(s: Set<E>, es: seq<E>)
    requires s.Valid() && forall e :: e in es <==> e in s.Elements()
    ensures Members(es) == s.Elements()
  {
    assert forall e :: e in Members(es) <==> e in es;
  }

  /** set_union: x is in the result exactly when it is in s1 or in s2. */
  method Union<E(==, !new)>(s1: Set<E>, s2: Set<E>, hash: E -> nat) returns (s: Set<E>)
    requires s1.Valid() && s2.Valid()
    ensures fresh(s) && fresh(s.dict) && s.Valid() && s.dict.hash == hash
    ensures s.Elements() == s1.Elements() + s2.Elements()
  {
    s := new Set(hash);
    var l1 := s1.ToList();
    ListMembers(s1, l1);
    AddEach(s, l1);
    var l2 := s2.ToList();
    ListMembers(s2, l2);
    AddEach(s, l2);
  }

  /** set_intersection: x is in the result exactly when it is in s1 and in s2. */
  method Intersection<E(==, !new)>(s1: Set<E>, s2: Set<E>, hash: E -> nat) returns (s: Set<E>)
    requires s1.Valid() && s2.Valid()
    ensures fresh(s) && fresh(s.dict) && s.Valid() && s.dict.hash == hash
    ensures s.Elements() == s1.Elements() * s2.Elements()
  {
    s := new Set(hash);
    var l1 := s1.ToList();
    ListMembers(s1, l1);
    for i := 0 to |l1|
      invariant fresh(s.dict) && s.Valid()
      invariant s.Elements() == Members(l1[..i]) * s2.Elements()
    {
      assert Members(l1[..i + 1]) == Members(l1[..i]) + {l1[i]} by {
        assert forall j :: 0 <= j < i ==> l1[..i + 1][j] == l1[..i][j];
      }
      var inBoth := s2.Includes(l1[i]);
      if inBoth {
        s.Add(l1[i]);
      }
    }
    assert l1[..|l1|] == l1;
  }

  /** set_difference: x is in the result exactly when it is in s1 and not in s2. */
  method Difference<E(==, !new)>(s1: Set<E>, s2: Set<E>, hash: E -> nat) returns (s: Set<E>)
    requires s1.Valid() && s2.Valid()
    ensures fresh(s) && fresh(s.dict) && s.Valid() && s.dict.hash == hash
    ensures s.Elements() == s1.Elements() - s2.Elements()
  {
    s := new Set(hash);
    var l1 := s1.ToList();
    ListMembers(s1, l1);
    for i := 0 to |l1|
      invariant fresh(s.dict) && s.Valid()
      invariant s.Elements() == Members(l1[..i]) - s2.Elements()
    {
      assert Members(l1[..i + 1]) == Members(l1[..i]) + {l1[i]} by {
        assert forall j :: 0 <= j < i ==> l1[..i + 1][j] == l1[..i][j];
      }
      var inS2 := s2.Includes(l1[i]);
      if !inS2 {
        s.Add(l1[i]);
      }
    }
    assert l1[..|l1|] == l1;
  }

  /** set_from_list: the distinct entries of the list. */
  method FromList<E(==, !new)>(es: seq<E>, hash: E -> nat) returns (s: Set<E>)
    ensures fresh(s) && fresh(s.dict) && s.Valid() && s.dict.hash == hash
    ensures s.Elements() == Members(es)
    ensures s.Len() == |Members(es)|
  {
    s := new Set(hash);
    AddEach(s, es);
  }

  /** set_copy: a fresh set with the same hash and the same elements. */
  method Copy<E(==, !new)>(s: Set<E>) returns (c: Set<E>)
    requires s.Valid()
    ensures fresh(c) && fresh(c.dict) && c.Valid() && c.dict.hash == s.dict.hash
    ensures c.Elements() == s.Elements() && c.Len() == s.Len()
  {
    var es := s.ToList();
    ListMembers(s, es);
    c := FromList(es, s.dict.hash);
  }

  /** The entries with entryCopy applied, as list_deep_copy builds them. */
  function Copied<E>(es: seq<E>, entryCopy: E -> E): (r: seq<E>)
    ensures |r| == |es| && forall i :: 0 <= i < |es| ==> r[i] == entryCopy(es[i])
  {
    seq(|es|, i requires 0 <= i < |es| => entryCopy(es[i]))
  }

  /** set_deep_copy: a fresh set with the same hash holding the copy of every element. */
  method DeepCopy<E(==, !new)>(s: Set<E>, entryCopy: E -> E) returns (c: Set<E>)
    requires s.Valid()
    ensures fresh(c) && fresh(c.dict) && c.Valid() && c.dict.hash == s.dict.hash
    ensures c.Elements() == set e | e in s.Elements() :: entryCopy(e)
  {
    var es := s.ToList();
    var copied := Copied(es, entryCopy);
    c := FromList(copied, s.dict.hash);
    forall x
      ensures x in Members(copied) <==> x in set e | e in s.Elements() :: entryCopy(e)
    {
      if x in Members(copied) {
        var i :| 0 <= i < |copied| && copied[i] == x;
        assert es[i] in es;
      }
      if x in set e | e in s.Elements() :: entryCopy(e) {
        var e :| e in s.Elements() && entryCopy(e) == x;
        var i :| 0 <= i < |es| && es[i] == e;
        assert copied[i] == x;
      }
    }
  }

  /** set_string: "{", the entry strings in set_to_list order separated by commas, then "}". */
  method String<E(==, !new)>(s: Set<E>, entryString: E -> string) returns (res: string)
    ensures res == "{" + Str.Joined(ListExtended.Rendered(Dicts.Keys(Dicts.Flatten(s.dict.buckets)), entryString), ",") + "}"
  {
    var es := s.ToList();
    ghost var strs := ListExtended.Rendered(es, entryString);
    var body := "";
    for i := 0 to |es|
      invariant body == Str.Joined(strs[..i], ",")
    {
      var eStr := entryString(es[i]);
      if i != 0 {
        body := body + ",";
      }
      body := body + eStr;
      assert strs[..i + 1] == strs[..i] + [eStr];
      Str.JoinedSnoc(strs[..i], eStr, ",");
    }
    assert strs[..|es|] == strs;
    res := "{" + body + "}";
  }
}
