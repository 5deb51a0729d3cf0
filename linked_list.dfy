/**
  Model of linked_list.c: a circular doubly linked ring with a single `join`
  pointer.  The ghost sequence `links` lists the ring's links read from `join`
  along `next`; `Valid` is the ring well-formedness (every member's `next` and
  `prev` agree with that order, and the order wraps around).
*/
module LinkedLists {

  class Link<T> {
    var prev: Link?<T>
    var next: Link?<T>
    const value: T

    /** link_create: an unlinked link holding e. */
    constructor (e: T)
      ensures prev == null && next == null && value == e
    {
      prev := null;
      next := null;
      value := e;
    }
  }

  /** The position of x in a sequence that holds it. */
  ghost function IndexOf<X>(s: seq<X>, x: X): (k: nat)
    requires x in s
    ensures k < |s| && s[k] == x
    ensures forall j :: 0 <= j < k ==> s[j] != x
  {
    if s[0] == x then 0 else 1 + IndexOf(s[1..], x)
  }

  /** The string of a ring's values: each entry followed by an arrow. */
  function Arrows<T>(vs: seq<T>, entryString: T -> string): string
  {
    if vs == [] then "" else Arrows(vs[..|vs| - 1], entryString) + entryString(vs[|vs| - 1]) + "->"
  }

  /** The arrow rendering of a concatenation is the concatenation of the renderings. */
  lemma {:induction false} ArrowsAppend<T>(a: seq<T>, b: seq<T>, entryString: T -> string)
    ensures Arrows(a + b, entryString) == Arrows(a, entryString) + Arrows(b, entryString)
  {
    if b == [] {
      assert a + b == a;
    } else {
      var b' := b[..|b| - 1];
      assert (a + b)[..|a + b| - 1] == a + b';
      ArrowsAppend(a, b', entryString);
    }
  }

  /** No link occurs twice. */
  ghost predicate Distinct<T>(s: seq<Link<T>>)
  {
    forall i, j :: 0 <= i < j < |s| ==> s[i] != s[j]
  }

  /** Two disjoint sequences of distinct links concatenate to one. */
  lemma DistinctAppend<T>(a: seq<Link<T>>, b: seq<Link<T>>)
    requires Distinct(a) && Distinct(b)
    requires forall i, j :: 0 <= i < |a| && 0 <= j < |b| ==> a[i] != b[j]
    ensures Distinct(a + b)
  {
    forall i, j | 0 <= i < j < |a + b|
      ensures (a + b)[i] != (a + b)[j]
    {
      if j < |a| {
        assert (a + b)[i] == a[i] && (a + b)[j] == a[j];
      } else if i >= |a| {
        assert (a + b)[i] == b[i - |a|] && (a + b)[j] == b[j - |a|];
      } else {
        assert (a + b)[i] == a[i] && (a + b)[j] == b[j - |a|];
      }
    }
  }

  /** The values held by a sequence of links, in order. */
  function ValuesOf<T>(ls: seq<Link<T>>): seq<T>
  {
    seq(|ls|, i requires 0 <= i < |ls| => ls[i].value)
  }

  lemma ValuesOfRemove<T>(s: seq<Link<T>>, k: nat)
    requires k < |s|
    ensures ValuesOf(s[..k] + s[k + 1..]) == ValuesOf(s)[..k] + ValuesOf(s)[k + 1..]
  {
  }

  /**
    The links of s, in this order, form a ring: each one's next is the
    following link and its prev the preceding one, wrapping around.
  */
  ghost predicate Ring<T>(s: seq<Link<T>>)
    reads s
  {
    && Distinct(s)
    && (forall i :: 0 <= i < |s| - 1 ==> s[i].next == s[i + 1])
    && (forall i :: 0 < i < |s| ==> s[i].prev == s[i - 1])
    && (s != [] ==> s[|s| - 1].next == s[0] && s[0].prev == s[|s| - 1])
  }

  /** Bypass the k-th link of a ring of at least two: the rest is a ring again. */
  method Unlink<T>(ghost s: seq<Link<T>>, ghost k: nat, l: Link<T>)
    requires Ring(s) && |s| >= 2 && k < |s| && s[k] == l
    modifies s
    ensures Ring(s[..k] + s[k + 1..])
    ensures l.next == old(l.next) && l.prev == old(l.prev)
  {
    ghost var n := |s|;
    ghost var kn := if k < n - 1 then k + 1 else 0;
    ghost var kp := if k > 0 then k - 1 else n - 1;
    assert l.next == s[kn];
    assert l.prev == s[kp];
    var next := l.next;
    var prev := l.prev;
    next.prev := prev;
    prev.next := next;
    ghost var r := s[..k] + s[k + 1..];
    forall i | 0 <= i < |r| - 1
      ensures r[i].next == r[i + 1]
    {
      if i + 1 == k {
        assert r[i] == s[k - 1] && r[i + 1] == s[k + 1];
      } else if i >= k {
        assert r[i] == s[i + 1] && r[i + 1] == s[i + 2];
      } else {
        assert r[i] == s[i] && r[i + 1] == s[i + 1];
      }
    }
    forall i | 0 < i < |r|
      ensures r[i].prev == r[i - 1]
    {
      if i == k {
        assert r[i] == s[k + 1] && r[i - 1] == s[k - 1];
      } else if i > k {
        assert r[i] == s[i + 1] && r[i - 1] == s[i];
      } else {
        assert r[i] == s[i] && r[i - 1] == s[i - 1];
      }
    }
    assert r[|r| - 1].next == r[0] && r[0].prev == r[|r| - 1] by {
      if k == 0 {
        assert r[0] == s[1] && r[|r| - 1] == s[n - 1];
      } else if k == n - 1 {
        assert r[0] == s[0] && r[|r| - 1] == s[n - 2];
      } else {
        assert r[0] == s[0] && r[|r| - 1] == s[n - 1];
      }
    }
    forall i, j | 0 <= i < j < |r|
      ensures r[i] != r[j]
    {
      assert r[i] == s[if i < k then i else i + 1];
      assert r[j] == s[if j < k then j else j + 1];
    }
  }

  /** Join two disjoint non-empty rings into one that runs through a, then b. */
  method Splice<T>(ghost a: seq<Link<T>>, ghost b: seq<Link<T>>, head1: Link<T>, head2: Link<T>)
    requires Ring(a) && Ring(b) && a != [] && b != []
    requires head1 == a[0] && head2 == b[0]
    requires forall i, j :: 0 <= i < |a| && 0 <= j < |b| ==> a[i] != b[j]
    modifies a, b
    ensures Ring(a + b)
  {
    var tail1 := head1.prev;
    var tail2 := head2.prev;
    assert tail1 == a[|a| - 1] && tail2 == b[|b| - 1];
    DistinctAppend(a, b);
    head1.prev := tail2;
    tail2.next := head1;
    head2.prev := tail1;
    tail1.next := head2;
    forall i | 0 <= i < |a| + |b| - 1
      ensures (a + b)[i].next == (a + b)[i + 1]
    {
      if i < |a| - 1 {
        assert (a + b)[i] == a[i] && (a + b)[i + 1] == a[i + 1];
        assert a[i] != tail1 && a[i] != tail2;
      } else if i == |a| - 1 {
        assert (a + b)[i] == tail1 && (a + b)[i + 1] == head2;
      } else {
        assert (a + b)[i] == b[i - |a|] && (a + b)[i + 1] == b[i - |a| + 1];
        assert b[i - |a|] != tail1 && b[i - |a|] != tail2;
      }
    }
    forall i | 0 < i < |a| + |b|
      ensures (a + b)[i].prev == (a + b)[i - 1]
    {
      if i < |a| {
        assert (a + b)[i] == a[i] && (a + b)[i - 1] == a[i - 1];
        assert a[i] != head1 && a[i] != head2;
      } else if i == |a| {
        assert (a + b)[i] == head2 && (a + b)[i - 1] == tail1;
      } else {
        assert (a + b)[i] == b[i - |a|] && (a + b)[i - 1] == b[i - |a| - 1];
        assert b[i - |a|] != head1 && b[i - |a|] != head2;
      }
    }
  }

  /** In a ring of two or more, no link is its own successor. */
  lemma SuccessorDiffers<T>(s: seq<Link<T>>, k: nat)
    requires Ring(s) && 2 <= |s| && k < |s|
    ensures s[k].next != s[k]
  {
    var j := if k < |s| - 1 then k + 1 else 0;
    assert s[k].next == s[j];
  }

  class LinkedList<T> {
    var join: Link?<T>
    ghost var links: seq<Link<T>>

    ghost predicate Valid()
      reads this, links
    {
      && (join == null <==> links == [])
      && (links != [] ==> join == links[0])
      && Ring(links)
    }

    /** The values of the ring, read from join. */
    ghost function Values(): seq<T>
      reads this
    {
      ValuesOf(links)
    }

    /** linked_list_create: the empty ring (join == NULL). */
    constructor ()
      ensures Valid() && links == [] && join == null
    {
      join := null;
      links := [];
    }

    /** A header for the ring ls read from j. */
    constructor FromRing(j: Link?<T>, ghost ls: seq<Link<T>>)
      requires (j == null <==> ls == []) && (ls != [] ==> j == ls[0]) && Ring(ls)
      ensures Valid() && join == j && links == ls
    {
      join := j;
      links := ls;
    }

    /** linked_list_empty */
    predicate IsEmpty()
      reads this, links
      requires Valid()
      ensures IsEmpty() <==> |links| == 0
    {
      join == null
    }

    /** linked_list_len: walk the ring once from join, counting links. */
    method Len() returns (len: nat)
      requires Valid()
      ensures len == |links|
    {
      len := 0;
      if join != null {
        var curr := join;
        len := 1;
        curr := curr.next;
        while curr != join
          invariant 1 <= len <= |links|
          invariant curr == if len < |links| then links[len] else links[0]
          decreases |links| - len
        {
          len := len + 1;
          curr := curr.next;
        }
      }
    }

    /** linked_list_string: "->" followed by each entry's string and "->", from join. */
    method String(entryString: T -> string) returns (s: string)
      requires Valid()
      ensures s == "->" + Arrows(Values(), entryString)
    {
      s := "->";
      if join != null {
        var curr := join;
        var i := 0;
        while true
          invariant 0 <= i < |links| && curr == links[i]
          invariant s == "->" + Arrows(Values()[..i], entryString)
          decreases |links| - i
        {
          assert Values()[..i + 1][..i] == Values()[..i];
          s := s + entryString(curr.value) + "->";
          curr := curr.next;
          i := i + 1;
          assert i < |links| ==> curr == links[i] && links[i] != links[0];
          assert i == |links| ==> curr == links[0];
          if curr == join {
            assert Values()[..i] == Values();
            break;
          }
        }
      }
    }

    /**
      linked_list_push: insert a fresh link holding e just before join, i.e. at
      the end of the sequence read from join.  The first push makes a self-loop.
    */
    method Push(e: T) returns (l: Link<T>)
      requires Valid()
      modifies this, links
      ensures Valid() && fresh(l) && l.value == e
      ensures links == old(links) + [l]
      ensures Values() == old(Values()) + [e]
      ensures old(links) == [] ==> l.next == l && l.prev == l
    {
      l := new Link(e);
      if join == null {
        join := l;
        join.prev := l;
        join.next := l;
        links := [l];
      } else {
        var prev := join.prev;
        join.prev := l;
        l.next := join;
        prev.next := l;
        l.prev := prev;
        links := links + [l];
      }
    }

    /**
      linked_list_remove: unlink l, which must belong to the ring.  The others
      keep their order; if l was join, join moves to l's successor; removing the
      only link leaves the ring empty.
    */
    method Remove(l: Link<T>)
      requires Valid() && l in links
      modifies this, links
      ensures Valid()
      ensures links == old(links[..IndexOf(links, l)] + links[IndexOf(links, l) + 1..])
      ensures Values() == old(Values()[..IndexOf(links, l)] + Values()[IndexOf(links, l) + 1..])
      ensures |old(links)| == 1 ==> join == null
      ensures |old(links)| > 1 && old(join) == l ==> join == old(l.next)
      ensures old(join) != l ==> join == old(join)
    {
      ghost var k := IndexOf(links, l);
      ghost var n := |links|;
      ghost var ls := links;
      if n >= 2 {
        SuccessorDiffers(links, k);
      }
      if l.next == l {
        join := null;
        links := [];
      } else {
        var next := l.next;
        assert n >= 2;
        assert k == 0 ==> next == ls[1];
        if join == l {
          join := next;
        }
        links := ls[..k] + ls[k + 1..];
        ValuesOfRemove(ls, k);
        Unlink(ls, k, l);
        assert Ring(links);
      }
    }

    /**
      linked_list_combine: splice two rings with disjoint links at their seams.
      The result reads l1's values then l2's; two empty rings give an empty ring.
      The headers of l1 and l2 are left as they are, but their links now belong
      to the result.
    */
    static method Combine(l1: LinkedList<T>, l2: LinkedList<T>) returns (r: LinkedList<T>)
      requires l1.Valid() && l2.Valid()
      requires forall i, j :: 0 <= i < |l1.links| && 0 <= j < |l2.links| ==> l1.links[i] != l2.links[j]
      modifies l1.links, l2.links
      ensures fresh(r) && r.Valid()
      ensures r.links == old(l1.links) + old(l2.links)
      ensures r.Values() == old(l1.Values()) + old(l2.Values())
    {
      ghost var a := l1.links;
      ghost var b := l2.links;
      ghost var va := l1.Values();
      ghost var vb := l2.Values();
      if l2.join == null {
        assert a + b == a;
        r := new LinkedList.FromRing(l1.join, a);
      } else if l1.join == null {
        assert a + b == b;
        r := new LinkedList.FromRing(l2.join, b);
      } else {
        Splice(a, b, l1.join, l2.join);
        r := new LinkedList.FromRing(l1.join, a + b);
      }
    }
  }
}
