/**
  Model of heap.c: a Fibonacci heap of (key, value) items ordered by a
  comparator, with insert, peek-min, delete-min, decrease-key, meld and the
  iterator that hands out node handles.

  A heap node is a `Tree` value: its item, its mark, its degree and its
  children in the order of the children ring read from its join.  The
  parent pointer and the parent_children_link are implicit in where a tree
  sits.  Node identity (the heap_node_t pointer that decrease-key takes) is
  a `NodeRef` object.  The heap's forest ring is the sequence of root trees.
*/
module Heaps {
  import opened Wrappers
  import opened Order
  import Utils

  /** The identity of a heap node, the handle the iterator returns. */
  class NodeRef {
    constructor ()
    {
    }
  }

  /** What a node carries apart from its links: its identity and its item. */
  datatype NodeItem<K, V> = NodeItem(ref: NodeRef, key: K, value: V)

  /** A node and, below it, its children in ring order. */
  datatype Tree<K, V> = Node(ref: NodeRef, key: K, value: V, mark: bool, degree: nat, children: seq<Tree<K, V>>)
  {
    function Item(): NodeItem<K, V>
    {
      NodeItem(ref, key, value)
    }
  }

  // ---------------------------------------------------------------------
  // Sequence facts, stated once for any element type
  // ---------------------------------------------------------------------

  lemma SplitAt<T>(s: seq<T>, i: nat)
    requires i < |s|
    ensures s == s[..i] + [s[i]] + s[i + 1..]
  {
  }

  lemma UpdateAt<T>(s: seq<T>, i: nat, x: T)
    requires i < |s|
    ensures s[i := x] == s[..i] + [x] + s[i + 1..]
    ensures s[i := x][..i] == s[..i] && s[i := x][i + 1..] == s[i + 1..]
  {
  }

  lemma ConsAppend<T>(a: seq<T>, b: seq<T>)
    ensures a == [] ==> a + b == b
    ensures a != [] ==> (a + b)[0] == a[0] && (a + b)[1..] == a[1..] + b
  {
  }

  lemma HeadTail<T>(a: seq<T>)
    requires a != []
    ensures a == [a[0]] + a[1..] && [a[0]][1..] == []
  {
  }

  lemma Snoc<T>(a: seq<T>, x: T)
    ensures |a + [x]| == |a| + 1 && (a + [x])[|a|] == x
    ensures forall j :: 0 <= j < |a| ==> (a + [x])[j] == a[j]
  {
  }

  lemma Cancel<T>(x: T, p: multiset<T>, q: multiset<T>)
    requires multiset{x} + p == multiset{x} + q
    ensures p == q
  {
    forall y
      ensures p[y] == q[y]
    {
      assert (multiset{x} + p)[y] == (multiset{x} + q)[y];
    }
  }

  lemma TakeSnoc<T>(s: seq<T>, i: nat)
    requires i < |s|
    ensures s[..i + 1] == s[..i] + [s[i]]
  {
  }

  lemma TakeAll<T>(s: seq<T>)
    ensures s[..|s|] == s
  {
  }

  lemma TakeAppend<T>(a: seq<T>, b: seq<T>)
    ensures (a + b)[..|a|] == a
  {
  }

  lemma RemoveAt<T>(s: seq<T>, j: nat)
    requires j < |s|
    ensures |s[..j] + s[j + 1..]| == |s| - 1
    ensures forall q :: 0 <= q < |s| - 1 ==> (s[..j] + s[j + 1..])[q] == if q < j then s[q] else s[q + 1]
  {
  }

  lemma RemoveBeforeAppend<T>(a: seq<T>, u: seq<T>, m: nat)
    requires m < |a|
    ensures (a + u)[..m] + (a + u)[m + 1..] == a[..m] + a[m + 1..] + u
  {
    assert (a + u)[..m] == a[..m];
    assert (a + u)[m + 1..] == a[m + 1..] + u;
  }

  // ---------------------------------------------------------------------
  // The nodes of a forest in depth-first order
  // ---------------------------------------------------------------------

  /** Every node of the forest: each root, then its subtree, then the next root. */
  ghost function Preorder<K, V>(ts: seq<Tree<K, V>>): seq<NodeItem<K, V>>
    decreases ts
  {
    if ts == [] then [] else [ts[0].Item()] + Preorder(ts[0].children) + Preorder(ts[1..])
  }

  lemma {:induction false} PreorderAppend<K, V>(a: seq<Tree<K, V>>, b: seq<Tree<K, V>>)
    ensures Preorder(a + b) == Preorder(a) + Preorder(b)
    decreases a
  {
    ConsAppend(a, b);
    if a != [] {
      PreorderAppend(a[1..], b);
    }
  }

  lemma PreorderOne<K, V>(t: Tree<K, V>)
    ensures Preorder([t]) == [t.Item()] + Preorder(t.children)
  {
    HeadTail([t]);
  }

  /** The forest read as the trees before i, tree i, and the trees after it. */
  lemma PreorderSplit<K, V>(ts: seq<Tree<K, V>>, i: nat)
    requires i < |ts|
    ensures Preorder(ts) == Preorder(ts[..i]) + Preorder([ts[i]]) + Preorder(ts[i + 1..])
  {
    SplitAt(ts, i);
    PreorderAppend(ts[..i] + [ts[i]], ts[i + 1..]);
    PreorderAppend(ts[..i], [ts[i]]);
  }

  /** A forest with a node has a node in its depth-first order. */
  lemma PreorderNonEmpty<K, V>(ts: seq<Tree<K, V>>)
    ensures ts != [] <==> Preorder(ts) != []
  {
  }

  /** Every reference a forest holds was allocated. */
  lemma {:induction false} PreorderAllocated<K, V>(ts: seq<Tree<K, V>>)
    ensures forall e :: e in Preorder(ts) ==> allocated(e.ref)
    decreases ts
  {
    if ts != [] {
      PreorderAllocated(ts[0].children);
      PreorderAllocated(ts[1..]);
    }
  }

  // ---------------------------------------------------------------------
  // Node identities
  // ---------------------------------------------------------------------

  ghost function RefsOf<K, V>(es: seq<NodeItem<K, V>>): (rs: seq<NodeRef>)
    ensures |rs| == |es| && forall i :: 0 <= i < |es| ==> rs[i] == es[i].ref
  {
    seq(|es|, i requires 0 <= i < |es| => es[i].ref)
  }

  lemma RefsOfAppend<K, V>(a: seq<NodeItem<K, V>>, b: seq<NodeItem<K, V>>)
    ensures RefsOf(a + b) == RefsOf(a) + RefsOf(b)
  {
    assert forall i :: 0 <= i < |a + b| ==> RefsOf(a + b)[i] == (RefsOf(a) + RefsOf(b))[i];
  }

  /** The identities of the nodes of a forest, with their multiplicity. */
  ghost function Refs<K, V>(ts: seq<Tree<K, V>>): multiset<NodeRef>
  {
    multiset(RefsOf(Preorder(ts)))
  }

  /** No node sits at two places of the forest. */
  ghost predicate NoNodeTwice<K, V>(ts: seq<Tree<K, V>>)
  {
    forall r :: r in Refs(ts) ==> Refs(ts)[r] <= 1
  }

  lemma RefsUnfold<K, V>(ts: seq<Tree<K, V>>)
    requires ts != []
    ensures Refs(ts) == multiset{ts[0].ref} + Refs(ts[0].children) + Refs(ts[1..])
  {
    RefsOfAppend([ts[0].Item()] + Preorder(ts[0].children), Preorder(ts[1..]));
    RefsOfAppend([ts[0].Item()], Preorder(ts[0].children));
  }

  /** Items with the same multiplicities carry identities with the same multiplicities. */
  lemma {:induction false} RefsFollow<K, V>(a: seq<NodeItem<K, V>>, b: seq<NodeItem<K, V>>)
    requires multiset(a) == multiset(b)
    ensures multiset(RefsOf(a)) == multiset(RefsOf(b))
    decreases |a|
  {
    if a == [] {
      assert |multiset(b)| == 0;
    } else {
      var x := a[0];
      assert x in multiset(b);
      var i :| 0 <= i < |b| && b[i] == x;
      HeadTail(a);
      SplitAt(b, i);
      assert multiset(a) == multiset{x} + multiset(a[1..]);
      assert multiset(b) == multiset(b[..i]) + multiset{x} + multiset(b[i + 1..]);
      assert multiset(b[..i] + b[i + 1..]) == multiset(b[..i]) + multiset(b[i + 1..]);
      Cancel(x, multiset(a[1..]), multiset(b[..i] + b[i + 1..]));
      RefsFollow(a[1..], b[..i] + b[i + 1..]);
      RefsOfAppend([x], a[1..]);
      RefsOfAppend(b[..i] + [x], b[i + 1..]);
      RefsOfAppend(b[..i], [x]);
      RefsOfAppend(b[..i], b[i + 1..]);
    }
  }

  /** Swapping one item for another with the same identity keeps the identities. */
  lemma RefsAfterSwap<K, V>(a: seq<NodeItem<K, V>>, b: seq<NodeItem<K, V>>, x: NodeItem<K, V>, y: NodeItem<K, V>)
    requires multiset(a) + multiset{x} == multiset(b) + multiset{y} && x.ref == y.ref
    ensures multiset(RefsOf(a)) == multiset(RefsOf(b))
  {
    assert multiset(a + [x]) == multiset(a) + multiset{x};
    assert multiset(b + [y]) == multiset(b) + multiset{y};
    RefsFollow(a + [x], b + [y]);
    RefsOfAppend(a, [x]);
    RefsOfAppend(b, [y]);
    assert multiset(RefsOf(a + [x])) == multiset(RefsOf(a)) + multiset{x.ref};
    assert multiset(RefsOf(b + [y])) == multiset(RefsOf(b)) + multiset{x.ref};
    forall r
      ensures multiset(RefsOf(a))[r] == multiset(RefsOf(b))[r]
    {
      assert (multiset(RefsOf(a)) + multiset{x.ref})[r] == (multiset(RefsOf(b)) + multiset{x.ref})[r];
    }
  }

  /** Removing one item removes its identity once. */
  lemma RefsAfterRemove<K, V>(a: seq<NodeItem<K, V>>, b: seq<NodeItem<K, V>>, x: NodeItem<K, V>)
    requires multiset(a) + multiset{x} == multiset(b)
    ensures multiset(RefsOf(a)) + multiset{x.ref} == multiset(RefsOf(b))
  {
    RefsFollow(a + [x], b);
    RefsOfAppend(a, [x]);
  }

  /** Two places sharing an identity make it count twice. */
  lemma CountsTwice<K, V>(es: seq<NodeItem<K, V>>, i: nat, j: nat)
    requires i < j < |es| && es[i].ref == es[j].ref
    ensures multiset(RefsOf(es))[es[i].ref] >= 2
  {
    var rs := RefsOf(es);
    TakeAll(rs);
    assert rs == rs[..j] + rs[j..];
    assert rs[i] in rs[..j];
    assert rs[j] in rs[j..];
  }

  /** Where no node repeats, the identity settles the item. */
  lemma {:induction false} OneItemPerNode<K, V>(ts: seq<Tree<K, V>>, a: NodeItem<K, V>, b: NodeItem<K, V>)
    requires NoNodeTwice(ts)
    requires a in Preorder(ts) && b in Preorder(ts) && a.ref == b.ref
    ensures a == b
  {
    var es := Preorder(ts);
    assert Refs(ts) == multiset(RefsOf(es));
    var i :| 0 <= i < |es| && es[i] == a;
    var j :| 0 <= j < |es| && es[j] == b;
    if i < j {
      CountsTwice(es, i, j);
    } else if j < i {
      CountsTwice(es, j, i);
    }
  }

  // ---------------------------------------------------------------------
  // Finding a node
  // ---------------------------------------------------------------------

  /** The first tree of the forest that holds node n, if any. */
  function Locate<K, V>(ts: seq<Tree<K, V>>, n: NodeRef): (r: Option<nat>)
    ensures r.Some? ==> r.value < |ts| && (ts[r.value].ref == n || n in Refs(ts[r.value].children))
    ensures r.Some? <==> n in Refs(ts)
    decreases ts
  {
    if ts == [] then None
    else
      RefsUnfold(ts);
      if ts[0].ref == n || Locate(ts[0].children, n).Some? then Some(0)
      else
        match Locate(ts[1..], n)
        case None => None
        case Some(i) => Some(i + 1)
  }

  /** The item of node n, found where Locate finds it. */
  ghost function NodeIn<K, V>(ts: seq<Tree<K, V>>, n: NodeRef): (e: NodeItem<K, V>)
    requires n in Refs(ts)
    ensures e.ref == n && e in Preorder(ts)
    decreases ts
  {
    var i := Locate(ts, n).value;
    PreorderSplit(ts, i);
    PreorderOne(ts[i]);
    if ts[i].ref == n then ts[i].Item() else NodeIn(ts[i].children, n)
  }

  /** Where no node repeats, NodeIn gives the one item with that identity. */
  lemma NodeInIs<K, V>(ts: seq<Tree<K, V>>, e: NodeItem<K, V>)
    requires NoNodeTwice(ts) && e in Preorder(ts)
    ensures e.ref in Refs(ts) && NodeIn(ts, e.ref) == e
  {
    var es := Preorder(ts);
    var i :| 0 <= i < |es| && es[i] == e;
    assert RefsOf(es)[i] == e.ref;
    OneItemPerNode(ts, NodeIn(ts, e.ref), e);
  }

  // ---------------------------------------------------------------------
  // Heap order
  // ---------------------------------------------------------------------

  /**
    A well-formed subtree: each node's degree counts its children, and no
    child's key orders before its parent's.
  */
  ghost predicate WellFormed<K, V>(t: Tree<K, V>, cmp: (K, K) -> int)
    decreases t
  {
    && t.degree == |t.children|
    && forall j :: 0 <= j < |t.children| ==> cmp(t.key, t.children[j].key) >= 0 && WellFormed(t.children[j], cmp)
  }

  ghost predicate Forest<K, V>(ts: seq<Tree<K, V>>, cmp: (K, K) -> int)
  {
    forall i :: 0 <= i < |ts| ==> WellFormed(ts[i], cmp)
  }

  /** The item of root m, none when there is no such root. */
  function RootItem<K, V>(ts: seq<Tree<K, V>>, m: Option<nat>): Option<(K, V)>
  {
    if m.None? || m.value >= |ts| then None else Some((ts[m.value].key, ts[m.value].value))
  }

  /** Root m orders no later than any root. */
  ghost predicate IsMinRoot<K, V>(ts: seq<Tree<K, V>>, m: nat, cmp: (K, K) -> int)
  {
    m < |ts| && forall i :: 0 <= i < |ts| ==> cmp(ts[m].key, ts[i].key) >= 0
  }

  /** A key no later than every root is no later than every node. */
  lemma {:induction false} Bound<K(!new), V>(ts: seq<Tree<K, V>>, b: K, cmp: (K, K) -> int)
    requires IsTotalOrder(cmp)
    requires forall i :: 0 <= i < |ts| ==> WellFormed(ts[i], cmp) && cmp(b, ts[i].key) >= 0
    ensures forall e :: e in Preorder(ts) ==> cmp(b, e.key) >= 0
    decreases ts
  {
    if ts != [] {
      var t := ts[0];
      forall j | 0 <= j < |t.children|
        ensures WellFormed(t.children[j], cmp) && cmp(b, t.children[j].key) >= 0
      {
        Transitive(cmp, b, t.key, t.children[j].key);
      }
      Bound(t.children, b, cmp);
      Bound(ts[1..], b, cmp);
    }
  }

  /** The minimum root is an item of the heap whose key orders no later than any other. */
  lemma MinRootLeast<K(!new), V>(ts: seq<Tree<K, V>>, m: nat, cmp: (K, K) -> int)
    requires m < |ts|
    ensures ts[m].Item() in Preorder(ts)
    ensures IsTotalOrder(cmp) && Forest(ts, cmp) && IsMinRoot(ts, m, cmp) ==>
              forall e :: e in Preorder(ts) ==> cmp(ts[m].key, e.key) >= 0
  {
    PreorderSplit(ts, m);
    PreorderOne(ts[m]);
    if IsTotalOrder(cmp) && Forest(ts, cmp) && IsMinRoot(ts, m, cmp) {
      Bound(ts, ts[m].key, cmp);
    }
  }

  /** _heap_update_min: the node becomes the minimum when there is none or when its key orders strictly first. */
  function NextMin<K, V>(ts: seq<Tree<K, V>>, m: Option<nat>, k: K, i: nat, cmp: (K, K) -> int): Option<nat>
    requires m.Some? ==> m.value < |ts|
  {
    if m.None? || cmp(ts[m.value].key, k) < 0 then Some(i) else m
  }

  /**
    If root m was least among the first `upto` roots other than i, then after
    offering root i the new minimum is least among all of them.
  */
  lemma NextMinLeast<K(!new), V>(ts: seq<Tree<K, V>>, m: Option<nat>, i: nat, upto: nat, cmp: (K, K) -> int)
    requires IsTotalOrder(cmp) && i < upto <= |ts|
    requires m.None? ==> i == 0 && upto == 1
    requires m.Some? ==> m.value < upto && forall j :: 0 <= j < upto && j != i ==> cmp(ts[m.value].key, ts[j].key) >= 0
    ensures NextMin(ts, m, ts[i].key, i, cmp).Some?
    ensures var r := NextMin(ts, m, ts[i].key, i, cmp).value;
            r < upto && forall j :: 0 <= j < upto ==> cmp(ts[r].key, ts[j].key) >= 0
  {
    Reflexive(cmp, ts[i].key);
    if m.Some? && cmp(ts[m.value].key, ts[i].key) < 0 {
      forall j | 0 <= j < upto && j != i
        ensures cmp(ts[i].key, ts[j].key) >= 0
      {
        Transitive(cmp, ts[i].key, ts[m.value].key, ts[j].key);
      }
    }
  }

  // ---------------------------------------------------------------------
  // Merging trees of equal degree (_heap_merge)
  // ---------------------------------------------------------------------

  /** The root whose key orders no later becomes the parent, N1 on a tie; the child goes last in its ring. */
  function Merge<K, V>(n1: Tree<K, V>, n2: Tree<K, V>, cmp: (K, K) -> int): Tree<K, V>
    requires n1.degree == n2.degree
  {
    if cmp(n2.key, n1.key) <= 0 then n1.(children := n1.children + [n2], degree := n1.degree + 1)
    else n2.(children := n2.children + [n1], degree := n2.degree + 1)
  }

  /** p adopting c as its last child: p's nodes, then c's. */
  lemma AdoptNodes<K, V>(p: Tree<K, V>, c: Tree<K, V>)
    ensures Preorder([p.(children := p.children + [c], degree := p.degree + 1)]) == Preorder([p]) + Preorder([c])
  {
    PreorderOne(p.(children := p.children + [c], degree := p.degree + 1));
    PreorderOne(p);
    PreorderAppend(p.children, [c]);
  }

  lemma AdoptWellFormed<K, V>(p: Tree<K, V>, c: Tree<K, V>, cmp: (K, K) -> int)
    requires WellFormed(p, cmp) && WellFormed(c, cmp) && cmp(p.key, c.key) >= 0
    ensures WellFormed(p.(children := p.children + [c], degree := p.degree + 1), cmp)
  {
    Snoc(p.children, c);
  }

  lemma MergeSound<K(!new), V>(n1: Tree<K, V>, n2: Tree<K, V>, cmp: (K, K) -> int)
    requires IsTotalOrder(cmp) && WellFormed(n1, cmp) && WellFormed(n2, cmp) && n1.degree == n2.degree
    ensures WellFormed(Merge(n1, n2, cmp), cmp)
    ensures Merge(n1, n2, cmp).degree == n1.degree + 1
    ensures Merge(n1, n2, cmp).Item() in {n1.Item(), n2.Item()}
    ensures cmp(Merge(n1, n2, cmp).key, n1.key) >= 0 && cmp(Merge(n1, n2, cmp).key, n2.key) >= 0
    ensures multiset(Preorder([Merge(n1, n2, cmp)])) == multiset(Preorder([n1])) + multiset(Preorder([n2]))
    ensures cmp(n2.key, n1.key) <= 0 ==>
              Merge(n1, n2, cmp).Item() == n1.Item() && Merge(n1, n2, cmp).mark == n1.mark
              && Merge(n1, n2, cmp).children == n1.children + [n2]
    ensures cmp(n2.key, n1.key) > 0 ==>
              Merge(n1, n2, cmp).Item() == n2.Item() && Merge(n1, n2, cmp).mark == n2.mark
              && Merge(n1, n2, cmp).children == n2.children + [n1]
  {
    var m := Merge(n1, n2, cmp);
    Reflexive(cmp, n1.key);
    Reflexive(cmp, n2.key);
    Total(cmp, n1.key, n2.key);
    if cmp(n2.key, n1.key) <= 0 {
      assert m == n1.(children := n1.children + [n2], degree := n1.degree + 1);
      AdoptNodes(n1, n2);
      AdoptWellFormed(n1, n2, cmp);
    } else {
      assert m == n2.(children := n2.children + [n1], degree := n2.degree + 1);
      AdoptNodes(n2, n1);
      AdoptWellFormed(n2, n1, cmp);
      BagCommute(multiset(Preorder([n2])), multiset(Preorder([n1])));
    }
  }

  lemma BagCommute<T>(a: multiset<T>, b: multiset<T>)
    ensures a + b == b + a
  {
    assert forall e :: (a + b)[e] == (b + a)[e];
  }

  // ---------------------------------------------------------------------
  // The scratch array of delete-min (trees by degree)
  // ---------------------------------------------------------------------

  /** The tree in a slot, as a sequence of zero or one trees. */
  function Slot<T>(o: Option<T>): (s: seq<T>)
    ensures o.None? ==> s == []
    ensures o.Some? ==> s == [o.value]
  {
    if o.Some? then [o.value] else []
  }

  /** The trees of the scratch array in index order, as the rebuilt forest lists them. */
  ghost function ScratchTrees<K, V>(s: seq<Option<Tree<K, V>>>): seq<Tree<K, V>>
  {
    if s == [] then [] else Slot(s[0]) + ScratchTrees(s[1..])
  }

  lemma {:induction false} ScratchAppend<K, V>(a: seq<Option<Tree<K, V>>>, b: seq<Option<Tree<K, V>>>)
    ensures ScratchTrees(a + b) == ScratchTrees(a) + ScratchTrees(b)
    decreases a
  {
    ConsAppend(a, b);
    if a != [] {
      ScratchAppend(a[1..], b);
    }
  }

  lemma {:induction false} ScratchEmpty<K, V>(s: seq<Option<Tree<K, V>>>)
    requires forall d :: 0 <= d < |s| ==> s[d].None?
    ensures ScratchTrees(s) == []
    decreases s
  {
    if s != [] {
      ScratchEmpty(s[1..]);
    }
  }

  /** The scratch trees: those before slot d, slot d's, and those after. */
  lemma ScratchSplit<K, V>(s: seq<Option<Tree<K, V>>>, d: nat)
    requires d < |s|
    ensures ScratchTrees(s) == ScratchTrees(s[..d]) + Slot(s[d]) + ScratchTrees(s[d + 1..])
  {
    SplitAt(s, d);
    HeadTail([s[d]]);
    ScratchAppend(s[..d] + [s[d]], s[d + 1..]);
    ScratchAppend(s[..d], [s[d]]);
    assert ScratchTrees([s[d]]) == Slot(s[d]);
  }

  /** The nodes of three forests side by side. */
  lemma PreorderBag3<K, V>(a: seq<Tree<K, V>>, b: seq<Tree<K, V>>, c: seq<Tree<K, V>>)
    ensures multiset(Preorder(a + b + c)) == multiset(Preorder(a)) + multiset(Preorder(b)) + multiset(Preorder(c))
  {
    PreorderAppend(a + b, c);
    PreorderAppend(a, b);
  }

  /** Replacing slot d swaps the nodes of the old slot for those of the new one. */
  lemma ScratchSet<K, V>(s: seq<Option<Tree<K, V>>>, d: nat, x: Option<Tree<K, V>>)
    requires d < |s|
    ensures multiset(Preorder(ScratchTrees(s[d := x]))) + multiset(Preorder(Slot(s[d])))
         == multiset(Preorder(ScratchTrees(s))) + multiset(Preorder(Slot(x)))
  {
    ScratchSplit(s, d);
    ScratchSplit(s[d := x], d);
    UpdateAt(s, d, x);
    PreorderBag3(ScratchTrees(s[..d]), Slot(s[d]), ScratchTrees(s[d + 1..]));
    PreorderBag3(ScratchTrees(s[..d]), Slot(x), ScratchTrees(s[d + 1..]));
  }

  /** Slot d holds a well-formed tree of degree d, or nothing. */
  ghost predicate ScratchOk<K, V>(s: seq<Option<Tree<K, V>>>, cmp: (K, K) -> int)
  {
    forall d :: 0 <= d < |s| && s[d].Some? ==> s[d].value.degree == d && WellFormed(s[d].value, cmp)
  }

  /**
    _heap_merge_up: merge the tree with the tree of its degree until its degree's
    slot is empty, then store it there.  The scratch array grows when a degree
    passes its end.
  */
  method MergeUp<K(!new), V>(s0: seq<Option<Tree<K, V>>>, t: Tree<K, V>, cmp: (K, K) -> int) returns (s: seq<Option<Tree<K, V>>>)
    requires IsTotalOrder(cmp) && ScratchOk(s0, cmp) && WellFormed(t, cmp)
    ensures ScratchOk(s, cmp)
    ensures multiset(Preorder(ScratchTrees(s))) == multiset(Preorder(ScratchTrees(s0))) + multiset(Preorder([t]))
    ensures |s| >= |s0|
  {
    s := s0;
    var curr := t;
    while curr.degree < |s| && s[curr.degree].Some?
      invariant ScratchOk(s, cmp) && WellFormed(curr, cmp)
      invariant |s| == |s0|
      invariant multiset(Preorder(ScratchTrees(s))) + multiset(Preorder([curr]))
             == multiset(Preorder(ScratchTrees(s0))) + multiset(Preorder([t]))
      decreases |s| - curr.degree
    {
      var d := curr.degree;
      var prev := s[d].value;
      MergeUpStep(s, curr, cmp);
      s := s[d := None];
      curr := Merge(curr, prev, cmp);
    }
    if curr.degree >= |s| {
      var pad: seq<Option<Tree<K, V>>> := seq(curr.degree + 1 - |s|, _ => None);
      PadScratch(s, pad, cmp);
      s := s + pad;
    }
    StoreTree(s, curr, cmp);
    s := s[curr.degree := Some(curr)];
  }

  /** One round of the merge-up loop: the tree of the same degree leaves its slot and joins curr. */
  lemma MergeUpStep<K(!new), V>(s: seq<Option<Tree<K, V>>>, curr: Tree<K, V>, cmp: (K, K) -> int)
    requires IsTotalOrder(cmp) && ScratchOk(s, cmp) && WellFormed(curr, cmp)
    requires curr.degree < |s| && s[curr.degree].Some?
    ensures ScratchOk(s[curr.degree := None], cmp)
    ensures var m := Merge(curr, s[curr.degree].value, cmp);
            && WellFormed(m, cmp) && m.degree == curr.degree + 1
            && multiset(Preorder(ScratchTrees(s[curr.degree := None]))) + multiset(Preorder([m]))
               == multiset(Preorder(ScratchTrees(s))) + multiset(Preorder([curr]))
  {
    var d := curr.degree;
    var prev := s[d].value;
    ScratchOkSet(s, d, None, cmp);
    ScratchSet(s, d, None);
    assert Slot(s[d]) == [prev];
    MergeSound(curr, prev, cmp);
    BagTrade(multiset(Preorder(ScratchTrees(s[d := None]))), multiset(Preorder(ScratchTrees(s))),
             multiset(Preorder([prev])), multiset(Preorder([curr])), multiset(Preorder([Merge(curr, prev, cmp)])));
  }

  /** a plus p is b; trading p for m, which is c plus p, gives b plus c. */
  lemma BagTrade<T>(a: multiset<T>, b: multiset<T>, p: multiset<T>, c: multiset<T>, m: multiset<T>)
    requires a + p == b && m == c + p
    ensures a + m == b + c
  {
    forall e
      ensures (a + m)[e] == (b + c)[e]
    {
      assert (a + p)[e] == b[e];
    }
  }

  /** Storing a tree in the empty slot of its degree adds its nodes. */
  lemma StoreTree<K, V>(s: seq<Option<Tree<K, V>>>, t: Tree<K, V>, cmp: (K, K) -> int)
    requires ScratchOk(s, cmp) && WellFormed(t, cmp) && t.degree < |s| && s[t.degree].None?
    ensures ScratchOk(s[t.degree := Some(t)], cmp)
    ensures multiset(Preorder(ScratchTrees(s[t.degree := Some(t)]))) == multiset(Preorder(ScratchTrees(s))) + multiset(Preorder([t]))
  {
    ScratchOkSet(s, t.degree, Some(t), cmp);
    ScratchSet(s, t.degree, Some(t));
    assert Slot(s[t.degree]) == [];
  }

  /** Storing a well-formed tree of degree d (or nothing) in slot d keeps the scratch array in order. */
  lemma ScratchOkSet<K, V>(s: seq<Option<Tree<K, V>>>, d: nat, x: Option<Tree<K, V>>, cmp: (K, K) -> int)
    requires ScratchOk(s, cmp) && d < |s| && (x.Some? ==> x.value.degree == d && WellFormed(x.value, cmp))
    ensures ScratchOk(s[d := x], cmp)
  {
    var s' := s[d := x];
    forall e | 0 <= e < |s'| && s'[e].Some?
      ensures s'[e].value.degree == e && WellFormed(s'[e].value, cmp)
    {
      if e != d {
        assert s'[e] == s[e];
      }
    }
  }

  /** Empty slots at the end change nothing. */
  lemma PadScratch<K, V>(s: seq<Option<Tree<K, V>>>, pad: seq<Option<Tree<K, V>>>, cmp: (K, K) -> int)
    requires ScratchOk(s, cmp) && forall d :: 0 <= d < |pad| ==> pad[d].None?
    ensures ScratchOk(s + pad, cmp) && ScratchTrees(s + pad) == ScratchTrees(s)
  {
    ScratchEmpty(pad);
    ScratchAppend(s, pad);
  }

  /**
    The consolidation of heap_delete_min: every root is merged up into a scratch
    array of 2 * lg(len) + 2 slots, and the new forest lists the scratch trees by
    degree.
  */
  method Consolidate<K(!new), V>(ts: seq<Tree<K, V>>, len: nat, cmp: (K, K) -> int) returns (nf: seq<Tree<K, V>>)
    requires IsTotalOrder(cmp) && Forest(ts, cmp) && len == |Preorder(ts)| && len > 0
    ensures Forest(nf, cmp) && nf != []
    ensures multiset(Preorder(nf)) == multiset(Preorder(ts))
    ensures forall i, j :: 0 <= i < j < |nf| ==> nf[i].degree < nf[j].degree
  {
    var log := Utils.Log2(len);
    var scratch: seq<Option<Tree<K, V>>> := seq(2 * log + 2, _ => None);
    ScratchEmpty(scratch);
    scratch := MergeAll(scratch, ts, cmp);
    nf := Collect(scratch, cmp);
    PreorderNonEmpty(ts);
    PreorderNonEmpty(nf);
  }

  /** The merge loop of heap_delete_min: every root, in ring order, is merged up into the scratch array. */
  method MergeAll<K(!new), V>(s0: seq<Option<Tree<K, V>>>, ts: seq<Tree<K, V>>, cmp: (K, K) -> int)
    returns (s: seq<Option<Tree<K, V>>>)
    requires IsTotalOrder(cmp) && Forest(ts, cmp) && ScratchOk(s0, cmp) && ScratchTrees(s0) == []
    ensures ScratchOk(s, cmp)
    ensures multiset(Preorder(ScratchTrees(s))) == multiset(Preorder(ts))
  {
    s := s0;
    for i := 0 to |ts|
      invariant ScratchOk(s, cmp)
      invariant multiset(Preorder(ScratchTrees(s))) == multiset(Preorder(ts[..i]))
    {
      PreorderTakeSnoc(ts, i);
      s := MergeUp(s, ts[i], cmp);
    }
    TakeAll(ts);
  }

  /** One more root: its nodes join those of the roots before it. */
  lemma PreorderTakeSnoc<K, V>(ts: seq<Tree<K, V>>, i: nat)
    requires i < |ts|
    ensures multiset(Preorder(ts[..i + 1])) == multiset(Preorder(ts[..i])) + multiset(Preorder([ts[i]]))
  {
    TakeSnoc(ts, i);
    PreorderAppend(ts[..i], [ts[i]]);
  }

  /** The collection loop of heap_delete_min: the scratch trees in degree order become the new forest. */
  method Collect<K, V>(scratch: seq<Option<Tree<K, V>>>, cmp: (K, K) -> int) returns (nf: seq<Tree<K, V>>)
    requires ScratchOk(scratch, cmp)
    ensures nf == ScratchTrees(scratch) && Forest(nf, cmp)
    ensures forall i, j :: 0 <= i < j < |nf| ==> nf[i].degree < nf[j].degree
  {
    nf := [];
    for d := 0 to |scratch|
      invariant nf == ScratchTrees(scratch[..d]) && Forest(nf, cmp)
      invariant forall a :: 0 <= a < |nf| ==> nf[a].degree < d
      invariant forall a, b :: 0 <= a < b < |nf| ==> nf[a].degree < nf[b].degree
    {
      CollectStep(scratch, d, nf, cmp);
      if scratch[d].Some? {
        nf := nf + [scratch[d].value];
      }
    }
    TakeAll(scratch);
  }

  /** Collecting slot d keeps the collected trees a forest in strictly increasing degree. */
  lemma CollectStep<K, V>(s: seq<Option<Tree<K, V>>>, d: nat, nf: seq<Tree<K, V>>, cmp: (K, K) -> int)
    requires ScratchOk(s, cmp) && d < |s|
    requires nf == ScratchTrees(s[..d]) && Forest(nf, cmp)
    requires forall a :: 0 <= a < |nf| ==> nf[a].degree < d
    requires forall a, b :: 0 <= a < b < |nf| ==> nf[a].degree < nf[b].degree
    ensures var nf' := nf + Slot(s[d]);
            && nf' == ScratchTrees(s[..d + 1]) && Forest(nf', cmp)
            && (forall a :: 0 <= a < |nf'| ==> nf'[a].degree < d + 1)
            && (forall a, b :: 0 <= a < b < |nf'| ==> nf'[a].degree < nf'[b].degree)
  {
    TakeSnoc(s, d);
    ScratchAppend(s[..d], [s[d]]);
    HeadTail([s[d]]);
    var nf' := nf + Slot(s[d]);
    if s[d].Some? {
      Snoc(nf, s[d].value);
    }
  }

  // ---------------------------------------------------------------------
  // Decrease-key below a root
  // ---------------------------------------------------------------------

  /**
    The part of heap_decrease_key below a root: the key of node n, which sits
    strictly below the root of t, becomes k.  When k orders strictly before its
    parent's key, n is cut: it leaves its parent's ring, the parent loses a
    degree and is marked, and n comes back unmarked as the second component, to
    join the roots.  No cascade follows, because the source reads the parent
    after _heap_cut has cleared it.
  */
  function DecreaseIn<K, V>(t: Tree<K, V>, n: NodeRef, k: K, cmp: (K, K) -> int): (Tree<K, V>, Option<Tree<K, V>>)
    requires WellFormed(t, cmp) && n in Refs(t.children)
    decreases t
  {
    var j := Locate(t.children, n).value;
    var c := t.children[j];
    if c.ref == n then
      if cmp(t.key, k) >= 0 then (t.(children := t.children[j := c.(key := k)]), None)
      else (Unlinked(t, j), Some(c.(key := k, mark := false)))
    else
      var r := DecreaseIn(c, n, k, cmp);
      (t.(children := t.children[j := r.0]), r.1)
  }

  /** The parent as _heap_cut leaves it: child j has left its ring, it has lost one degree and is marked. */
  function Unlinked<K, V>(t: Tree<K, V>, j: nat): Tree<K, V>
    requires j < |t.children| == t.degree
  {
    t.(children := t.children[..j] + t.children[j + 1..], degree := t.degree - 1, mark := true)
  }

  /** A node whose key moves to no later than before stays well-formed. */
  lemma RekeyWellFormed<K(!new), V>(c: Tree<K, V>, k: K, cmp: (K, K) -> int)
    requires IsTotalOrder(cmp) && WellFormed(c, cmp) && cmp(c.key, k) <= 0
    ensures WellFormed(c.(key := k), cmp) && WellFormed(c.(key := k, mark := false), cmp)
  {
    Total(cmp, c.key, k);
    forall j | 0 <= j < |c.children|
      ensures cmp(k, c.children[j].key) >= 0
    {
      Transitive(cmp, k, c.key, c.children[j].key);
    }
  }

  /** The nodes of a tree: its root, the subtrees before child j, child j, and those after. */
  lemma ChildSplit<K, V>(t: Tree<K, V>, j: nat)
    requires j < |t.children|
    ensures Preorder([t]) == [t.Item()] + Preorder(t.children[..j]) + Preorder([t.children[j]]) + Preorder(t.children[j + 1..])
  {
    PreorderOne(t);
    PreorderSplit(t.children, j);
  }

  /** Child j of t replaced by c': the nodes of the old child give way to those of the new one. */
  lemma ReplaceChild<K, V>(t: Tree<K, V>, j: nat, c': Tree<K, V>)
    requires j < |t.children|
    ensures Preorder([t.(children := t.children[j := c'])])
         == [t.Item()] + Preorder(t.children[..j]) + Preorder([c']) + Preorder(t.children[j + 1..])
    ensures Preorder([t]) == [t.Item()] + Preorder(t.children[..j]) + Preorder([t.children[j]]) + Preorder(t.children[j + 1..])
  {
    var t' := t.(children := t.children[j := c']);
    ChildSplit(t, j);
    ChildSplit(t', j);
    UpdateAt(t.children, j, c');
    assert t'.Item() == t.Item();
  }

  /** Replacing child j by c': the nodes of the old child give way to those of the new one. */
  lemma ReplaceChildBag<K, V>(t: Tree<K, V>, j: nat, c': Tree<K, V>)
    requires j < |t.children|
    ensures multiset(Preorder([t.(children := t.children[j := c'])])) + multiset(Preorder([t.children[j]]))
         == multiset(Preorder([t])) + multiset(Preorder([c']))
  {
    ReplaceChild(t, j, c');
  }

  /** Replacing child j by a well-formed tree whose key is no earlier than t's keeps t well-formed. */
  lemma ReplaceWellFormed<K, V>(t: Tree<K, V>, j: nat, c': Tree<K, V>, cmp: (K, K) -> int)
    requires WellFormed(t, cmp) && j < |t.children| && WellFormed(c', cmp) && cmp(t.key, c'.key) >= 0
    ensures WellFormed(t.(children := t.children[j := c']), cmp)
  {
    var t' := t.(children := t.children[j := c']);
    assert forall q :: 0 <= q < |t.children| && q != j ==> t'.children[q] == t.children[q];
  }

  /** A node with its key (and mark) changed: one item swapped for another. */
  lemma RekeyBag<K, V>(c: Tree<K, V>, c': Tree<K, V>)
    requires c'.children == c.children
    ensures multiset(Preorder([c'])) + multiset{c.Item()} == multiset(Preorder([c])) + multiset{c'.Item()}
  {
    PreorderOne(c);
    PreorderOne(c');
  }

  /** Child j cut out of t: t loses its nodes and is marked. */
  lemma CutChildBag<K, V>(t: Tree<K, V>, j: nat)
    requires j < |t.children| == t.degree
    ensures var t' := Unlinked(t, j);
            multiset(Preorder([t'])) + multiset(Preorder([t.children[j]])) == multiset(Preorder([t]))
  {
    var cs := t.children;
    var t' := Unlinked(t, j);
    PreorderOne(t');
    PreorderAppend(cs[..j], cs[j + 1..]);
    ReplaceChild(t, j, cs[j]);
  }

  /** Child j cut out of a well-formed t leaves it well-formed. */
  lemma CutChildWellFormed<K, V>(t: Tree<K, V>, j: nat, cmp: (K, K) -> int)
    requires WellFormed(t, cmp) && j < |t.children|
    ensures WellFormed(Unlinked(t, j), cmp)
  {
    RemoveAt(t.children, j);
  }

  /** The same swap of one item, seen through a subtree. */
  lemma BagLift<T>(a: multiset<T>, c: multiset<T>, t: multiset<T>, s: multiset<T>, l: multiset<T>, x: T, x': T)
    requires a + c == t + s && s + l + multiset{x} == c + multiset{x'}
    ensures a + l + multiset{x} == t + multiset{x'}
  {
    forall e
      ensures (a + l + multiset{x})[e] == (t + multiset{x'})[e]
    {
      assert (a + c)[e] == (t + s)[e];
      assert (s + l + multiset{x})[e] == (c + multiset{x'})[e];
    }
  }

  lemma {:induction false} DecreaseInSound<K(!new), V>(t: Tree<K, V>, n: NodeRef, k: K, cmp: (K, K) -> int)
    requires IsTotalOrder(cmp) && WellFormed(t, cmp) && n in Refs(t.children)
    requires cmp(NodeIn(t.children, n).key, k) <= 0
    ensures var r := DecreaseIn(t, n, k, cmp);
            && r.0.Item() == t.Item()
            && WellFormed(r.0, cmp)
            && (r.1.Some? ==> WellFormed(r.1.value, cmp) && r.1.value.ref == n && r.1.value.key == k && !r.1.value.mark)
            && (r.1.None? ==> cmp(t.key, k) >= 0)
            && multiset(Preorder([r.0] + Slot(r.1))) + multiset{NodeIn(t.children, n)}
               == multiset(Preorder([t])) + multiset{NodeIn(t.children, n).(key := k)}
    decreases t
  {
    var cs := t.children;
    var j := Locate(cs, n).value;
    var c := cs[j];
    var x := NodeIn(cs, n);
    var r := DecreaseIn(t, n, k, cmp);
    if c.ref == n {
      assert x == c.Item();
      RekeyWellFormed(c, k, cmp);
      if cmp(t.key, k) >= 0 {
        assert r == (t.(children := cs[j := c.(key := k)]), None);
        DecreaseKept(t, j, k, cmp);
      } else {
        assert r == (Unlinked(t, j), Some(c.(key := k, mark := false)));
        DecreaseCut(t, j, k, cmp);
      }
    } else {
      assert x == NodeIn(c.children, n);
      DecreaseInSound(c, n, k, cmp);
      assert r == (t.(children := cs[j := DecreaseIn(c, n, k, cmp).0]), DecreaseIn(c, n, k, cmp).1);
      DecreaseDeeper(t, j, n, k, cmp);
    }
  }

  /** The child itself rekeyed in place, t's key being no later than the new one. */
  lemma DecreaseKept<K(!new), V>(t: Tree<K, V>, j: nat, k: K, cmp: (K, K) -> int)
    requires WellFormed(t, cmp) && j < |t.children| && cmp(t.key, k) >= 0
    requires WellFormed(t.children[j].(key := k), cmp)
    ensures var t' := t.(children := t.children[j := t.children[j].(key := k)]);
            && WellFormed(t', cmp)
            && multiset(Preorder([t'] + Slot<Tree<K, V>>(None))) + multiset{t.children[j].Item()}
               == multiset(Preorder([t])) + multiset{t.children[j].Item().(key := k)}
  {
    var t' := t.(children := t.children[j := t.children[j].(key := k)]);
    assert [t'] + Slot<Tree<K, V>>(None) == [t'];
    ReplaceWellFormed(t, j, t.children[j].(key := k), cmp);
    RekeyChildBag(t, j, k);
  }

  /** The nodes of t with child j rekeyed in place: one item swapped for another. */
  lemma RekeyChildBag<K, V>(t: Tree<K, V>, j: nat, k: K)
    requires j < |t.children|
    ensures multiset(Preorder([t.(children := t.children[j := t.children[j].(key := k)])])) + multiset{t.children[j].Item()}
         == multiset(Preorder([t])) + multiset{t.children[j].Item().(key := k)}
  {
    var c := t.children[j];
    var c' := c.(key := k);
    var t' := t.(children := t.children[j := c']);
    ReplaceChildBag(t, j, c');
    RekeyBag(c, c');
    BagSwap(multiset(Preorder([t'])), multiset(Preorder([c])), multiset(Preorder([t])), multiset(Preorder([c'])),
            c.Item(), c'.Item());
  }

  /** The child cut out of t with its new key, as _heap_cut does. */
  lemma DecreaseCut<K(!new), V>(t: Tree<K, V>, j: nat, k: K, cmp: (K, K) -> int)
    requires WellFormed(t, cmp) && j < |t.children|
    ensures var t' := Unlinked(t, j);
            var cut := t.children[j].(key := k, mark := false);
            && WellFormed(t', cmp)
            && multiset(Preorder([t'] + Slot(Some(cut)))) + multiset{t.children[j].Item()}
               == multiset(Preorder([t])) + multiset{t.children[j].Item().(key := k)}
  {
    var c := t.children[j];
    var t' := Unlinked(t, j);
    var cut := c.(key := k, mark := false);
    assert [t'] + Slot(Some(cut)) == [t'] + [cut];
    PreorderAppend([t'], [cut]);
    CutChildWellFormed(t, j, cmp);
    CutChildBag(t, j);
    RekeyBag(c, cut);
  }

  /** The node found deeper in child j: the child's result replaces it. */
  lemma DecreaseDeeper<K(!new), V>(t: Tree<K, V>, j: nat, n: NodeRef, k: K, cmp: (K, K) -> int)
    requires IsTotalOrder(cmp) && WellFormed(t, cmp) && j < |t.children| && n in Refs(t.children[j].children)
    requires var sub := DecreaseIn(t.children[j], n, k, cmp);
             var x := NodeIn(t.children[j].children, n);
             && sub.0.Item() == t.children[j].Item()
             && WellFormed(sub.0, cmp)
             && (sub.1.None? ==> cmp(t.children[j].key, k) >= 0)
             && multiset(Preorder([sub.0] + Slot(sub.1))) + multiset{x}
                == multiset(Preorder([t.children[j]])) + multiset{x.(key := k)}
    ensures var sub := DecreaseIn(t.children[j], n, k, cmp);
            var x := NodeIn(t.children[j].children, n);
            var t' := t.(children := t.children[j := sub.0]);
            && WellFormed(t', cmp)
            && (sub.1.None? ==> cmp(t.key, k) >= 0)
            && multiset(Preorder([t'] + Slot(sub.1))) + multiset{x}
               == multiset(Preorder([t])) + multiset{x.(key := k)}
  {
    var c := t.children[j];
    var sub := DecreaseIn(c, n, k, cmp);
    var x := NodeIn(c.children, n);
    var t' := t.(children := t.children[j := sub.0]);
    ReplaceWellFormed(t, j, sub.0, cmp);
    if sub.1.None? {
      Transitive(cmp, t.key, c.key, k);
    }
    ReplaceChildBag(t, j, sub.0);
    PreorderAppend([t'], Slot(sub.1));
    PreorderAppend([sub.0], Slot(sub.1));
    BagLift(multiset(Preorder([t'])), multiset(Preorder([c])), multiset(Preorder([t])), multiset(Preorder([sub.0])),
            multiset(Preorder(Slot(sub.1))), x, x.(key := k));
  }

  // ---------------------------------------------------------------------
  // The shape decrease-key leaves behind
  // ---------------------------------------------------------------------

  /** The first tree of the ring whose own identity is n, if any. */
  ghost function ChildAt<K, V>(cs: seq<Tree<K, V>>, n: NodeRef): (r: Option<nat>)
    ensures r.Some? ==> r.value < |cs| && cs[r.value].ref == n && forall i :: 0 <= i < r.value ==> cs[i].ref != n
    ensures r.None? ==> forall i :: 0 <= i < |cs| ==> cs[i].ref != n
    decreases cs
  {
    if cs == [] then None
    else if cs[0].ref == n then Some(0)
    else
      match ChildAt(cs[1..], n)
      case None => None
      case Some(i) => Some(i + 1)
  }

  /** The node whose ring holds n as one of its own children. */
  ghost function Parent<K, V>(t: Tree<K, V>, n: NodeRef): (p: Tree<K, V>)
    requires n in Refs(t.children)
    ensures ChildAt(p.children, n).Some?
    decreases t
  {
    var j := Locate(t.children, n).value;
    if t.children[j].ref == n then t else Parent(t.children[j], n)
  }

  /** Every node of t as it was, except that node n carries key k. */
  ghost function Rekeyed<K, V>(t: Tree<K, V>, n: NodeRef, k: K): Tree<K, V>
    decreases t
  {
    Node(t.ref, if t.ref == n then k else t.key, t.value, t.mark, t.degree,
         seq(|t.children|, i requires 0 <= i < |t.children| => Rekeyed(t.children[i], n, k)))
  }

  /**
    Every node of t as it was, except that the subtree of node n has left the
    ring of its parent, which has lost one degree and is marked.
  */
  ghost function Detached<K, V>(t: Tree<K, V>, n: NodeRef, cmp: (K, K) -> int): Tree<K, V>
    requires WellFormed(t, cmp)
    decreases t
  {
    match ChildAt(t.children, n)
    case Some(j) => Unlinked(t, j)
    case None => t.(children := seq(|t.children|, i requires 0 <= i < |t.children| => Detached(t.children[i], n, cmp)))
  }

  /** The identities of a forest: those before tree i, those of tree i, those after it. */
  lemma RefsSplit<K, V>(ts: seq<Tree<K, V>>, i: nat)
    requires i < |ts|
    ensures Refs(ts) == Refs(ts[..i]) + Refs([ts[i]]) + Refs(ts[i + 1..])
  {
    PreorderSplit(ts, i);
    RefsOfAppend(Preorder(ts[..i]) + Preorder([ts[i]]), Preorder(ts[i + 1..]));
    RefsOfAppend(Preorder(ts[..i]), Preorder([ts[i]]));
  }

  lemma RefsOne<K, V>(t: Tree<K, V>)
    ensures Refs([t]) == multiset{t.ref} + Refs(t.children)
  {
    RefsUnfold([t]);
    assert [t][1..] == [];
  }

  /** Where no node repeats, a node of tree a of the forest is a node of no other tree. */
  lemma HeldOnce<K, V>(ts: seq<Tree<K, V>>, a: nat, b: nat, n: NodeRef)
    requires NoNodeTwice(ts) && a < |ts| && b < |ts| && a != b && n in Refs([ts[a]])
    ensures n !in Refs([ts[b]])
  {
    var lo, hi := if a < b then a else b, if a < b then b else a;
    var rest := ts[lo + 1..];
    RefsSplit(ts, lo);
    RefsSplit(rest, hi - lo - 1);
    assert rest[hi - lo - 1] == ts[hi];
    assert Refs(ts)[n] >= Refs([ts[a]])[n] + Refs([ts[b]])[n];
  }

  /** The trees of a forest where no node repeats repeat no node either. */
  lemma NoNodeTwiceIn<K, V>(ts: seq<Tree<K, V>>, i: nat)
    requires NoNodeTwice(ts) && i < |ts|
    ensures NoNodeTwice([ts[i]])
  {
    RefsSplit(ts, i);
    forall r | r in Refs([ts[i]])
      ensures Refs([ts[i]])[r] <= 1
    {
      assert Refs([ts[i]])[r] <= Refs(ts)[r];
    }
  }

  lemma NoNodeTwiceBelow<K, V>(t: Tree<K, V>)
    requires NoNodeTwice([t])
    ensures NoNodeTwice(t.children) && t.ref !in Refs(t.children)
  {
    RefsOne(t);
    assert Refs([t])[t.ref] == 1 + Refs(t.children)[t.ref];
    forall r | r in Refs(t.children)
      ensures Refs(t.children)[r] <= 1
    {
      assert Refs(t.children)[r] <= Refs([t])[r];
    }
  }

  /** Child i of a forest, with its identity among the forest's. */
  lemma RefsChild<K, V>(cs: seq<Tree<K, V>>, i: nat)
    requires i < |cs|
    ensures cs[i].ref in Refs([cs[i]]) && Refs([cs[i]]) <= Refs(cs)
  {
    RefsSplit(cs, i);
    RefsOne(cs[i]);
  }

  /** Where n is not a node of t, neither rewriting changes t. */
  lemma {:induction false} Untouched<K, V>(t: Tree<K, V>, n: NodeRef, k: K, cmp: (K, K) -> int)
    requires WellFormed(t, cmp) && n !in Refs([t])
    ensures Rekeyed(t, n, k) == t && Detached(t, n, cmp) == t
    decreases t
  {
    var cs := t.children;
    RefsOne(t);
    forall i | 0 <= i < |cs|
      ensures Rekeyed(cs[i], n, k) == cs[i] && Detached(cs[i], n, cmp) == cs[i] && cs[i].ref != n
    {
      RefsChild(cs, i);
      Untouched(cs[i], n, k, cmp);
    }
    assert Rekeyed(t, n, k).children == cs;
    assert ChildAt(cs, n).None?;
    assert Detached(t, n, cmp).children == cs;
  }

  /** Rekeying node n where n is the root: only the root's key changes. */
  lemma RekeyedAt<K, V>(c: Tree<K, V>, n: NodeRef, k: K, cmp: (K, K) -> int)
    requires WellFormed(c, cmp) && c.ref == n && NoNodeTwice([c])
    ensures Rekeyed(c, n, k) == c.(key := k)
  {
    NoNodeTwiceBelow(c);
    forall i | 0 <= i < |c.children|
      ensures Rekeyed(c.children[i], n, k) == c.children[i]
    {
      RefsChild(c.children, i);
      Untouched(c.children[i], n, k, cmp);
    }
    assert Rekeyed(c, n, k).children == c.children;
  }

  /** Below t, n sits in child j alone: the other children have no node n and neither rewriting changes them. */
  lemma ShapeSiblings<K, V>(t: Tree<K, V>, n: NodeRef, k: K, cmp: (K, K) -> int)
    requires WellFormed(t, cmp) && n in Refs(t.children) && NoNodeTwice([t])
    ensures var j := Locate(t.children, n).value;
            && t.ref != n && NoNodeTwice([t.children[j]])
            && ChildAt(t.children, n) == (if t.children[j].ref == n then Some(j) else None)
            && forall i :: 0 <= i < |t.children| && i != j ==>
                 Rekeyed(t.children[i], n, k) == t.children[i] && Detached(t.children[i], n, cmp) == t.children[i]
  {
    var cs := t.children;
    var j := Locate(cs, n).value;
    NoNodeTwiceBelow(t);
    RefsOne(cs[j]);
    assert n in Refs([cs[j]]);
    forall i | 0 <= i < |cs| && i != j
      ensures Rekeyed(cs[i], n, k) == cs[i] && Detached(cs[i], n, cmp) == cs[i] && cs[i].ref != n
    {
      Sibling(cs, j, i, n, k, cmp);
    }
    ChildAtOnly(cs, j, n);
    NoNodeTwiceIn(cs, j);
  }

  /** Where only tree j of the ring may be node n, ChildAt finds j or nothing. */
  lemma ChildAtOnly<K, V>(cs: seq<Tree<K, V>>, j: nat, n: NodeRef)
    requires j < |cs| && forall i :: 0 <= i < |cs| && i != j ==> cs[i].ref != n
    ensures ChildAt(cs, n) == if cs[j].ref == n then Some(j) else None
  {
  }

  /** A sibling of the tree holding n has no node n, so neither rewriting changes it. */
  lemma Sibling<K, V>(cs: seq<Tree<K, V>>, j: nat, i: nat, n: NodeRef, k: K, cmp: (K, K) -> int)
    requires NoNodeTwice(cs) && j < |cs| && i < |cs| && i != j && n in Refs([cs[j]]) && WellFormed(cs[i], cmp)
    ensures Rekeyed(cs[i], n, k) == cs[i] && Detached(cs[i], n, cmp) == cs[i] && cs[i].ref != n
  {
    HeldOnce(cs, j, i, n);
    RefsOne(cs[i]);
    Untouched(cs[i], n, k, cmp);
  }

  /** Rekeying where only child j can change. */
  lemma RekeyedOne<K, V>(t: Tree<K, V>, j: nat, n: NodeRef, k: K)
    requires j < |t.children| && t.ref != n
    requires forall i :: 0 <= i < |t.children| && i != j ==> Rekeyed(t.children[i], n, k) == t.children[i]
    ensures Rekeyed(t, n, k) == t.(children := t.children[j := Rekeyed(t.children[j], n, k)])
  {
    assert Rekeyed(t, n, k).children == t.children[j := Rekeyed(t.children[j], n, k)];
  }

  /** Detaching where n is no child of t and only child j can change. */
  lemma DetachedOne<K, V>(t: Tree<K, V>, j: nat, n: NodeRef, cmp: (K, K) -> int)
    requires WellFormed(t, cmp) && j < |t.children| && ChildAt(t.children, n).None?
    requires forall i :: 0 <= i < |t.children| && i != j ==> Detached(t.children[i], n, cmp) == t.children[i]
    ensures Detached(t, n, cmp) == t.(children := t.children[j := Detached(t.children[j], n, cmp)])
  {
    assert Detached(t, n, cmp).children == t.children[j := Detached(t.children[j], n, cmp)];
  }

  /**
    What decrease-key below the root of t leaves, r, with p the parent of n: n
    is cut exactly when k orders strictly before p's key.  Without a cut, node
    n's key is k and every other node, marks and degrees included, is as it
    was.  With a cut, n's subtree has left p's ring, p has lost one degree and
    is marked, every other node is as it was, and the cut subtree is n's, with
    key k and no mark.
  */
  ghost predicate CutShape<K, V>(t: Tree<K, V>, n: NodeRef, k: K, cmp: (K, K) -> int, r: (Tree<K, V>, Option<Tree<K, V>>))
    requires WellFormed(t, cmp) && n in Refs(t.children)
  {
    var p := Parent(t, n);
    && (r.1.Some? <==> cmp(p.key, k) < 0)
    && (r.1.None? ==> r.0 == Rekeyed(t, n, k))
    && (r.1.Some? ==> r.0 == Detached(t, n, cmp)
                      && r.1.value == p.children[ChildAt(p.children, n).value].(key := k, mark := false))
  }

  /** DecreaseIn does to t what CutShape describes. */
  lemma {:induction false} DecreaseInShape<K, V>(t: Tree<K, V>, n: NodeRef, k: K, cmp: (K, K) -> int)
    requires WellFormed(t, cmp) && n in Refs(t.children) && NoNodeTwice([t])
    ensures CutShape(t, n, k, cmp, DecreaseIn(t, n, k, cmp))
    decreases t
  {
    var c := t.children[Locate(t.children, n).value];
    if c.ref == n {
      ShapeAtChild(t, n, k, cmp);
    } else {
      ShapeSiblings(t, n, k, cmp);
      DecreaseInShape(c, n, k, cmp);
      ShapeDeeper(t, n, k, cmp);
    }
  }

  /** n a child of t's root: rekeyed in place, or cut from t's ring. */
  lemma ShapeAtChild<K, V>(t: Tree<K, V>, n: NodeRef, k: K, cmp: (K, K) -> int)
    requires WellFormed(t, cmp) && n in Refs(t.children) && NoNodeTwice([t])
    requires t.children[Locate(t.children, n).value].ref == n
    ensures CutShape(t, n, k, cmp, DecreaseIn(t, n, k, cmp))
  {
    var cs := t.children;
    var j := Locate(cs, n).value;
    var c := cs[j];
    DecreaseAtChild(t, n, k, cmp);
    assert Parent(t, n) == t;
    ShapeSiblings(t, n, k, cmp);
    if cmp(t.key, k) >= 0 {
      RekeyedOne(t, j, n, k);
      RekeyedAt(c, n, k, cmp);
    } else {
      DetachedAt(t, j, n, cmp);
    }
  }

  /** DecreaseIn where n is a child of t's own ring. */
  lemma DecreaseAtChild<K, V>(t: Tree<K, V>, n: NodeRef, k: K, cmp: (K, K) -> int)
    requires WellFormed(t, cmp) && n in Refs(t.children)
    requires t.children[Locate(t.children, n).value].ref == n
    ensures var j := Locate(t.children, n).value;
            cmp(t.key, k) >= 0 ==>
              DecreaseIn(t, n, k, cmp) == (t.(children := t.children[j := t.children[j].(key := k)]), None)
    ensures var j := Locate(t.children, n).value;
            cmp(t.key, k) < 0 ==>
              DecreaseIn(t, n, k, cmp) == (Unlinked(t, j), Some(t.children[j].(key := k, mark := false)))
  {
  }

  /** Detaching a child of t's own ring. */
  lemma DetachedAt<K, V>(t: Tree<K, V>, j: nat, n: NodeRef, cmp: (K, K) -> int)
    requires WellFormed(t, cmp) && ChildAt(t.children, n) == Some(j)
    ensures Detached(t, n, cmp) == Unlinked(t, j)
  {
  }

  /** n deeper than t's children: child j carries the change CutShape describes for it. */
  lemma ShapeDeeper<K, V>(t: Tree<K, V>, n: NodeRef, k: K, cmp: (K, K) -> int)
    requires WellFormed(t, cmp) && n in Refs(t.children)
    requires var j := Locate(t.children, n).value;
             && t.children[j].ref != n && t.ref != n
             && ChildAt(t.children, n).None?
             && (forall i :: 0 <= i < |t.children| && i != j ==>
                   Rekeyed(t.children[i], n, k) == t.children[i] && Detached(t.children[i], n, cmp) == t.children[i])
             && CutShape(t.children[j], n, k, cmp, DecreaseIn(t.children[j], n, k, cmp))
    ensures CutShape(t, n, k, cmp, DecreaseIn(t, n, k, cmp))
  {
    var cs := t.children;
    var j := Locate(cs, n).value;
    var c := cs[j];
    var sub := DecreaseIn(c, n, k, cmp);
    assert DecreaseIn(t, n, k, cmp) == (t.(children := cs[j := sub.0]), sub.1);
    assert Parent(t, n) == Parent(c, n);
    if sub.1.None? {
      RekeyedOne(t, j, n, k);
    } else {
      DetachedOne(t, j, n, cmp);
    }
  }

  /**
    Decrease-key on the tree that holds n: a root is only rekeyed; below the
    root, n is cut exactly when k orders strictly before its parent's key, with
    the shapes DecreaseInShape states.
  */
  lemma DecreaseRootShape<K, V>(t: Tree<K, V>, n: NodeRef, k: K, cmp: (K, K) -> int)
    requires WellFormed(t, cmp) && (t.ref == n || n in Refs(t.children)) && NoNodeTwice([t])
    ensures var r := DecreaseRoot(t, n, k, cmp);
            && (t.ref == n ==> r == (Rekeyed(t, n, k), None))
            && (t.ref != n ==> CutShape(t, n, k, cmp, r))
  {
    if t.ref == n {
      RekeyedAt(t, n, k, cmp);
    } else {
      DecreaseInShape(t, n, k, cmp);
    }
  }

  // ---------------------------------------------------------------------
  // Delete-min helpers
  // ---------------------------------------------------------------------

  /** The trees with their marks cleared, as _heap_cut leaves each promoted child. */
  function Unmarked<K, V>(cs: seq<Tree<K, V>>): (r: seq<Tree<K, V>>)
    ensures |r| == |cs| && forall i :: 0 <= i < |cs| ==> r[i] == cs[i].(mark := false)
  {
    seq(|cs|, i requires 0 <= i < |cs| => cs[i].(mark := false))
  }

  /** The roots once root m has left the ring and its children, unmarked, have joined its end. */
  function Promoted<K, V>(ts: seq<Tree<K, V>>, m: nat): seq<Tree<K, V>>
    requires m < |ts|
  {
    ts[..m] + ts[m + 1..] + Unmarked(ts[m].children)
  }

  /** Clearing marks changes no node. */
  lemma {:induction false} UnmarkedNodes<K, V>(cs: seq<Tree<K, V>>)
    ensures Preorder(Unmarked(cs)) == Preorder(cs)
    decreases cs
  {
    if cs != [] {
      assert Unmarked(cs)[1..] == Unmarked(cs[1..]);
      UnmarkedNodes(cs[1..]);
    }
  }

  /** Clearing marks keeps the heap order. */
  lemma UnmarkedForest<K, V>(cs: seq<Tree<K, V>>, cmp: (K, K) -> int)
    requires Forest(cs, cmp)
    ensures Forest(Unmarked(cs), cmp)
  {
    forall j | 0 <= j < |cs|
      ensures WellFormed(Unmarked(cs)[j], cmp)
    {
      assert WellFormed(cs[j], cmp);
    }
  }

  /** The promotion loop of heap_delete_min: each child of the minimum is cut to the end of the root ring. */
  method CutChildren<K, V>(ts: seq<Tree<K, V>>, cs: seq<Tree<K, V>>) returns (r: seq<Tree<K, V>>)
    ensures r == ts + Unmarked(cs)
  {
    r := ts;
    for j := 0 to |cs|
      invariant r == ts + Unmarked(cs[..j])
    {
      assert Unmarked(cs[..j + 1]) == Unmarked(cs[..j]) + [cs[j].(mark := false)];
      r := r + [cs[j].(mark := false)];
    }
    assert cs[..|cs|] == cs;
  }

  /** Root m gone and its children promoted: every node but the root remains. */
  lemma RemoveRootBag<K, V>(ts: seq<Tree<K, V>>, m: nat, f: seq<Tree<K, V>>)
    requires m < |ts| && f == ts + Unmarked(ts[m].children)
    ensures multiset(Preorder(f[..m] + f[m + 1..])) + multiset{ts[m].Item()} == multiset(Preorder(ts))
  {
    var z := ts[m];
    RemoveBeforeAppend(ts, Unmarked(z.children), m);
    UnmarkedNodes(z.children);
    PreorderAppend(ts[..m] + ts[m + 1..], Unmarked(z.children));
    PreorderAppend(ts[..m], ts[m + 1..]);
    PreorderSplit(ts, m);
    PreorderOne(z);
  }

  /** Root m gone and its children promoted: the roots left are still heap-ordered trees. */
  lemma RemoveRootForest<K, V>(ts: seq<Tree<K, V>>, m: nat, f: seq<Tree<K, V>>, cmp: (K, K) -> int)
    requires m < |ts| && f == ts + Unmarked(ts[m].children) && Forest(ts, cmp)
    ensures Forest(f[..m] + f[m + 1..], cmp)
  {
    var u := Unmarked(ts[m].children);
    RemoveBeforeAppend(ts, u, m);
    assert Forest(ts[m].children, cmp) by {
      assert WellFormed(ts[m], cmp);
    }
    UnmarkedForest(ts[m].children, cmp);
    RemoveAt(ts, m);
    var rest := ts[..m] + ts[m + 1..];
    assert Forest(rest, cmp) by {
      forall q | 0 <= q < |rest|
        ensures WellFormed(rest[q], cmp)
      {
        assert rest[q] == if q < m then ts[q] else ts[q + 1];
      }
    }
    forall q | 0 <= q < |rest + u|
      ensures WellFormed((rest + u)[q], cmp)
    {
      if q < |rest| {
        assert (rest + u)[q] == rest[q];
      } else {
        assert (rest + u)[q] == u[q - |rest|];
      }
    }
  }

  /** One identity fewer: still no node twice, and one node fewer. */
  lemma FewerRefs<K, V>(a: seq<Tree<K, V>>, b: seq<Tree<K, V>>, r: NodeRef)
    requires multiset(RefsOf(Preorder(a))) + multiset{r} == multiset(RefsOf(Preorder(b))) && NoNodeTwice(b)
    ensures NoNodeTwice(a) && |Preorder(a)| + 1 == |Preorder(b)|
  {
    assert Refs(a) + multiset{r} == Refs(b);
    forall q | q in Refs(a)
      ensures Refs(a)[q] <= 1
    {
      assert (Refs(a) + multiset{r})[q] == Refs(b)[q];
    }
    assert |multiset(RefsOf(Preorder(a))) + multiset{r}| == |multiset(RefsOf(Preorder(b)))|;
  }

  /** Every item of a is one of b's, so a bound on b's keys holds for a's. */
  lemma BoundFollows<K, V>(a: seq<NodeItem<K, V>>, b: seq<NodeItem<K, V>>, extra: multiset<NodeItem<K, V>>, key: K,
                           cmp: (K, K) -> int)
    requires multiset(a) + extra == multiset(b)
    requires forall e :: e in b ==> cmp(key, e.key) >= 0
    ensures forall e :: e in a ==> cmp(key, e.key) >= 0
  {
    forall e | e in a
      ensures cmp(key, e.key) >= 0
    {
      assert e in multiset(a);
      assert e in multiset(b);
    }
  }

  /**
    The first half of heap_delete_min on the value level: with the minimum
    root's children promoted and the root removed, the forest is still
    heap-ordered with no node twice, holds one node fewer, and every node
    orders no earlier than the old minimum.
  */
  lemma RemoveMinOk<K(!new), V>(ts: seq<Tree<K, V>>, len: nat, m: nat, f: seq<Tree<K, V>>, cmp: (K, K) -> int,
                                rest: seq<Tree<K, V>>)
    requires HeapOk(ts, len, Some(m), cmp) && f == ts + Unmarked(ts[m].children) && rest == f[..m] + f[m + 1..]
    ensures Forest(rest, cmp) && NoNodeTwice(rest) && |Preorder(rest)| + 1 == len
    ensures multiset(Preorder(rest)) + multiset{ts[m].Item()} == multiset(Preorder(ts))
    ensures forall e :: e in Preorder(rest) ==> cmp(ts[m].key, e.key) >= 0
    ensures rest == [] <==> len == 1
    ensures rest == [] ==> HeapOk(rest, 0, None, cmp)
    ensures rest == Promoted(ts, m)
  {
    RemoveBeforeAppend(ts, Unmarked(ts[m].children), m);
    RemoveRootForest(ts, m, f, cmp);
    RemoveRootBag(ts, m, f);
    RefsAfterRemove(Preorder(rest), Preorder(ts), ts[m].Item());
    FewerRefs(rest, ts, ts[m].ref);
    MinRootLeast(ts, m, cmp);
    BoundFollows(Preorder(rest), Preorder(ts), multiset{ts[m].Item()}, ts[m].key, cmp);
    PreorderNonEmpty(rest);
  }

  /**
    The end of heap_delete_min on the value level: the consolidated forest nf
    holds the same nodes as the promoted forest, so with nm its least root the
    heap invariant holds again, and the new minimum is one of the promoted nodes.
  */
  lemma ConsolidatedOk<K(!new), V>(promoted: seq<Tree<K, V>>, nf: seq<Tree<K, V>>, len: nat, nm: Option<nat>,
                                   cmp: (K, K) -> int)
    requires IsTotalOrder(cmp) && Forest(nf, cmp) && NoNodeTwice(promoted) && |Preorder(promoted)| == len
    requires multiset(Preorder(nf)) == multiset(Preorder(promoted)) && nf != []
    requires nm.Some? && IsMinRoot(nf, nm.value, cmp)
    ensures HeapOk(nf, len, nm, cmp) && nf[nm.value].Item() in Preorder(promoted)
  {
    RefsFollow(Preorder(nf), Preorder(promoted));
    SameRefs(nf, promoted);
    MinRootLeast(nf, nm.value, cmp);
    assert nf[nm.value].Item() in multiset(Preorder(nf));
  }

  // ---------------------------------------------------------------------
  // The heap
  // ---------------------------------------------------------------------

  /**
    The heap invariant: a forest of heap-ordered trees holding len nodes, no
    node twice, and min at a root that orders no later than any other root,
    present exactly when the forest is not empty.
  */
  ghost predicate HeapOk<K(!new), V>(ts: seq<Tree<K, V>>, len: nat, min: Option<nat>, cmp: (K, K) -> int)
  {
    && IsTotalOrder(cmp)
    && Forest(ts, cmp)
    && len == |Preorder(ts)|
    && NoNodeTwice(ts)
    && (min.None? <==> ts == [])
    && (min.Some? ==> IsMinRoot(ts, min.value, cmp))
  }

  /** A new node of degree 0 at the end of the roots: one more item, still no node twice. */
  lemma AppendLeaf<K, V>(ts: seq<Tree<K, V>>, t: Tree<K, V>, cmp: (K, K) -> int)
    requires Forest(ts, cmp) && NoNodeTwice(ts) && t.children == [] && t.degree == 0 && t.ref !in Refs(ts)
    ensures Forest(ts + [t], cmp) && NoNodeTwice(ts + [t])
    ensures Preorder(ts + [t]) == Preorder(ts) + [t.Item()]
  {
    RefsAppendLeaf(ts, t);
    forall j | 0 <= j < |ts + [t]|
      ensures WellFormed((ts + [t])[j], cmp)
    {
      if j < |ts| {
        assert (ts + [t])[j] == ts[j];
      }
    }
  }

  lemma RefsAppendLeaf<K, V>(ts: seq<Tree<K, V>>, t: Tree<K, V>)
    requires t.children == []
    ensures Preorder(ts + [t]) == Preorder(ts) + [t.Item()]
    ensures Refs(ts + [t]) == Refs(ts) + multiset{t.ref}
  {
    PreorderAppend(ts, [t]);
    PreorderOne(t);
    RefsOfAppend(Preorder(ts), [t.Item()]);
    assert RefsOf([t.Item()]) == [t.ref];
  }

  /** heap_insert on the value level: the leaf joins the roots and is offered to the minimum. */
  lemma InsertOk<K(!new), V>(ts: seq<Tree<K, V>>, len: nat, m: Option<nat>, t: Tree<K, V>, cmp: (K, K) -> int,
                             nf: seq<Tree<K, V>>, nm: Option<nat>)
    requires HeapOk(ts, len, m, cmp) && t.children == [] && t.degree == 0 && t.ref !in Refs(ts)
    requires nf == ts + [t] && nm == NextMin(nf, m, t.key, |ts|, cmp)
    ensures HeapOk(nf, len + 1, nm, cmp)
    ensures multiset(Preorder(nf)) == multiset(Preorder(ts)) + multiset{t.Item()}
    ensures RootItem(nf, nm) == if RootItem(ts, m).None? || cmp(RootItem(ts, m).value.0, t.key) < 0
                                then Some((t.key, t.value)) else RootItem(ts, m)
  {
    AppendLeaf(ts, t, cmp);
    assert forall j :: 0 <= j < |ts| ==> nf[j] == ts[j];
    NextMinLeast(nf, m, |ts|, |nf|, cmp);
  }

  class Heap<K(!new), V> {
    const cmp: (K, K) -> int
    var len: nat
    /** The root that min points to, by its place in the forest. */
    var min: Option<nat>
    var forest: seq<Tree<K, V>>

    ghost predicate Valid()
      reads this
    {
      HeapOk(forest, len, min, cmp)
    }

    /** heap_create. */
    constructor (cmp: (K, K) -> int)
      requires IsTotalOrder(cmp)
      ensures Valid() && this.cmp == cmp
      ensures len == 0 && min == None && forest == []
    {
      this.cmp := cmp;
      len := 0;
      min := None;
      forest := [];
    }

    /** A heap over the given roots: heap_create followed by the field stores of heap_meld. */
    constructor Of(cmp: (K, K) -> int, forest: seq<Tree<K, V>>, len: nat, min: Option<nat>)
      requires HeapOk(forest, len, min, cmp)
      ensures Valid() && this.cmp == cmp
      ensures this.forest == forest && this.len == len && this.min == min
    {
      this.cmp := cmp;
      this.forest := forest;
      this.len := len;
      this.min := min;
    }

    /** heap_len: the number of nodes. */
    function Len(): (n: nat)
      reads this
      ensures Valid() ==> n == |Preorder(forest)| && (n == 0 <==> forest == [])
    {
      PreorderNonEmpty(forest);
      len
    }

    /** heap_peek_min: the item of the minimum root, none for an empty heap. */
    function PeekMin(): (r: Option<(K, V)>)
      reads this
      ensures Valid() ==> (r.None? <==> len == 0)
      ensures Valid() && r.Some? ==> exists e :: e in Preorder(forest) && e.key == r.value.0 && e.value == r.value.1
      ensures Valid() && r.Some? ==> forall e :: e in Preorder(forest) ==> cmp(r.value.0, e.key) >= 0
    {
      PreorderNonEmpty(forest);
      if min.Some? && min.value < |forest| then
        MinRootLeast(forest, min.value, cmp);
        RootItem(forest, min)
      else
        RootItem(forest, min)
    }

    /** _heap_update_min. */
    method UpdateMin(k: K, i: nat)
      requires min.Some? ==> min.value < |forest|
      modifies this
      ensures forest == old(forest) && len == old(len)
      ensures min == NextMin(forest, old(min), k, i, cmp)
    {
      if min.None? {
        min := Some(i);
      } else if cmp(forest[min.value].key, k) < 0 {
        min := Some(i);
      }
    }

    /** heap_insert: a fresh unmarked node of degree 0 joins the end of the root ring. */
    method Insert(k: K, v: V)
      requires Valid()
      modifies this
      ensures Valid() && len == old(len) + 1
      ensures |forest| == |old(forest)| + 1 && forest[..|old(forest)|] == old(forest)
      ensures var t := forest[|old(forest)|];
              fresh(t.ref) && t.key == k && t.value == v && !t.mark && t.degree == 0 && t.children == []
      ensures multiset(Preorder(forest)) == multiset(Preorder(old(forest))) + multiset{forest[|old(forest)|].Item()}
      ensures PeekMin() == if old(PeekMin()).None? || cmp(old(PeekMin()).value.0, k) < 0 then Some((k, v)) else old(PeekMin())
    {
      ghost var before := forest;
      PeekMinIsRoot(this);
      PreorderAllocated(before);
      var n := new NodeRef();
      var t := Node(n, k, v, false, 0, []);
      assert n !in RefsOf(Preorder(before));
      len := len + 1;
      forest := forest + [t];
      TakeAppend(before, [t]);
      UpdateMin(k, |forest| - 1);
      InsertOk(before, len - 1, old(min), t, cmp, forest, min);
      PeekMinIsRoot(this);
    }

    /**
      heap_decrease_key: node n's key becomes k, which must order no later than
      its current key.  A root keeps its place; a node below a root either stays
      or, when k orders strictly before its parent's key, is cut to the end of
      the root ring.  The minimum is offered the node.
    */
    method DecreaseKey(n: NodeRef, k: K)
      requires Valid() && n in Refs(forest) && cmp(NodeIn(forest, n).key, k) <= 0
      modifies this
      ensures Valid() && len == old(len)
      ensures multiset(Preorder(forest)) + multiset{old(NodeIn(forest, n))}
           == multiset(Preorder(old(forest))) + multiset{old(NodeIn(forest, n)).(key := k)}
      ensures n in Refs(forest) && NodeIn(forest, n) == old(NodeIn(forest, n)).(key := k)
      ensures PeekMin().Some? && cmp(PeekMin().value.0, k) >= 0
      ensures var i := Locate(old(forest), n).value;
              var r := DecreaseRoot(old(forest)[i], n, k, cmp);
              forest == old(forest)[i := r.0] + Slot(r.1)
    {
      ghost var before := forest;
      var i := Locate(forest, n).value;
      var t := forest[i];
      var r: (Tree<K, V>, Option<Tree<K, V>>);
      if t.ref == n {
        r := (t.(key := k), None);
      } else {
        r := DecreaseIn(t, n, k, cmp);
      }
      ghost var x := NodeIn(forest, n);
      assert x == Target(t, n) && r == DecreaseRoot(t, n, k, cmp);
      DecreaseRootSound(t, n, k, cmp);
      Relink(i, r.0, r.1, x, k);
      NodeInIs(forest, x.(key := k));
    }

    /**
      The end of heap_decrease_key: root i's tree is replaced by its rebuilt
      version, a node that _heap_cut took out joins the end of the root ring,
      and _heap_update_min is offered the node with its new key.
    */
    method Relink(i: nat, t': Tree<K, V>, cut: Option<Tree<K, V>>, ghost x: NodeItem<K, V>, k: K)
      requires Valid() && i < |forest| && x in Preorder(forest)
      requires WellFormed(t', cmp) && (cut.Some? ==> WellFormed(cut.value, cmp))
      requires cut.Some? ==> cut.value.key == k && t'.key == forest[i].key
      requires cut.None? ==> (t'.key == k && cmp(k, forest[i].key) >= 0) || (t'.key == forest[i].key && cmp(forest[i].key, k) >= 0)
      requires multiset(Preorder([t'] + Slot(cut))) + multiset{x} == multiset(Preorder([forest[i]])) + multiset{x.(key := k)}
      modifies this
      ensures Valid() && len == old(len)
      ensures forest == old(forest)[i := t'] + Slot(cut)
      ensures multiset(Preorder(forest)) + multiset{x} == multiset(Preorder(old(forest))) + multiset{x.(key := k)}
      ensures x.(key := k) in Preorder(forest)
      ensures PeekMin().Some? && cmp(PeekMin().value.0, k) >= 0
    {
      ghost var before, m := forest, min;
      var pos := if cut.Some? then |forest| else i;
      forest := forest[i := t'] + Slot(cut);
      UpdateMin(k, pos);
      DecreaseKeyOk(before, len, m, i, t', cut, x, k, cmp, forest, pos, min);
    }

    /**
      heap_delete_min: nothing happens on an empty heap.  Otherwise the children
      of the minimum are cut to the roots, the minimum leaves, and when nodes
      remain the roots are consolidated so that no two share a degree, and the
      minimum is found again among them.
    */
    method DeleteMin()
      requires Valid()
      modifies this
      ensures Valid()
      ensures old(len) == 0 ==> len == 0 && forest == old(forest) && min == old(min)
      ensures old(len) > 0 ==> len == old(len) - 1
      ensures old(len) > 0 ==>
                multiset(Preorder(forest)) + multiset{old(forest[min.value].Item())} == multiset(Preorder(old(forest)))
      ensures old(len) > 0 ==> forall i, j :: 0 <= i < j < |forest| ==> forest[i].degree < forest[j].degree
      ensures old(PeekMin()).Some? && PeekMin().Some? ==> cmp(old(PeekMin()).value.0, PeekMin().value.0) >= 0
    {
      if len == 0 {
        return;
      }
      RemoveMin();
      if len > 0 {
        Rebuild();
      }
    }

    /**
      The first half of heap_delete_min: every child of the minimum is cut to
      the end of the root ring, then the minimum leaves the ring and the heap
      has no minimum until it is recomputed.
    */
    method RemoveMin()
      requires Valid() && len > 0
      modifies this
      ensures min == None && len == old(len) - 1
      ensures Forest(forest, cmp) && NoNodeTwice(forest) && |Preorder(forest)| == len
      ensures multiset(Preorder(forest)) + multiset{old(forest[min.value].Item())} == multiset(Preorder(old(forest)))
      ensures forall e :: e in Preorder(forest) ==> cmp(old(forest[min.value].key), e.key) >= 0
      ensures forest == [] <==> len == 0
      ensures len == 0 ==> Valid()
      ensures forest == Promoted(old(forest), old(min).value)
    {
      ghost var before := forest;
      var m := min.value;
      var z := forest[m];
      var f := CutChildren(forest, z.children);
      forest := f[..m] + f[m + 1..];
      min := None;
      len := len - 1;
      RemoveMinOk(before, len + 1, m, f, cmp, forest);
    }

    /**
      The second half of heap_delete_min: the roots are consolidated so that no
      two share a degree, and the minimum is found again among them.
    */
    method Rebuild()
      requires IsTotalOrder(cmp) && Forest(forest, cmp) && NoNodeTwice(forest) && |Preorder(forest)| == len && len > 0
      modifies this
      ensures Valid() && len == old(len)
      ensures multiset(Preorder(forest)) == multiset(Preorder(old(forest)))
      ensures forall i, j :: 0 <= i < j < |forest| ==> forest[i].degree < forest[j].degree
      ensures min.Some? && forest[min.value].Item() in Preorder(old(forest))
    {
      ghost var promoted := forest;
      forest := Consolidate(forest, len, cmp);
      RecomputeMin();
      ConsolidatedOk(promoted, forest, len, min, cmp);
    }

    /** The last loop of heap_delete_min: every root is offered to the minimum in ring order. */
    method RecomputeMin()
      requires IsTotalOrder(cmp) && forest != []
      modifies this
      ensures forest == old(forest) && len == old(len)
      ensures min.Some? && IsMinRoot(forest, min.value, cmp)
    {
      min := None;
      for i := 0 to |forest|
        invariant forest == old(forest) && len == old(len)
        invariant i == 0 ==> min.None?
        invariant i > 0 ==> min.Some? && min.value < i && forall j :: 0 <= j < i ==> cmp(forest[min.value].key, forest[j].key) >= 0
      {
        ghost var m := min;
        UpdateMin(forest[i].key, i);
        NextMinLeast(forest, m, i, i + 1, cmp);
      }
    }

    /**
      heap_iterator_create: (value, (key, node)) for every node, depth first with
      each root before its subtree.  The source asserts through a dict that the
      values are distinct; here that is what the caller must ensure.
    */
    method Iterator() returns (it: seq<(V, (K, NodeRef))>)
      requires forall i, j :: 0 <= i < j < |Preorder(forest)| ==> Preorder(forest)[i].value != Preorder(forest)[j].value
      ensures it == Iteration(Preorder(forest))
      ensures Valid() ==> |it| == len
      ensures Valid() ==> forall i :: 0 <= i < |it| ==>
                it[i].1.1 in Refs(forest) && NodeIn(forest, it[i].1.1) == NodeItem(it[i].1.1, it[i].1.0, it[i].0)
    {
      it := IterateRing(forest);
      if Valid() {
        forall i | 0 <= i < |it|
          ensures it[i].1.1 in Refs(forest) && NodeIn(forest, it[i].1.1) == NodeItem(it[i].1.1, it[i].1.0, it[i].0)
        {
          NodeInIs(forest, Preorder(forest)[i]);
        }
      }
    }
  }

  /** Decrease-key within one root's tree: the root itself is rekeyed, or DecreaseIn works below it. */
  function DecreaseRoot<K, V>(t: Tree<K, V>, n: NodeRef, k: K, cmp: (K, K) -> int): (Tree<K, V>, Option<Tree<K, V>>)
    requires WellFormed(t, cmp) && (t.ref == n || n in Refs(t.children))
  {
    if t.ref == n then (t.(key := k), None) else DecreaseIn(t, n, k, cmp)
  }

  /** The item decrease-key changes: the root, or the node found below it. */
  ghost function Target<K, V>(t: Tree<K, V>, n: NodeRef): NodeItem<K, V>
    requires t.ref == n || n in Refs(t.children)
  {
    if t.ref == n then t.Item() else NodeIn(t.children, n)
  }

  /** What decrease-key does to the tree holding the node. */
  lemma DecreaseRootSound<K(!new), V>(t: Tree<K, V>, n: NodeRef, k: K, cmp: (K, K) -> int)
    requires IsTotalOrder(cmp) && WellFormed(t, cmp) && (t.ref == n || n in Refs(t.children))
    requires cmp(Target(t, n).key, k) <= 0
    ensures var r := DecreaseRoot(t, n, k, cmp);
            && r.0.ref == t.ref && WellFormed(r.0, cmp)
            && (r.1.Some? ==> WellFormed(r.1.value, cmp) && r.1.value.key == k && r.0.key == t.key)
            && (r.1.None? && t.ref == n ==> r.0.key == k && cmp(k, t.key) >= 0)
            && (r.1.None? && t.ref != n ==> r.0.key == t.key && cmp(t.key, k) >= 0)
            && multiset(Preorder([r.0] + Slot(r.1))) + multiset{Target(t, n)}
               == multiset(Preorder([t])) + multiset{Target(t, n).(key := k)}
  {
    if t.ref == n {
      RekeyWellFormed(t, k, cmp);
      Total(cmp, t.key, k);
      RekeyBag(t, t.(key := k));
      assert [t.(key := k)] + Slot<Tree<K, V>>(None) == [t.(key := k)];
    } else {
      DecreaseInSound(t, n, k, cmp);
    }
  }

  /** Swapping one item for another, seen through the tree that holds it. */
  lemma BagSwap<T>(a: multiset<T>, c: multiset<T>, t: multiset<T>, s: multiset<T>, x: T, x': T)
    requires a + c == t + s && s + multiset{x} == c + multiset{x'}
    ensures a + multiset{x} == t + multiset{x'}
  {
    forall e
      ensures (a + multiset{x})[e] == (t + multiset{x'})[e]
    {
      assert (a + c)[e] == (t + s)[e];
      assert (s + multiset{x})[e] == (c + multiset{x'})[e];
    }
  }

  /** An item swapped in for one already present is present afterwards. */
  lemma InAfterSwap<T>(a: multiset<T>, b: multiset<T>, x: T, x': T)
    requires a + multiset{x} == b + multiset{x'} && x in b
    ensures x' in a
  {
    assert (a + multiset{x})[x'] == (b + multiset{x'})[x'];
    if x == x' {
      assert (a + multiset{x})[x] == a[x] + 1;
    }
  }

  /** Root i replaced by t' and maybe a tree appended: the nodes of the old root's tree give way to the new ones. */
  lemma ReplaceRootBag<K, V>(ts: seq<Tree<K, V>>, i: nat, t': Tree<K, V>, cut: seq<Tree<K, V>>)
    requires i < |ts|
    ensures multiset(Preorder(ts[i := t'] + cut)) + multiset(Preorder([ts[i]]))
         == multiset(Preorder(ts)) + multiset(Preorder([t'] + cut))
  {
    PreorderSplit(ts, i);
    PreorderAppend(ts[i := t'], cut);
    PreorderSplit(ts[i := t'], i);
    UpdateAt(ts, i, t');
    PreorderAppend([t'], cut);
  }

  /** Root i replaced by a well-formed tree and maybe a well-formed tree appended: still a forest. */
  lemma ReplaceRootForest<K, V>(ts: seq<Tree<K, V>>, i: nat, t': Tree<K, V>, cut: Option<Tree<K, V>>, cmp: (K, K) -> int)
    requires i < |ts| && Forest(ts, cmp) && WellFormed(t', cmp) && (cut.Some? ==> WellFormed(cut.value, cmp))
    ensures Forest(ts[i := t'] + Slot(cut), cmp)
  {
    var nf := ts[i := t'] + Slot(cut);
    forall j | 0 <= j < |nf|
      ensures WellFormed(nf[j], cmp)
    {
      if j < |ts| && j != i {
        assert nf[j] == ts[j];
      }
    }
  }

  /** The same identities in both forests: one has no node twice when the other has none. */
  lemma SameRefs<K, V>(a: seq<Tree<K, V>>, b: seq<Tree<K, V>>)
    requires multiset(RefsOf(Preorder(a))) == multiset(RefsOf(Preorder(b))) && NoNodeTwice(b)
    ensures NoNodeTwice(a) && |Preorder(a)| == |Preorder(b)|
  {
    assert Refs(a) == Refs(b);
    assert |multiset(RefsOf(Preorder(a)))| == |multiset(RefsOf(Preorder(b)))|;
  }

  /** The forest after decrease-key rebuilt root i's tree and maybe cut a node to the roots. */
  lemma DecreaseKeyForest<K(!new), V>(ts: seq<Tree<K, V>>, i: nat, t': Tree<K, V>, cut: Option<Tree<K, V>>,
                                      x: NodeItem<K, V>, k: K, cmp: (K, K) -> int)
    requires i < |ts| && Forest(ts, cmp) && NoNodeTwice(ts) && WellFormed(t', cmp)
    requires cut.Some? ==> WellFormed(cut.value, cmp)
    requires multiset(Preorder([t'] + Slot(cut))) + multiset{x} == multiset(Preorder([ts[i]])) + multiset{x.(key := k)}
    ensures Forest(ts[i := t'] + Slot(cut), cmp)
    ensures multiset(Preorder(ts[i := t'] + Slot(cut))) + multiset{x} == multiset(Preorder(ts)) + multiset{x.(key := k)}
    ensures NoNodeTwice(ts[i := t'] + Slot(cut))
    ensures |Preorder(ts[i := t'] + Slot(cut))| == |Preorder(ts)|
  {
    var nf := ts[i := t'] + Slot(cut);
    ReplaceRootForest(ts, i, t', cut, cmp);
    ReplaceRootBag(ts, i, t', Slot(cut));
    BagSwap(multiset(Preorder(nf)), multiset(Preorder([ts[i]])), multiset(Preorder(ts)),
            multiset(Preorder([t'] + Slot(cut))), x, x.(key := k));
    RefsAfterSwap(Preorder(nf), Preorder(ts), x, x.(key := k));
    SameRefs(nf, ts);
  }

  /**
    The minimum after decrease-key offered root pos, whose key is now k: it is
    least among the roots and orders no later than k.  Only root i and the
    appended roots differ from before.
  */
  lemma DecreaseMinAt<K(!new), V>(ts: seq<Tree<K, V>>, m: nat, nf: seq<Tree<K, V>>, i: nat, pos: nat, k: K,
                                  cmp: (K, K) -> int)
    requires IsTotalOrder(cmp) && IsMinRoot(ts, m, cmp) && i < |ts| <= |nf| && pos < |nf| && nf[pos].key == k
    requires forall j :: 0 <= j < |ts| && j != i ==> nf[j].key == ts[j].key
    requires (pos == i && |nf| == |ts| && cmp(k, ts[i].key) >= 0) || (pos == |ts| && |nf| == |ts| + 1 && nf[i].key == ts[i].key)
    ensures NextMin(nf, Some(m), k, pos, cmp).Some?
    ensures var r := NextMin(nf, Some(m), k, pos, cmp).value;
            IsMinRoot(nf, r, cmp) && cmp(nf[r].key, k) >= 0
  {
    forall j | 0 <= j < |nf| && j != pos
      ensures cmp(nf[m].key, nf[j].key) >= 0
    {
      assert j < |ts| && nf[j].key == ts[j].key;
      if m == pos {
        Transitive(cmp, k, ts[i].key, ts[j].key);
      } else {
        assert nf[m].key == ts[m].key;
      }
    }
    NextMinLeast(nf, Some(m), pos, |nf|, cmp);
    Reflexive(cmp, k);
  }

  /** When every key stays and the minimum orders no later than k, the minimum stays. */
  lemma DecreaseMinStays<K(!new), V>(ts: seq<Tree<K, V>>, m: nat, nf: seq<Tree<K, V>>, i: nat, k: K, cmp: (K, K) -> int)
    requires IsTotalOrder(cmp) && IsMinRoot(ts, m, cmp) && i < |ts| == |nf|
    requires forall j :: 0 <= j < |ts| ==> nf[j].key == ts[j].key
    requires cmp(ts[i].key, k) >= 0
    ensures NextMin(nf, Some(m), k, i, cmp) == Some(m)
    ensures IsMinRoot(nf, m, cmp) && cmp(nf[m].key, k) >= 0
  {
    Transitive(cmp, ts[m].key, ts[i].key, k);
  }

  /** Where each entry of a root replaced and a tree maybe appended sits. */
  lemma ReplaceAppendAt<T>(ts: seq<T>, i: nat, t': T, cut: Option<T>)
    requires i < |ts|
    ensures var nf := ts[i := t'] + Slot(cut);
            && |nf| == (if cut.Some? then |ts| + 1 else |ts|)
            && nf[i] == t'
            && (forall j :: 0 <= j < |ts| && j != i ==> nf[j] == ts[j])
            && (cut.Some? ==> nf[|ts|] == cut.value)
  {
  }

  /** The minimum after decrease-key, from the keys of the rebuilt root and the cut node. */
  lemma DecreaseKeyMin<K(!new), V>(ts: seq<Tree<K, V>>, m: nat, i: nat, t': Tree<K, V>, cut: Option<Tree<K, V>>,
                                   k: K, cmp: (K, K) -> int)
    requires IsTotalOrder(cmp) && IsMinRoot(ts, m, cmp) && i < |ts|
    requires cut.Some? ==> cut.value.key == k && t'.key == ts[i].key
    requires cut.None? ==> (t'.key == k && cmp(k, ts[i].key) >= 0) || (t'.key == ts[i].key && cmp(ts[i].key, k) >= 0)
    ensures var nf := ts[i := t'] + Slot(cut);
            var pos := if cut.Some? then |ts| else i;
            && NextMin(nf, Some(m), k, pos, cmp).Some?
            && IsMinRoot(nf, NextMin(nf, Some(m), k, pos, cmp).value, cmp)
            && cmp(nf[NextMin(nf, Some(m), k, pos, cmp).value].key, k) >= 0
  {
    var nf := ts[i := t'] + Slot(cut);
    ReplaceAppendAt(ts, i, t', cut);
    if cut.Some? {
      DecreaseMinAt(ts, m, nf, i, |ts|, k, cmp);
    } else if t'.key == k && cmp(k, ts[i].key) >= 0 {
      DecreaseMinAt(ts, m, nf, i, i, k, cmp);
    } else {
      DecreaseMinStays(ts, m, nf, i, k, cmp);
    }
  }

  /**
    heap_decrease_key on the value level: from what the rebuilt tree and the
    cut node are known to be, the new forest nf and the minimum nm that
    _heap_update_min picks keep the heap invariant.
  */
  lemma DecreaseKeyOk<K(!new), V>(ts: seq<Tree<K, V>>, len: nat, m: Option<nat>, i: nat, t': Tree<K, V>,
                                  cut: Option<Tree<K, V>>, x: NodeItem<K, V>, k: K, cmp: (K, K) -> int,
                                  nf: seq<Tree<K, V>>, pos: nat, nm: Option<nat>)
    requires HeapOk(ts, len, m, cmp) && i < |ts| && x in Preorder(ts)
    requires WellFormed(t', cmp) && (cut.Some? ==> WellFormed(cut.value, cmp))
    requires cut.Some? ==> cut.value.key == k && t'.key == ts[i].key
    requires cut.None? ==> (t'.key == k && cmp(k, ts[i].key) >= 0) || (t'.key == ts[i].key && cmp(ts[i].key, k) >= 0)
    requires multiset(Preorder([t'] + Slot(cut))) + multiset{x} == multiset(Preorder([ts[i]])) + multiset{x.(key := k)}
    requires nf == ts[i := t'] + Slot(cut) && pos == (if cut.Some? then |ts| else i)
    requires m.Some? && nm == NextMin(nf, m, k, pos, cmp)
    ensures HeapOk(nf, len, nm, cmp)
    ensures nm.Some? && nm.value < |nf| && cmp(nf[nm.value].key, k) >= 0
    ensures multiset(Preorder(nf)) + multiset{x} == multiset(Preorder(ts)) + multiset{x.(key := k)}
    ensures x.(key := k) in Preorder(nf)
  {
    DecreaseKeyForest(ts, i, t', cut, x, k, cmp);
    DecreaseKeyMin(ts, m.value, i, t', cut, k, cmp);
    InAfterSwap(multiset(Preorder(nf)), multiset(Preorder(ts)), x, x.(key := k));
  }

  /** The iteration entries of items, in order. */
  function Iteration<K, V>(es: seq<NodeItem<K, V>>): (r: seq<(V, (K, NodeRef))>)
    ensures |r| == |es| && forall i :: 0 <= i < |es| ==> r[i] == (es[i].value, (es[i].key, es[i].ref))
  {
    seq(|es|, i requires 0 <= i < |es| => (es[i].value, (es[i].key, es[i].ref)))
  }

  lemma IterationAppend<K, V>(a: seq<NodeItem<K, V>>, b: seq<NodeItem<K, V>>)
    ensures Iteration(a + b) == Iteration(a) + Iteration(b)
  {
    assert forall i :: 0 <= i < |a + b| ==> Iteration(a + b)[i] == (Iteration(a) + Iteration(b))[i];
  }

  /** One more tree: its root's entry, then the entries of its children. */
  lemma IterationSnoc<K, V>(ts: seq<Tree<K, V>>, i: nat)
    requires i < |ts|
    ensures Iteration(Preorder(ts[..i + 1]))
         == Iteration(Preorder(ts[..i])) + [(ts[i].value, (ts[i].key, ts[i].ref))] + Iteration(Preorder(ts[i].children))
  {
    var t := ts[i];
    TakeSnoc(ts, i);
    PreorderAppend(ts[..i], [t]);
    PreorderOne(t);
    IterationAppend(Preorder(ts[..i]) + [t.Item()], Preorder(t.children));
    IterationAppend(Preorder(ts[..i]), [t.Item()]);
  }

  /** _heap_iterator_create_helper: each tree of the ring from its join, its root before its children. */
  method IterateRing<K, V>(ts: seq<Tree<K, V>>) returns (out: seq<(V, (K, NodeRef))>)
    ensures out == Iteration(Preorder(ts))
    decreases ts
  {
    out := [];
    for i := 0 to |ts|
      invariant out == Iteration(Preorder(ts[..i]))
    {
      var t := ts[i];
      var sub := IterateRing(t.children);
      IterationSnoc(ts, i);
      out := out + [(t.value, (t.key, t.ref))] + sub;
    }
    TakeAll(ts);
  }

  /**
    heap_meld: a fresh heap over the roots of h1 followed by those of h2, whose
    minimum is the lesser of the two minima, the first one on a tie.  The two
    heaps share no node.
  */
  method Meld<K(!new), V>(h1: Heap<K, V>, h2: Heap<K, V>, cmp: (K, K) -> int) returns (h: Heap<K, V>)
    requires h1.Valid() && h2.Valid() && h1.cmp == cmp && h2.cmp == cmp
    requires Refs(h1.forest) !! Refs(h2.forest)
    ensures fresh(h) && h.Valid() && h.cmp == cmp
    ensures h.len == h1.len + h2.len && h.forest == h1.forest + h2.forest
    ensures multiset(Preorder(h.forest)) == multiset(Preorder(h1.forest)) + multiset(Preorder(h2.forest))
    ensures h1.PeekMin().None? ==> h.PeekMin() == h2.PeekMin()
    ensures h2.PeekMin().None? ==> h.PeekMin() == h1.PeekMin()
    ensures h1.PeekMin().Some? && h2.PeekMin().Some? ==>
              h.PeekMin() == if cmp(h2.PeekMin().value.0, h1.PeekMin().value.0) <= 0 then h1.PeekMin() else h2.PeekMin()
  {
    h := MeldRoots(h1.forest, h1.len, h1.min, h2.forest, h2.len, h2.min, cmp);
    PeekMinIsRoot(h1);
    PeekMinIsRoot(h2);
    PeekMinIsRoot(h);
  }

  /** The item heap_peek_min returns is that of the minimum root. */
  lemma PeekMinIsRoot<K(!new), V>(h: Heap<K, V>)
    requires h.Valid()
    ensures h.PeekMin() == RootItem(h.forest, h.min)
  {
  }

  /** The work of heap_meld on the fields of the two heaps. */
  method MeldRoots<K(!new), V>(f1: seq<Tree<K, V>>, len1: nat, m1: Option<nat>, f2: seq<Tree<K, V>>, len2: nat,
                               m2: Option<nat>, cmp: (K, K) -> int) returns (h: Heap<K, V>)
    requires HeapOk(f1, len1, m1, cmp) && HeapOk(f2, len2, m2, cmp) && Refs(f1) !! Refs(f2)
    ensures fresh(h) && h.Valid() && h.cmp == cmp
    ensures h.len == len1 + len2 && h.forest == f1 + f2
    ensures multiset(Preorder(h.forest)) == multiset(Preorder(f1)) + multiset(Preorder(f2))
    ensures RootItem(f1, m1).None? ==> RootItem(h.forest, h.min) == RootItem(f2, m2)
    ensures RootItem(f2, m2).None? ==> RootItem(h.forest, h.min) == RootItem(f1, m1)
    ensures RootItem(f1, m1).Some? && RootItem(f2, m2).Some? ==>
              RootItem(h.forest, h.min) == if cmp(RootItem(f2, m2).value.0, RootItem(f1, m1).value.0) <= 0
                                           then RootItem(f1, m1) else RootItem(f2, m2)
  {
    var off := |f1|;
    var m: Option<nat>;
    if m1.None? {
      m := if m2.None? then None else Some(m2.value + off);
    } else if m2.None? {
      m := m1;
    } else if cmp(f2[m2.value].key, f1[m1.value].key) <= 0 {
      m := m1;
    } else {
      m := Some(m2.value + off);
    }
    MeldOk(f1, len1, m1, f2, len2, m2, cmp, f1 + f2, m);
    MeldRoot(f1, m1, f2, m2, cmp, m);
    h := new Heap.Of(cmp, f1 + f2, len1 + len2, m);
  }

  /** Two forests with no node in common, side by side, still hold no node twice. */
  lemma NoNodeTwiceAppend<K, V>(a: seq<Tree<K, V>>, b: seq<Tree<K, V>>)
    requires NoNodeTwice(a) && NoNodeTwice(b) && Refs(a) !! Refs(b)
    ensures NoNodeTwice(a + b)
  {
    PreorderAppend(a, b);
    RefsOfAppend(Preorder(a), Preorder(b));
    assert Refs(a + b) == Refs(a) + Refs(b);
    forall r | r in Refs(a + b)
      ensures Refs(a + b)[r] <= 1
    {
      if r in Refs(a) {
        assert r !in Refs(b);
      }
    }
  }

  /**
    heap_meld on the value level: the roots of two valid heaps with no node in
    common, side by side, make a valid heap of both sizes whose minimum is the
    lesser of the two, with ties going to the first.
  */
  lemma MeldOk<K(!new), V>(f1: seq<Tree<K, V>>, len1: nat, m1: Option<nat>, f2: seq<Tree<K, V>>, len2: nat,
                           m2: Option<nat>, cmp: (K, K) -> int, nf: seq<Tree<K, V>>, nm: Option<nat>)
    requires HeapOk(f1, len1, m1, cmp) && HeapOk(f2, len2, m2, cmp) && Refs(f1) !! Refs(f2)
    requires nf == f1 + f2
    requires nm == if m1.None? then (if m2.None? then None else Some(m2.value + |f1|))
                   else if m2.None? then m1
                   else if cmp(f2[m2.value].key, f1[m1.value].key) <= 0 then m1
                   else Some(m2.value + |f1|)
    ensures HeapOk(nf, len1 + len2, nm, cmp)
    ensures multiset(Preorder(nf)) == multiset(Preorder(f1)) + multiset(Preorder(f2))
  {
    PreorderAppend(f1, f2);
    NoNodeTwiceAppend(f1, f2);
    MeldMin(f1, f2, m1, m2, nm, cmp);
    ForestAppend(f1, f2, cmp);
  }

  /** The melded minimum item is the lesser of the two minimum items, the first one on a tie. */
  lemma MeldRoot<K, V>(f1: seq<Tree<K, V>>, m1: Option<nat>, f2: seq<Tree<K, V>>, m2: Option<nat>,
                       cmp: (K, K) -> int, nm: Option<nat>)
    requires (m1.Some? ==> m1.value < |f1|) && (m2.Some? ==> m2.value < |f2|)
    requires nm == if m1.None? then (if m2.None? then None else Some(m2.value + |f1|))
                   else if m2.None? then m1
                   else if cmp(f2[m2.value].key, f1[m1.value].key) <= 0 then m1
                   else Some(m2.value + |f1|)
    ensures RootItem(f1, m1).None? ==> RootItem(f1 + f2, nm) == RootItem(f2, m2)
    ensures RootItem(f2, m2).None? ==> RootItem(f1 + f2, nm) == RootItem(f1, m1)
    ensures RootItem(f1, m1).Some? && RootItem(f2, m2).Some? ==>
              RootItem(f1 + f2, nm) == if cmp(RootItem(f2, m2).value.0, RootItem(f1, m1).value.0) <= 0
                                       then RootItem(f1, m1) else RootItem(f2, m2)
  {
    if m2.Some? {
      assert (f1 + f2)[m2.value + |f1|] == f2[m2.value];
    }
    if m1.Some? {
      assert (f1 + f2)[m1.value] == f1[m1.value];
    }
  }

  /** Two forests side by side make a forest. */
  lemma ForestAppend<K, V>(a: seq<Tree<K, V>>, b: seq<Tree<K, V>>, cmp: (K, K) -> int)
    requires Forest(a, cmp) && Forest(b, cmp)
    ensures Forest(a + b, cmp)
  {
    forall i | 0 <= i < |a + b|
      ensures WellFormed((a + b)[i], cmp)
    {
      if i >= |a| {
        assert (a + b)[i] == b[i - |a|];
      }
    }
  }

  /** The melded minimum is least among the roots of both forests. */
  lemma MeldMin<K(!new), V>(f1: seq<Tree<K, V>>, f2: seq<Tree<K, V>>, m1: Option<nat>, m2: Option<nat>, m: Option<nat>,
                            cmp: (K, K) -> int)
    requires IsTotalOrder(cmp)
    requires (m1.None? <==> f1 == []) && (m1.Some? ==> IsMinRoot(f1, m1.value, cmp))
    requires (m2.None? <==> f2 == []) && (m2.Some? ==> IsMinRoot(f2, m2.value, cmp))
    requires m == if m1.None? then (if m2.None? then None else Some(m2.value + |f1|))
                  else if m2.None? then m1
                  else if cmp(f2[m2.value].key, f1[m1.value].key) <= 0 then m1
                  else Some(m2.value + |f1|)
    ensures (m.None? <==> f1 + f2 == []) && (m.Some? ==> IsMinRoot(f1 + f2, m.value, cmp))
  {
    var f := f1 + f2;
    if m1.Some? && m2.Some? {
      var k1, k2 := f1[m1.value].key, f2[m2.value].key;
      Total(cmp, k2, k1);
      forall j | 0 <= j < |f|
        ensures cmp(f[m.value].key, f[j].key) >= 0
      {
        if cmp(k2, k1) <= 0 {
          if j >= |f1| {
            Transitive(cmp, k1, k2, f[j].key);
          }
        } else if j < |f1| {
          Transitive(cmp, k2, k1, f[j].key);
        }
      }
    }
  }
}
