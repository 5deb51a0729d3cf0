/**
  Model of list_extended.c: algorithms that build fresh lists from existing
  ones, and the ping-pong merge sort.  Comparators follow the library's
  convention: cmp(a, b) > 0 means that a orders before b.
*/
module ListExtended {
  import opened Lists
  import opened Order
  import opened Wrappers
  import Str

  /** list_copy: a fresh list with the same entries. */
  method Copy<T>(l: List<T>) returns (c: List<T>)
    requires l.Valid()
    ensures fresh(c) && fresh(c.arr) && c.Valid() && c.nil == l.nil
    ensures c.Contents() == l.Contents()
  {
    ghost var src := l.Contents();
    var n := l.Len();
    c := new List(n, l.nil);
    for i := 0 to n
      invariant fresh(c) && fresh(c.arr) && c.Valid() && c.len == n
      invariant forall k :: 0 <= k < i ==> c.arr[k] == src[k]
    {
      c.Set(i, l.Get(i));
    }
    assert forall k :: 0 <= k < n ==> c.Contents()[k] == src[k];
  }

  /**
    list_map: a fresh list whose i-th entry is f applied to the i-th entry.
    list_deep_copy is the same loop with the element copier as f.
  */
  method Map<T>(l: List<T>, f: T -> T) returns (m: List<T>)
    requires l.Valid()
    ensures fresh(m) && fresh(m.arr) && m.Valid()
    ensures |m.Contents()| == |l.Contents()|
    ensures forall i :: 0 <= i < |l.Contents()| ==> m.Contents()[i] == f(l.Contents()[i])
  {
    ghost var src := l.Contents();
    var n := l.Len();
    m := new List(n, l.nil);
    for i := 0 to n
      invariant fresh(m) && fresh(m.arr) && m.Valid() && m.len == n
      invariant forall k :: 0 <= k < i ==> m.arr[k] == f(src[k])
    {
      m.Set(i, f(l.Get(i)));
    }
  }

  /**
    list_splice: the entries from start up to (not including) end.  The C
    asserts start < len, end < len and start <= end.
  */
  method Splice<T>(l: List<T>, start: nat, end: nat) returns (s: List<T>)
    requires l.Valid() && start < l.len && end < l.len && start <= end
    ensures fresh(s) && fresh(s.arr) && s.Valid()
    ensures s.Contents() == l.Contents()[start..end]
  {
    ghost var src := l.Contents()[start..end];
    s := new List(end - start, l.nil);
    for i := 0 to end - start
      invariant fresh(s) && fresh(s.arr) && s.Valid() && s.len == end - start
      invariant forall k :: 0 <= k < i ==> s.arr[k] == src[k]
    {
      s.Set(i, l.Get(start + i));
    }
    assert forall k :: 0 <= k < end - start ==> s.Contents()[k] == src[k];
  }

  /** list_concat: a fresh list holding l1's entries, then l2's. */
  method Concat<T>(l1: List<T>, l2: List<T>) returns (c: List<T>)
    requires l1.Valid() && l2.Valid()
    ensures fresh(c) && fresh(c.arr) && c.Valid()
    ensures c.Contents() == l1.Contents() + l2.Contents()
  {
    ghost var head, tail := l1.Contents(), l2.Contents();
    c := Copy(l1);
    for i := 0 to l2.Len()
      invariant fresh(c) && fresh(c.arr) && c.Valid()
      invariant c.Contents() == head + tail[..i]
    {
      c.Push(l2.Get(i));
      assert tail[..i + 1] == tail[..i] + [tail[i]];
    }
    assert tail[..|tail|] == tail;
  }

  /** The left-to-right fold of combine over s, starting from acc. */
  function FoldLeft<A, T>(combine: (A, T) -> A, acc: A, s: seq<T>): A
  {
    if s == [] then acc else FoldLeft(combine, combine(acc, s[0]), s[1..])
  }

  /** Folding over a concatenation folds over the second part from the first part's result. */
  lemma {:induction false} FoldLeftAppend<A, T>(combine: (A, T) -> A, acc: A, s: seq<T>, t: seq<T>)
    ensures FoldLeft(combine, acc, s + t) == FoldLeft(combine, FoldLeft(combine, acc, s), t)
  {
    if s != [] {
      assert (s + t)[1..] == s[1..] + t;
      FoldLeftAppend(combine, combine(acc, s[0]), s[1..], t);
    } else {
      assert s + t == t;
    }
  }

  /**
    list_reduce: combine each entry into the accumulator, left to right.  The C
    combine updates acc in place; here it returns the new accumulator.
  */
  method Reduce<A, T>(l: List<T>, combine: (A, T) -> A, acc: A) returns (r: A)
    requires l.Valid()
    ensures r == FoldLeft(combine, acc, l.Contents())
  {
    r := acc;
    for i := 0 to l.Len()
      invariant r == FoldLeft(combine, acc, l.Contents()[..i])
    {
      assert l.Contents()[..i + 1] == l.Contents()[..i] + [l.Contents()[i]];
      FoldLeftAppend(combine, acc, l.Contents()[..i], [l.Contents()[i]]);
      r := combine(r, l.Get(i));
    }
    assert l.Contents()[..l.Len()] == l.Contents();
  }

  /** The rendering of each entry, in order. */
  function Rendered<T>(s: seq<T>, entryString: T -> string): (r: seq<string>)
    ensures |r| == |s| && forall i :: 0 <= i < |s| ==> r[i] == entryString(s[i])
  {
    seq(|s|, i requires 0 <= i < |s| => entryString(s[i]))
  }

  /** list_string: "[" then the entry strings separated by commas, then "]". */
  method String<T>(l: List<T>, entryString: T -> string) returns (res: string)
    requires l.Valid()
    ensures res == "[" + Str.Joined(Rendered(l.Contents(), entryString), ",") + "]"
    ensures l.len == 0 ==> res == "[]"
  {
    ghost var strs := Rendered(l.Contents(), entryString);
    var body := "";
    for i := 0 to l.Len()
      invariant body == Str.Joined(strs[..i], ",")
    {
      var eStr := entryString(l.Get(i));
      if i != 0 {
        body := body + ",";
      }
      body := body + eStr;
      assert strs[..i + 1] == strs[..i] + [eStr];
      Str.JoinedSnoc(strs[..i], eStr, ",");
    }
    assert strs[..l.Len()] == strs;
    res := "[" + body + "]";
  }

  // ---------------------------------------------------------------------------
  // Merge sort

  /**
    The merge _merge performs: the head of a is taken only when it orders
    strictly before the head of b (or b is used up), so among equal entries
    those of b come first.
  */
  function MergeSpec<T>(a: seq<T>, b: seq<T>, cmp: (T, T) -> int): (r: seq<T>)
    ensures |r| == |a| + |b|
    decreases |a| + |b|
  {
    if a == [] then b
    else if b == [] then a
    else if cmp(a[0], b[0]) > 0 then [a[0]] + MergeSpec(a[1..], b, cmp)
    else [b[0]] + MergeSpec(a, b[1..], cmp)
  }

  /** The result of _sort: split at half the length, sort both halves, merge. */
  function SortSpec<T>(s: seq<T>, cmp: (T, T) -> int): (r: seq<T>)
    ensures |r| == |s|
    decreases |s|
  {
    if |s| <= 1 then s
    else MergeSpec(SortSpec(s[..|s| / 2], cmp), SortSpec(s[|s| / 2..], cmp), cmp)
  }

  /** Each entry orders no later than the next one. */
  ghost predicate Sorted<T>(s: seq<T>, cmp: (T, T) -> int)
  {
    forall i :: 0 <= i < |s| - 1 ==> cmp(s[i], s[i + 1]) >= 0
  }

  /** Merging is a permutation of the two inputs together. */
  lemma {:induction false} MergePermutation<T>(a: seq<T>, b: seq<T>, cmp: (T, T) -> int)
    ensures multiset(MergeSpec(a, b, cmp)) == multiset(a) + multiset(b)
    decreases |a| + |b|
  {
    if a != [] && b != [] {
      if cmp(a[0], b[0]) > 0 {
        MergePermutation(a[1..], b, cmp);
        ConsMultiset(a, MergeSpec(a[1..], b, cmp), multiset(b));
      } else {
        MergePermutation(a, b[1..], cmp);
        ConsMultiset(b, MergeSpec(a, b[1..], cmp), multiset(a));
      }
    }
  }

  /** Putting the head of s back in front of a permutation of the rest of s (plus m) gives a permutation of s (plus m). */
  lemma ConsMultiset<T>(s: seq<T>, rest: seq<T>, m: multiset<T>)
    requires s != [] && multiset(rest) == multiset(s[1..]) + m
    ensures multiset([s[0]] + rest) == multiset(s) + m
  {
    assert s == [s[0]] + s[1..];
  }

  /** A sorted sequence stays sorted when an entry ordering no later than its head is put in front. */
  lemma SortedCons<T>(x: T, s: seq<T>, cmp: (T, T) -> int)
    requires Sorted(s, cmp) && (s != [] ==> cmp(x, s[0]) >= 0)
    ensures Sorted([x] + s, cmp)
  {
    forall i | 0 <= i < |s|
      ensures cmp(([x] + s)[i], ([x] + s)[i + 1]) >= 0
    {
      if i > 0 {
        assert ([x] + s)[i] == s[i - 1] && ([x] + s)[i + 1] == s[i];
      }
    }
  }

  /** The merge starts with the head of one of its inputs. */
  lemma MergeHead<T>(a: seq<T>, b: seq<T>, cmp: (T, T) -> int)
    requires a != [] || b != []
    ensures (a != [] && MergeSpec(a, b, cmp)[0] == a[0]) || (b != [] && MergeSpec(a, b, cmp)[0] == b[0])
  {
  }

  /** Merging two sorted sequences gives a sorted sequence. */
  lemma {:induction false} MergeSorted<T(!new)>(a: seq<T>, b: seq<T>, cmp: (T, T) -> int)
    requires IsTotalOrder(cmp) && Sorted(a, cmp) && Sorted(b, cmp)
    ensures Sorted(MergeSpec(a, b, cmp), cmp)
    decreases |a| + |b|
  {
    if a != [] && b != [] {
      if cmp(a[0], b[0]) > 0 {
        var rest := MergeSpec(a[1..], b, cmp);
        assert Sorted(a[1..], cmp);
        MergeSorted(a[1..], b, cmp);
        MergeHead(a[1..], b, cmp);
        SortedCons(a[0], rest, cmp);
      } else {
        var rest := MergeSpec(a, b[1..], cmp);
        assert Sorted(b[1..], cmp);
        MergeSorted(a, b[1..], cmp);
        MergeHead(a, b[1..], cmp);
        Total(cmp, a[0], b[0]);
        SortedCons(b[0], rest, cmp);
      }
    }
  }

  /** The sort result is a permutation of its input. */
  lemma {:induction false} SortPermutation<T>(s: seq<T>, cmp: (T, T) -> int)
    ensures multiset(SortSpec(s, cmp)) == multiset(s)
    decreases |s|
  {
    if |s| > 1 {
      var low, high := s[..|s| / 2], s[|s| / 2..];
      var sortedLow, sortedHigh := SortSpec(low, cmp), SortSpec(high, cmp);
      assert multiset(sortedLow) == multiset(low) by { SortPermutation(low, cmp); }
      assert multiset(sortedHigh) == multiset(high) by { SortPermutation(high, cmp); }
      assert multiset(SortSpec(s, cmp)) == multiset(sortedLow) + multiset(sortedHigh) by {
        MergePermutation(sortedLow, sortedHigh, cmp);
      }
      assert multiset(s) == multiset(low) + multiset(high) by { assert s == low + high; }
    }
  }

  /** Under a total order the sort result is sorted. */
  lemma {:induction false} SortSorted<T(!new)>(s: seq<T>, cmp: (T, T) -> int)
    requires IsTotalOrder(cmp)
    ensures Sorted(SortSpec(s, cmp), cmp)
    decreases |s|
  {
    if |s| > 1 {
      SortSorted(s[..|s| / 2], cmp);
      SortSorted(s[|s| / 2..], cmp);
      MergeSorted(SortSpec(s[..|s| / 2], cmp), SortSpec(s[|s| / 2..], cmp), cmp);
    }
  }

  /** b agrees with a everywhere outside the index range [start, end). */
  ghost predicate SameOutside<T>(a: seq<T>, b: seq<T>, start: nat, end: nat)
  {
    |a| == |b| && forall k :: 0 <= k < |a| && !(start <= k < end) ==> a[k] == b[k]
  }

  /** A stretch lying outside [start, end) is the same in both. */
  lemma SameOutsideSlice<T>(a: seq<T>, b: seq<T>, start: nat, end: nat, lo: nat, hi: nat)
    requires SameOutside(a, b, start, end) && lo <= hi <= |a| && (hi <= start || end <= lo)
    ensures a[lo..hi] == b[lo..hi]
  {
    assert forall k :: lo <= k < hi ==> a[k] == b[k];
  }

  /** Agreement outside a range carries over to any wider range, and composes. */
  lemma SameOutsideTrans<T>(a: seq<T>, b: seq<T>, c: seq<T>, lo1: nat, hi1: nat, lo2: nat, hi2: nat, start: nat, end: nat)
    requires SameOutside(a, b, lo1, hi1) && SameOutside(b, c, lo2, hi2)
    requires start <= lo1 && hi1 <= end && start <= lo2 && hi2 <= end
    ensures SameOutside(a, c, start, end)
  {
  }

  /** One step of _merge taking the head of the first part. */
  lemma MergeTakeFirst<T>(out: seq<T>, a: seq<T>, b: seq<T>, target: seq<T>, cmp: (T, T) -> int)
    requires a != [] && (b == [] || cmp(a[0], b[0]) > 0)
    requires out + MergeSpec(a, b, cmp) == target
    ensures (out + [a[0]]) + MergeSpec(a[1..], b, cmp) == target
  {
    if b == [] {
      assert a == [a[0]] + a[1..];
    }
    assert MergeSpec(a, b, cmp) == [a[0]] + MergeSpec(a[1..], b, cmp);
  }

  /** One step of _merge taking the head of the second part. */
  lemma MergeTakeSecond<T>(out: seq<T>, a: seq<T>, b: seq<T>, target: seq<T>, cmp: (T, T) -> int)
    requires b != [] && (a == [] || cmp(a[0], b[0]) <= 0)
    requires out + MergeSpec(a, b, cmp) == target
    ensures (out + [b[0]]) + MergeSpec(a, b[1..], cmp) == target
  {
    assert MergeSpec(a, b, cmp) == [b[0]] + MergeSpec(a, b[1..], cmp);
  }

  /**
    _merge: write into L[start..end) the merge of the sorted parts
    W[start..pivot) and W[pivot..end), reading W through the cursors
    first_part_index and second_part_index.  L and W are the buffers of the
    two lists of the ping-pong sort.
  */
  method Merge<T>(L: array<T>, W: array<T>, start: nat, pivot: nat, end: nat, cmp: (T, T) -> int)
    requires L != W && L.Length == W.Length
    requires start < pivot < end <= L.Length
    modifies L
    ensures L[start..end] == MergeSpec(W[start..pivot], W[pivot..end], cmp)
    ensures SameOutside(old(L[..]), L[..], start, end)
  {
    ghost var L0 := L[..];
    ghost var target := MergeSpec(W[start..pivot], W[pivot..end], cmp);
    // out is what has been written to L[start..final); ra and rb are what is left of the two parts
    ghost var out: seq<T> := [];
    ghost var ra := W[start..pivot];
    ghost var rb := W[pivot..end];
    var first := start;
    var second := pivot;
    var final := start;
    var e1 := W[first];
    var e2 := W[second];
    while first != pivot || second != end
      invariant start <= first <= pivot <= second <= end && final == first + second - pivot
      invariant ra == W[first..pivot] && rb == W[second..end]
      invariant first < pivot ==> e1 == ra[0]
      invariant second < end ==> e2 == rb[0]
      invariant out + MergeSpec(ra, rb, cmp) == target
      invariant |out| == final - start && forall k :: start <= k < final ==> L[k] == out[k - start]
      invariant SameOutside(L0, L[..], start, end)
      decreases pivot - first + end - second
    {
      var comp := cmp(e1, e2);
      if first < pivot && (comp > 0 || second == end) {
        MergeTakeFirst(out, ra, rb, target, cmp);
        L[final] := e1;
        out, ra := out + [e1], ra[1..];
        first := first + 1;
        final := final + 1;
        if first < pivot {
          e1 := W[first];
        }
      } else {
        // first == pivot or comp <= 0; the loop guard leaves second < end
        MergeTakeSecond(out, ra, rb, target, cmp);
        L[final] := e2;
        out, rb := out + [e2], rb[1..];
        second := second + 1;
        final := final + 1;
        if second < end {
          e2 := W[second];
        }
      }
    }
    assert L[start..end] == out;
  }

  /**
    _sort: sort L[start..end), given that W agrees with L on that range.  The
    halves are sorted into W (with L as the scratch buffer) and merged back
    into L.  Nothing outside the range changes in either buffer.
  */
  method SortRange<T>(L: array<T>, W: array<T>, start: nat, end: nat, cmp: (T, T) -> int)
    requires L != W && L.Length == W.Length
    requires start <= end <= L.Length
    requires L[start..end] == W[start..end]
    modifies L, W
    ensures L[start..end] == SortSpec(old(L[start..end]), cmp)
    ensures SameOutside(old(L[..]), L[..], start, end)
    ensures SameOutside(old(W[..]), W[..], start, end)
    decreases end - start
  {
    if end - start <= 1 {
      return;
    }
    ghost var L0, W0 := L[..], W[..];
    ghost var x := L[start..end];
    var pivot := (end - start) / 2 + start;
    ghost var high := x[|x| / 2..];
    assert x[..|x| / 2] == L[start..pivot] == W[start..pivot];
    assert high == L[pivot..end] == W[pivot..end];
    SortRange(W, L, start, pivot, cmp);
    ghost var L1, W1 := L[..], W[..];
    ghost var sortedLow := W[start..pivot];
    SameOutsideSlice(L0, L1, start, pivot, pivot, end);
    SameOutsideSlice(W0, W1, start, pivot, pivot, end);
    SortRange(W, L, pivot, end, cmp);
    ghost var L2, W2 := L[..], W[..];
    SameOutsideSlice(W1, W2, pivot, end, start, pivot);
    Merge(L, W, start, pivot, end, cmp);
    SameOutsideTrans(W0, W1, W2, start, pivot, pivot, end, start, end);
    SameOutsideTrans(L0, L1, L2, start, pivot, pivot, end, start, end);
    SameOutsideTrans(L0, L2, L[..], start, end, start, end, start, end);
  }

  /**
    list_sort: a fresh sorted copy; the input is left as it is.  Under a total
    order the result is sorted, and it is always a permutation of the input.
  */
  method Sort<T(!new)>(l: List<T>, cmp: (T, T) -> int) returns (s: List<T>)
    requires l.Valid()
    ensures fresh(s) && fresh(s.arr) && s.Valid()
    ensures s.Contents() == SortSpec(l.Contents(), cmp)
    ensures multiset(s.Contents()) == multiset(l.Contents())
    ensures IsTotalOrder(cmp) ==> Sorted(s.Contents(), cmp)
  {
    s := Copy(l);
    var w := Copy(s);
    CapacityUnique(s.len, s.capacity, w.capacity);
    SortRange(s.arr, w.arr, 0, s.Len(), cmp);
    SortPermutation(l.Contents(), cmp);
    if IsTotalOrder(cmp) {
      SortSorted(l.Contents(), cmp);
    }
  }

  /**
    The entries list_unique keeps from s: an entry is kept when there is no
    previously kept one, or when it does not compare equal to the previously
    kept one.
  */
  function DedupFrom<T>(s: seq<T>, prev: Option<T>, cmp: (T, T) -> int): seq<T>
  {
    if s == [] then []
    else if prev.None? || cmp(prev.value, s[0]) != 0 then [s[0]] + DedupFrom(s[1..], Some(s[0]), cmp)
    else DedupFrom(s[1..], prev, cmp)
  }

  /** Every kept entry comes from s, and none compares equal to its predecessor (or to prev, for the first). */
  lemma {:induction false} DedupDistinctNeighbours<T>(s: seq<T>, prev: Option<T>, cmp: (T, T) -> int)
    ensures var r := DedupFrom(s, prev, cmp);
      && (forall x :: x in r ==> x in s)
      && (prev.Some? && r != [] ==> cmp(prev.value, r[0]) != 0)
      && (forall i :: 0 <= i < |r| - 1 ==> cmp(r[i], r[i + 1]) != 0)
  {
    if s != [] {
      DedupDistinctNeighbours(s[1..], Some(s[0]), cmp);
      DedupDistinctNeighbours(s[1..], prev, cmp);
      if prev.None? || cmp(prev.value, s[0]) != 0 {
        var rest := DedupFrom(s[1..], Some(s[0]), cmp);
        assert DedupFrom(s, prev, cmp) == [s[0]] + rest;
        forall i | 0 <= i < |rest|
          ensures cmp(([s[0]] + rest)[i], ([s[0]] + rest)[i + 1]) != 0
        {
          if i > 0 {
            assert ([s[0]] + rest)[i] == rest[i - 1] && ([s[0]] + rest)[i + 1] == rest[i];
          }
        }
      }
    }
  }

  /** Keeping entries of a sorted sequence keeps it sorted; the first kept entry orders no earlier than s[0]. */
  lemma {:induction false} DedupSorted<T(!new)>(s: seq<T>, prev: Option<T>, cmp: (T, T) -> int)
    requires IsTotalOrder(cmp) && Sorted(s, cmp)
    ensures var r := DedupFrom(s, prev, cmp);
      Sorted(r, cmp) && (r != [] ==> cmp(s[0], r[0]) >= 0)
  {
    if s != [] {
      var tail := s[1..];
      assert Sorted(tail, cmp);
      if prev.None? || cmp(prev.value, s[0]) != 0 {
        var rest := DedupFrom(tail, Some(s[0]), cmp);
        DedupSorted(tail, Some(s[0]), cmp);
        if rest != [] {
          Transitive(cmp, s[0], s[1], rest[0]);
        }
        SortedCons(s[0], rest, cmp);
        Reflexive(cmp, s[0]);
      } else {
        var rest := DedupFrom(tail, prev, cmp);
        DedupSorted(tail, prev, cmp);
        if rest != [] {
          Transitive(cmp, s[0], s[1], rest[0]);
        }
      }
    }
  }

  /** x compares equal to some entry of r. */
  ghost predicate CoveredBy<T>(x: T, r: seq<T>, cmp: (T, T) -> int)
  {
    exists j :: 0 <= j < |r| && cmp(r[j], x) == 0
  }

  /** Each entry of s compares equal to a kept entry, or to prev. */
  lemma {:induction false} DedupCovers<T(!new)>(s: seq<T>, prev: Option<T>, cmp: (T, T) -> int)
    requires IsTotalOrder(cmp)
    ensures forall i :: 0 <= i < |s| ==>
      (prev.Some? && cmp(prev.value, s[i]) == 0) || CoveredBy(s[i], DedupFrom(s, prev, cmp), cmp)
  {
    if s != [] {
      var r := DedupFrom(s, prev, cmp);
      if prev.None? || cmp(prev.value, s[0]) != 0 {
        var rest := DedupFrom(s[1..], Some(s[0]), cmp);
        DedupCovers(s[1..], Some(s[0]), cmp);
        assert r == [s[0]] + rest;
        Reflexive(cmp, s[0]);
        forall i | 0 <= i < |s|
          ensures CoveredBy(s[i], r, cmp)
        {
          if i == 0 || cmp(s[0], s[i]) == 0 {
            assert cmp(r[0], s[i]) == 0;
          } else {
            assert s[i] == s[1..][i - 1];
            var j :| 0 <= j < |rest| && cmp(rest[j], s[i]) == 0;
            assert r[j + 1] == rest[j];
          }
        }
      } else {
        DedupCovers(s[1..], prev, cmp);
        assert r == DedupFrom(s[1..], prev, cmp);
        forall i | 1 <= i < |s|
          ensures (prev.Some? && cmp(prev.value, s[i]) == 0) || CoveredBy(s[i], r, cmp)
        {
          assert s[i] == s[1..][i - 1];
        }
      }
    }
  }

  /**
    list_unique: the sorted input with each run of entries comparing equal cut
    down to its first one.  No two neighbours of the result compare equal, and
    every result entry is an input entry.  Under a total order the result is
    sorted and every input entry compares equal to some result entry.
  */
  method Unique<T(!new)>(l: List<T>, cmp: (T, T) -> int) returns (u: List<T>)
    requires l.Valid()
    ensures fresh(u) && fresh(u.arr) && u.Valid()
    ensures u.Contents() == DedupFrom(SortSpec(l.Contents(), cmp), None, cmp)
  {
    var s := Sort(l, cmp);
    u := KeepFirsts(s, cmp);
  }

  /** The loop of list_unique: push each entry that does not compare equal to the last one pushed. */
  method KeepFirsts<T>(s: List<T>, cmp: (T, T) -> int) returns (u: List<T>)
    requires s.Valid()
    ensures fresh(u) && fresh(u.arr) && u.Valid()
    ensures u.Contents() == DedupFrom(s.Contents(), None, cmp)
  {
    u := new List(0, s.nil);
    var prev: Option<T> := None;
    ghost var sorted := s.Contents();
    var src, n := s.arr, s.Len();
    for i := 0 to n
      invariant fresh(u) && fresh(u.arr) && u.Valid() && u.arr != src
      invariant src[..n] == sorted
      invariant u.Contents() + DedupFrom(sorted[i..], prev, cmp) == DedupFrom(sorted, None, cmp)
    {
      var curr := src[i];
      assert curr == sorted[i];
      DedupStep(sorted, i, prev, cmp);
      if prev == None || cmp(prev.value, curr) != 0 {
        ghost var kept := u.Contents();
        u.Push(curr);
        prev := Some(curr);
        assert u.Contents() + DedupFrom(sorted[i + 1..], prev, cmp) == kept + ([curr] + DedupFrom(sorted[i + 1..], prev, cmp));
      }
    }
  }

  /** One round of list_unique's loop: DedupFrom on a suffix, unfolded once. */
  lemma DedupStep<T>(t: seq<T>, i: nat, prev: Option<T>, cmp: (T, T) -> int)
    requires i < |t|
    ensures DedupFrom(t[i..], prev, cmp) ==
      if prev.None? || cmp(prev.value, t[i]) != 0 then [t[i]] + DedupFrom(t[i + 1..], Some(t[i]), cmp)
      else DedupFrom(t[i + 1..], prev, cmp)
  {
    assert t[i..][1..] == t[i + 1..];
  }

  /** The result of list_unique has no two neighbours comparing equal, and only input entries. */
  lemma UniqueDistinctNeighbours<T>(s: seq<T>, cmp: (T, T) -> int)
    ensures var r := DedupFrom(SortSpec(s, cmp), None, cmp);
      && (forall x :: x in r ==> x in s)
      && (forall i :: 0 <= i < |r| - 1 ==> cmp(r[i], r[i + 1]) != 0)
  {
    DedupDistinctNeighbours(SortSpec(s, cmp), None, cmp);
    SortPermutation(s, cmp);
    forall x | x in SortSpec(s, cmp)
      ensures x in s
    {
      assert x in multiset(SortSpec(s, cmp));
    }
  }

  /** Under a total order the result of list_unique is strictly increasing in the comparator's sense. */
  lemma UniqueSorted<T(!new)>(s: seq<T>, cmp: (T, T) -> int)
    requires IsTotalOrder(cmp)
    ensures var r := DedupFrom(SortSpec(s, cmp), None, cmp);
      Sorted(r, cmp) && forall i :: 0 <= i < |r| - 1 ==> cmp(r[i], r[i + 1]) > 0
  {
    SortSorted(s, cmp);
    DedupSorted(SortSpec(s, cmp), None, cmp);
    DedupDistinctNeighbours(SortSpec(s, cmp), None, cmp);
  }

  /** Under a total order every input entry compares equal to some entry of list_unique's result. */
  lemma UniqueCovers<T(!new)>(s: seq<T>, cmp: (T, T) -> int)
    requires IsTotalOrder(cmp)
    ensures forall x :: x in s ==> CoveredBy(x, DedupFrom(SortSpec(s, cmp), None, cmp), cmp)
  {
    var t := SortSpec(s, cmp);
    DedupCovers(t, None, cmp);
    SortPermutation(s, cmp);
    forall x | x in s
      ensures CoveredBy(x, DedupFrom(t, None, cmp), cmp)
    {
      assert x in multiset(t);
      var i :| 0 <= i < |t| && t[i] == x;
    }
  }
}
