/**
  Model of list.c: a dynamic array of `len` entries in a buffer of `capacity`
  slots.  A fresh buffer is zero-filled by the C allocator; the constant `nil`
  stands for the NULL entry it holds.  An empty list has no buffer (here, a
  buffer of length 0).
*/
module Lists {
  import opened Utils

  function Min(a: nat, b: nat): nat
  {
    if a < b then a else b
  }

  /** s padded with nil (or cut) to exactly c entries. */
  function Padded<T>(s: seq<T>, c: nat, nil: T): (r: seq<T>)
    ensures |r| == c
    ensures forall i :: 0 <= i < c ==> r[i] == if i < |s| then s[i] else nil
  {
    seq(c, i requires 0 <= i < c => if i < |s| then s[i] else nil)
  }

  /** The capacity rule of list.c: none when empty, else a power of two with capacity/2 < len <= capacity. */
  predicate CapacityFits(len: nat, capacity: nat)
  {
    if len == 0 then capacity == 0 else capacity / 2 < len <= capacity && IsPow2(capacity)
  }

  /** For each length there is exactly one capacity that fits it. */
  lemma {:induction false} CapacityUnique(len: nat, c1: nat, c2: nat)
    requires CapacityFits(len, c1) && CapacityFits(len, c2)
    ensures c1 == c2
  {
    if len != 0 && c1 != c2 {
      if c1 < c2 {
        Pow2Below(c1, c2);
      } else {
        Pow2Below(c2, c1);
      }
    }
  }

  /** Of two different powers of two the larger is at least twice the smaller. */
  lemma {:induction false} Pow2Below(a: nat, b: nat)
    requires IsPow2(a) && IsPow2(b) && a < b
    ensures 2 * a <= b
  {
    if a != 1 {
      Pow2Below(a / 2, b / 2);
    }
  }

  /**
    The capacity search shared by _list_resize and _dict_resize: start from
    the current capacity (1 if it is 0), double until n fits, then halve
    while n fits in half.  The result is the power of two c with c/2 < n <= c.
  */
  method CapacityFor(curr: nat, n: nat) returns (c: nat)
    requires n > 0 && (curr == 0 || IsPow2(curr))
    ensures IsPow2(c) && CapacityFits(n, c)
  {
    c := if curr == 0 then 1 else curr;
    while c < n
      invariant IsPow2(c)
      decreases n - c
    {
      Pow2Double(c);
      c := c * 2;
    }
    while c >= 2 * n
      invariant IsPow2(c) && c >= n
      decreases c
    {
      c := c / 2;
    }
  }

  /**
    The reallocation step of _list_resize: a fresh nil-filled buffer of c
    slots receiving the first min(n, c) entries of src.
  */
  method Reallocate<T>(src: array<T>, n: nat, c: nat, nil: T) returns (a: array<T>)
    requires n <= src.Length
    ensures fresh(a) && a[..] == Padded(src[..n], c, nil)
  {
    a := new T[c](_ => nil);
    var copyLen := Min(n, c);
    for i := 0 to copyLen
      invariant forall j :: 0 <= j < i ==> a[j] == src[j]
      invariant forall j :: i <= j < c ==> a[j] == nil
    {
      a[i] := src[i];
    }
  }

  class List<T> {
    const nil: T
    var len: nat
    var capacity: nat
    var arr: array<T>

    ghost predicate Valid()
      reads this
    {
      arr.Length == capacity && CapacityFits(len, capacity)
    }

    /** The entries of the list, in index order. */
    function Contents(): seq<T>
      reads this, arr
      requires Valid()
    {
      arr[..len]
    }

    /**
      _list_resize: set the length to n.  Within the current capacity band only
      len moves and the buffer is kept; otherwise a fresh nil-filled buffer of the
      fitting power-of-two size receives the first min(len, capacity) entries.
    */
    method Resize(n: nat)
      requires Valid()
      modifies this
      ensures Valid() && len == n
      ensures if n != 0 && old(capacity) / 2 < n <= old(capacity)
        then capacity == old(capacity) && arr == old(arr) && arr[..] == old(arr[..])
        else fresh(arr) && arr[..] == Padded(old(arr[..len]), capacity, nil)
      ensures arr[..Min(n, old(len))] == old(arr[..Min(n, len)])
    {
      if n == 0 {
        len := 0;
        capacity := 0;
        arr := new T[0];
        assert arr[..] == Padded(old(arr[..len]), 0, nil);
        return;
      }
      if capacity / 2 < n <= capacity {
        len := n;
        return;
      }
      var src, srcLen := arr, len;
      var c := CapacityFor(capacity, n);
      var a := Reallocate(src, srcLen, c, nil);
      len := n;
      capacity := c;
      arr := a;
    }

    /** list_create: a list of n entries, every one of them nil. */
    constructor (n: nat, nil: T)
      ensures Valid() && this.nil == nil && fresh(arr)
      ensures Contents() == seq(n, _ => nil)
    {
      this.nil := nil;
      len := 0;
      capacity := 0;
      arr := new T[0];
      new;
      Resize(n);
    }

    /** list_len */
    function Len(): (n: nat)
      reads this, arr
      requires Valid()
      ensures n == |Contents()|
    {
      len
    }

    /** list_get: the i-th entry; i must be below the length. */
    function Get(i: nat): (e: T)
      reads this, arr
      requires Valid() && i < len
      ensures e == Contents()[i]
    {
      arr[i]
    }

    /** list_set: overwrite the i-th entry, i below the length; nothing else changes. */
    method Set(i: nat, e: T)
      requires Valid() && i < len
      modifies arr
      ensures Valid() && Contents() == old(Contents())[i := e]
      ensures arr[..] == old(arr[..])[i := e]
    {
      arr[i] := e;
    }

    /** list_push: append e. */
    method Push(e: T)
      requires Valid()
      modifies this, arr
      ensures Valid() && Contents() == old(Contents()) + [e]
      ensures arr == old(arr) || fresh(arr)
    {
      Resize(len + 1);
      Set(len - 1, e);
    }

    /** list_pop: remove and return the last entry of a non-empty list. */
    method Pop() returns (e: T)
      requires Valid() && len > 0
      modifies this, arr
      ensures Valid() && e == old(Contents())[old(len) - 1]
      ensures Contents() == old(Contents())[..old(len) - 1]
      ensures arr == old(arr) || fresh(arr)
    {
      e := Get(len - 1);
      Resize(len - 1);
    }

    /** list_insert: put e at index i (at most the length), shifting the tail up. */
    method Insert(i: nat, e: T)
      requires Valid() && i <= len
      modifies this, arr
      ensures Valid() && Contents() == old(Contents())[..i] + [e] + old(Contents())[i..]
      ensures arr == old(arr) || fresh(arr)
    {
      ghost var s := Contents();
      Resize(len + 1);
      var a := arr;
      assert a[..len - 1] == s;
      ShiftUp(a, i, len - 1);
      ghost var shifted := a[..];
      a[i] := e;
      assert a[..] == shifted[i := e];
      ghost var t := s[..i] + [e] + s[i..];
      forall k | 0 <= k < |t|
        ensures shifted[i := e][k] == t[k]
      {
        if k < i {
          assert t[k] == s[k];
        } else if k > i {
          assert t[k] == s[k - 1];
        }
      }
      assert a[..len] == t;
    }

    /** list_remove: delete and return the entry at index i (below the length), shifting the tail down. */
    method Remove(i: nat) returns (e: T)
      requires Valid() && i < len
      modifies this, arr
      ensures Valid() && e == old(Contents())[i]
      ensures Contents() == old(Contents())[..i] + old(Contents())[i + 1..]
      ensures arr == old(arr) || fresh(arr)
    {
      ghost var s := Contents();
      var a := arr;
      e := a[i];
      ShiftDown(a, i, len);
      ghost var t := s[..i] + s[i + 1..];
      assert forall k :: 0 <= k < |t| ==> a[k] == t[k];
      assert a[..len - 1] == t;
      Resize(len - 1);
    }
  }

  /** The loop of list_insert: for k from n down to i + 1, a[k] takes a[k - 1]. */
  method ShiftUp<T>(a: array<T>, i: nat, n: nat)
    requires i <= n < a.Length
    modifies a
    ensures forall k :: 0 <= k < a.Length ==> a[k] == if i < k <= n then old(a[k - 1]) else old(a[k])
  {
    var j := n;
    while j > i
      invariant i <= j <= n
      invariant forall k :: 0 <= k < a.Length ==> a[k] == if j < k <= n then old(a[k - 1]) else old(a[k])
    {
      a[j] := a[j - 1];
      j := j - 1;
    }
  }

  /** The loop of list_remove: for k from i + 1 up to n - 1, a[k - 1] takes a[k]. */
  method ShiftDown<T>(a: array<T>, i: nat, n: nat)
    requires i < n <= a.Length
    modifies a
    ensures forall k :: 0 <= k < a.Length ==> a[k] == if i <= k < n - 1 then old(a[k + 1]) else old(a[k])
  {
    var j := i + 1;
    while j < n
      invariant i + 1 <= j <= n
      invariant forall k :: 0 <= k < a.Length ==> a[k] == if i <= k < j - 1 then old(a[k + 1]) else old(a[k])
    {
      a[j - 1] := a[j];
      j := j + 1;
    }
  }

  /** Push then pop gives back the pushed entry and the original contents. */
  method PushPop<T>(l: List<T>, e: T) returns (x: T)
    requires l.Valid()
    modifies l, l.arr
    ensures l.Valid() && x == e && l.Contents() == old(l.Contents())
  {
    l.Push(e);
    x := l.Pop();
  }
}
