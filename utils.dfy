/** Model of utils.c: the floored base-2 logarithm of a nonzero size. */
module Utils {

  function Pow2(n: nat): (r: nat)
    ensures r >= 1
  {
    if n == 0 then 1 else 2 * Pow2(n - 1)
  }

  /** x is a power of two (the capacities of the dynamic array and the dict). */
  predicate IsPow2(x: nat)
  {
    x == 1 || (x >= 2 && x % 2 == 0 && IsPow2(x / 2))
  }

  /** Doubling keeps a power of two a power of two. */
  lemma Pow2Double(x: nat)
    requires IsPow2(x)
    ensures IsPow2(2 * x)
  {
    assert (2 * x) / 2 == x;
  }

  /** The floor of log2(x), defined by repeated halving. */
  function FloorLog2(x: nat): nat
    requires x >= 1
  {
    if x == 1 then 0 else 1 + FloorLog2(x / 2)
  }

  /** FloorLog2 is the exponent of the largest power of two not above x. */
  lemma {:induction false} FloorLog2Bounds(x: nat)
    requires x >= 1
    ensures Pow2(FloorLog2(x)) <= x < Pow2(FloorLog2(x) + 1)
  {
    if x > 1 {
      FloorLog2Bounds(x / 2);
    }
  }

  /** Any r with 2^r <= x < 2^(r+1) is FloorLog2(x): the bounds pin the result down. */
  lemma {:induction false} FloorLog2Unique(x: nat, r: nat)
    requires x >= 1
    requires Pow2(r) <= x < Pow2(r + 1)
    ensures r == FloorLog2(x)
  {
    if r == 0 {
      assert x == 1;
    } else {
      assert x > 1;
      assert Pow2(r - 1) <= x / 2 < Pow2(r);
      FloorLog2Unique(x / 2, r - 1);
    }
  }

  /** lu_log_2(1) = 0 and lu_log_2(2x) = lu_log_2(x) + 1. */
  lemma {:induction false} FloorLog2Double(x: nat)
    requires x >= 1
    ensures FloorLog2(1) == 0
    ensures FloorLog2(2 * x) == FloorLog2(x) + 1
  {
    assert (2 * x) / 2 == x;
  }

  /**
    lu_log_2: shift x right until it is at most 1, counting the shifts.
    The caller must not pass 0 (the C asserts this).
  */
  method Log2(x0: nat) returns (log: nat)
    requires x0 != 0
    ensures log == FloorLog2(x0)
    ensures Pow2(log) <= x0 < Pow2(log + 1)
  {
    var x := x0;
    log := 0;
    while x > 1
      invariant x >= 1
      invariant log + FloorLog2(x) == FloorLog2(x0)
      decreases x
    {
      x := x / 2;
      log := log + 1;
    }
    FloorLog2Bounds(x0);
  }
}
