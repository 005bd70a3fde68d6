/** Integer facts behind the mipmap bookkeeping: powers of two, the floor of
    the base-2 logarithm, right shifts, and the bitwise AND of two's-complement
    integers. */
module Bits {

  /** 2 raised to the power k. */
  function Pow2(k: nat): (r: nat)
    ensures r >= 1
  {
    if k == 0 then 1 else 2 * Pow2(k - 1)
  }

  /** Larger of two naturals, as std::max. */
  function Max(a: nat, b: nat): (r: nat)
    ensures r >= a && r >= b
    ensures r == a || r == b
  {
    if a < b then b else a
  }

  /** The unsigned right shift `d >> k`: k halvings, each dropping the low bit. */
  function ShiftRight(d: nat, k: nat): nat
  {
    if k == 0 then d else ShiftRight(d, k - 1) / 2
  }

  /** floor(log2(x)): the unique r with 2^r <= x < 2^(r+1). */
  function FloorLog2(x: nat): (r: nat)
    requires x >= 1
    ensures Pow2(r) <= x < Pow2(r + 1)
    decreases x
  {
    if x == 1 then 0 else 1 + FloorLog2(x / 2)
  }

  lemma {:induction false} Pow2Monotone(i: nat, j: nat)
    requires i <= j
    ensures Pow2(i) <= Pow2(j)
    decreases j
  {
    if i < j {
      Pow2Monotone(i, j - 1);
    }
  }

  /** The bounds 2^k <= x < 2^(k+1) determine k: it is FloorLog2(x). */
  lemma FloorLog2Unique(x: nat, k: nat)
    requires Pow2(k) <= x < Pow2(k + 1)
    ensures FloorLog2(x) == k
  {
    var r := FloorLog2(x);
    if r < k {
      Pow2Monotone(r + 1, k);
    } else if k < r {
      Pow2Monotone(k + 1, r);
    }
  }

  /** Shifting by k + 1 bits is shifting the halved value by k bits. */
  lemma {:induction false} ShiftRightHalvedFirst(d: nat, k: nat)
    ensures ShiftRight(d, k + 1) == ShiftRight(d / 2, k)
  {
    if k > 0 {
      ShiftRightHalvedFirst(d, k - 1);
    }
  }

  /** Shifting preserves order between the values shifted. */
  lemma {:induction false} ShiftRightMonotone(a: nat, b: nat, k: nat)
    requires a <= b
    ensures ShiftRight(a, k) <= ShiftRight(b, k)
  {
    if k > 0 {
      ShiftRightMonotone(a, b, k - 1);
    }
  }

  /** A larger shift never gives a larger value. */
  lemma {:induction false} ShiftRightAntitone(d: nat, i: nat, j: nat)
    requires i <= j
    ensures ShiftRight(d, j) <= ShiftRight(d, i)
    decreases j
  {
    if i < j {
      ShiftRightAntitone(d, i, j - 1);
    }
  }

  /** Shifting x right by floor(log2(x)) bits leaves exactly 1. */
  lemma {:induction false} ShiftRightByFloorLog2(x: nat)
    requires x >= 1
    ensures ShiftRight(x, FloorLog2(x)) == 1
    decreases x
  {
    if x > 1 {
      ShiftRightByFloorLog2(x / 2);
      ShiftRightHalvedFirst(x, FloorLog2(x / 2));
    }
  }

  /** A value no larger than x has shrunk to at most 1 after floor(log2(x)) shifts. */
  lemma ShiftRightSmallerByFloorLog2(d: nat, x: nat)
    requires x >= 1 && d <= x
    ensures ShiftRight(d, FloorLog2(x)) <= 1
  {
    ShiftRightByFloorLog2(x);
    ShiftRightMonotone(d, x, FloorLog2(x));
  }

  /** Bitwise AND of two integers in infinite two's complement: -1 is all
      ones, and `/` and `%` by 2 are the arithmetic shift and the low bit. */
  function BitAnd(a: int, b: int): (r: int)
    ensures a >= 0 && b >= 0 ==> 0 <= r <= a && r <= b
    decreases (if a < 0 then -a else a) + (if b < 0 then -b else b)
  {
    if a == 0 || b == 0 then 0
    else if a == -1 then b
    else if b == -1 then a
    else 2 * BitAnd(a / 2, b / 2) + (if a % 2 == 1 && b % 2 == 1 then 1 else 0)
  }

  lemma {:induction false} BitAndSelf(m: nat)
    ensures BitAnd(m, m) == m
    decreases m
  {
    if m != 0 {
      BitAndSelf(m / 2);
    }
  }

  /** Clearing the lowest set bit of an odd number 2m+1 leaves 2m. */
  lemma BitAndOddPredecessor(m: nat)
    ensures BitAnd(2 * m + 1, 2 * m) == 2 * m
  {
    if m != 0 {
      assert (2 * m + 1) / 2 == m && (2 * m) / 2 == m;
      assert (2 * m + 1) % 2 == 1 && (2 * m) % 2 == 0;
      BitAndSelf(m);
    }
  }

  /** For an even number, x & (x-1) is twice (x/2) & (x/2 - 1). */
  lemma BitAndEvenPredecessor(m: nat)
    requires m >= 1
    ensures BitAnd(2 * m, 2 * m - 1) == 2 * BitAnd(m, m - 1)
  {
    assert (2 * m) / 2 == m && (2 * m - 1) / 2 == m - 1;
    assert (2 * m) % 2 == 0;
  }

  /** A positive x whose AND with x - 1 is zero is 2^floor(log2 x): an odd
      x above 1 keeps its low bit, and an even x reduces to x / 2. */
  lemma {:induction false} AndPredecessorZeroOnlyForPowers(x: nat)
    requires x >= 1 && BitAnd(x, x - 1) == 0
    ensures x == Pow2(FloorLog2(x))
    decreases x
  {
    if x % 2 == 1 {
      var m := (x - 1) / 2;
      BitAndOddPredecessor(m);
      assert m == 0;
    } else {
      var m := x / 2;
      BitAndEvenPredecessor(m);
      AndPredecessorZeroOnlyForPowers(m);
    }
  }

  /** A power of two shares no bit with its predecessor. */
  lemma {:induction false} AndPredecessorOfPowerIsZero(k: nat)
    ensures BitAnd(Pow2(k), Pow2(k) - 1) == 0
  {
    if k > 0 {
      AndPredecessorOfPowerIsZero(k - 1);
      BitAndEvenPredecessor(Pow2(k - 1));
    }
  }

  /** For a positive x, x & (x - 1) is zero exactly when x is 2^floor(log2 x). */
  lemma AndPredecessorZeroIffPower(x: nat)
    requires x >= 1
    ensures BitAnd(x, x - 1) == 0 <==> x == Pow2(FloorLog2(x))
  {
    if BitAnd(x, x - 1) == 0 {
      AndPredecessorZeroOnlyForPowers(x);
    }
    if x == Pow2(FloorLog2(x)) {
      AndPredecessorOfPowerIsZero(FloorLog2(x));
    }
  }
}
