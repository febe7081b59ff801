/** Util.numBits and Util.countBits: the number of set bits in the OR of two
    block-allocation bitmaps. Python's `&`, `|` and `>>` on non-negative
    integers are written out bit by bit. */
module Bits {
  /** One element of a Python `bytes` bitmap. */
  newtype byte = x: int | 0 <= x < 256

  function Pow2(k: nat): (p: nat)
    ensures p >= 1
  {
    if k == 0 then 1 else 2 * Pow2(k - 1)
  }

  /** Bitwise OR of two non-negative integers (Python's `a | b`). */
  function Or(a: nat, b: nat): nat
    decreases a + b
  {
    if a == 0 && b == 0 then 0
    else 2 * Or(a / 2, b / 2) + (if a % 2 == 1 || b % 2 == 1 then 1 else 0)
  }

  /** Bitwise AND of two non-negative integers (Python's `a & b`). */
  function And(a: nat, b: nat): nat
    decreases a + b
  {
    if a == 0 && b == 0 then 0
    else 2 * And(a / 2, b / 2) + (if a % 2 == 1 && b % 2 == 1 then 1 else 0)
  }

  /** The number of one bits of `n`, lowest bit first. */
  function Popcount(n: nat): nat
  {
    if n == 0 then 0 else n % 2 + Popcount(n / 2)
  }

  lemma PopcountShift(x: nat, bit: nat)
    requires bit <= 1
    ensures Popcount(2 * x + bit) == bit + Popcount(x)
  {
    if 2 * x + bit != 0 {
      assert (2 * x + bit) % 2 == bit && (2 * x + bit) / 2 == x;
    }
  }

  /** OR with zero is the identity, on either side. */
  lemma {:induction false} OrZero(x: nat)
    ensures Or(x, 0) == x && Or(0, x) == x
  {
    if x != 0 {
      OrZero(x / 2);
    }
  }

  lemma {:induction false} OrCommutes(a: nat, b: nat)
    ensures Or(a, b) == Or(b, a)
    decreases a + b
  {
    if a != 0 || b != 0 {
      OrCommutes(a / 2, b / 2);
    }
  }

  /** Inclusion-exclusion on bits: the bits of `a | b` are those of `a` and of
      `b`, less the ones they share. */
  lemma {:induction false} PopcountOrAnd(a: nat, b: nat)
    ensures Popcount(Or(a, b)) + Popcount(And(a, b)) == Popcount(a) + Popcount(b)
    decreases a + b
  {
    if a != 0 || b != 0 {
      PopcountOrAnd(a / 2, b / 2);
      PopcountOrLow(a, b);
      PopcountAndLow(a, b);
    }
  }

  /** The bits of `a | b`: its low bit, then the bits of the halves' OR. */
  lemma PopcountOrLow(a: nat, b: nat)
    requires a != 0 || b != 0
    ensures Popcount(Or(a, b)) == (if a % 2 == 1 || b % 2 == 1 then 1 else 0) + Popcount(Or(a / 2, b / 2))
  {
    var bit := if a % 2 == 1 || b % 2 == 1 then 1 else 0;
    assert Or(a, b) == 2 * Or(a / 2, b / 2) + bit;
    PopcountShift(Or(a / 2, b / 2), bit);
  }

  /** The bits of `a & b`: its low bit, then the bits of the halves' AND. */
  lemma PopcountAndLow(a: nat, b: nat)
    requires a != 0 || b != 0
    ensures Popcount(And(a, b)) == (if a % 2 == 1 && b % 2 == 1 then 1 else 0) + Popcount(And(a / 2, b / 2))
  {
    var bit := if a % 2 == 1 && b % 2 == 1 then 1 else 0;
    assert And(a, b) == 2 * And(a / 2, b / 2) + bit;
    PopcountShift(And(a / 2, b / 2), bit);
  }

  lemma {:induction false} PopcountAndBelow(a: nat, b: nat)
    ensures Popcount(And(a, b)) <= Popcount(a) && Popcount(And(a, b)) <= Popcount(b)
    decreases a + b
  {
    if a != 0 || b != 0 {
      PopcountAndBelow(a / 2, b / 2);
      PopcountAndLow(a, b);
    }
  }

  /** ORing never loses a bit and never sets more bits than both operands hold. */
  lemma PopcountOrBounds(a: nat, b: nat)
    ensures Popcount(a) <= Popcount(Or(a, b)) && Popcount(b) <= Popcount(Or(a, b))
    ensures Popcount(Or(a, b)) <= Popcount(a) + Popcount(b)
  {
    PopcountOrAnd(a, b);
    PopcountAndBelow(a, b);
  }

  lemma {:induction false} OrBelowPow2(a: nat, b: nat, k: nat)
    requires a < Pow2(k) && b < Pow2(k)
    ensures Or(a, b) < Pow2(k)
    decreases k
  {
    if k > 0 && (a != 0 || b != 0) {
      OrBelowPow2(a / 2, b / 2, k - 1);
    }
  }

  lemma {:induction false} PopcountBelowPow2(n: nat, k: nat)
    requires n < Pow2(k)
    ensures Popcount(n) <= k
    decreases k
  {
    if n != 0 {
      PopcountBelowPow2(n / 2, k - 1);
    }
  }

  /** Util.numBits: adds the low bit and shifts right until nothing is left. */
  method NumBits(val: nat) returns (count: nat)
    ensures count == Popcount(val)
  {
    count := 0;
    var v := val;
    while v != 0
      invariant count + Popcount(v) == Popcount(val)
      decreases v
    {
      count := count + v % 2;  // val & 1
      v := v / 2;              // val >> 1
    }
  }

  /** Byte `i` of a bitmap, zero past its end (the shorter bitmap is
      zero-extended). */
  function At(b: seq<byte>, i: nat): nat
  {
    if i < |b| then b[i] as nat else 0
  }

  /** The number of one bits in the first `n` bytes of `b1 | b2`. */
  function OrCount(b1: seq<byte>, b2: seq<byte>, n: nat): nat
  {
    if n == 0 then 0 else OrCount(b1, b2, n - 1) + Popcount(Or(At(b1, n - 1), At(b2, n - 1)))
  }

  function Max(x: nat, y: nat): nat
  {
    if x < y then y else x
  }

  /** Util.countBits. Both bitmaps must be non-empty: with an empty one the
      second loop reads the index of the first before it was ever bound. */
  method CountBits(bitmap1: seq<byte>, bitmap2: seq<byte>) returns (count: nat)
    requires |bitmap1| > 0 && |bitmap2| > 0
    ensures count == OrCount(bitmap1, bitmap2, Max(|bitmap1|, |bitmap2|))
  {
    var len1, len2 := |bitmap1|, |bitmap2|;
    var lenLong, lenShort, bitmapLong := len1, len2, bitmap1;
    if len2 > len1 {
      lenLong, lenShort, bitmapLong := len2, len1, bitmap2;
    }
    count := 0;
    var last := 0;
    for i := 0 to lenShort
      invariant count == OrCount(bitmap1, bitmap2, i)
      invariant i > 0 ==> last == i - 1
    {
      var val := Or(bitmap1[i] as nat, bitmap2[i] as nat);
      var bits := NumBits(val);
      count := count + bits;
      last := i;
    }
    for i := last + 1 to lenLong
      invariant count == OrCount(bitmap1, bitmap2, i)
    {
      var val := bitmapLong[i] as nat;
      var bits := NumBits(val);
      OrZero(val);
      count := count + bits;
    }
  }

  /** The count does not depend on which bitmap comes first. */
  lemma {:induction false} OrCountSymmetric(b1: seq<byte>, b2: seq<byte>, n: nat)
    ensures OrCount(b1, b2, n) == OrCount(b2, b1, n)
  {
    if n > 0 {
      OrCountSymmetric(b1, b2, n - 1);
      OrCommutes(At(b1, n - 1), At(b2, n - 1));
    }
  }

  /** At most eight bits per byte, and at least as many bits as either bitmap
      has alone. */
  lemma {:induction false} OrCountBounds(b1: seq<byte>, b2: seq<byte>, n: nat)
    ensures OrCount(b1, b2, n) <= 8 * n
    ensures OrCount(b1, [], n) <= OrCount(b1, b2, n)
    decreases n
  {
    if n > 0 {
      OrCountBounds(b1, b2, n - 1);
      var x, y := At(b1, n - 1), At(b2, n - 1);
      assert Pow2(8) == 256;
      OrBelowPow2(x, y, 8);
      PopcountBelowPow2(Or(x, y), 8);
      OrZero(x);
      PopcountOrBounds(x, y);
      OrCountBounds(b1, [], n - 1);
    }
  }
}
