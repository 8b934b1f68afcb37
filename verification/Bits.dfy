/** Bitwise operations on words as recursions over binary digits, so that they can be
    reasoned about by induction together with ordinary arithmetic. */
module Bits {

  predicate Bit(x: nat, i: nat)
    decreases i
  {
    if i == 0 then x % 2 == 1 else Bit(x / 2, i - 1)
  }

  function And(x: nat, y: nat): (z: nat)
    decreases x
  {
    if x == 0 || y == 0 then 0
    else (if x % 2 == 1 && y % 2 == 1 then 1 else 0) + 2 * And(x / 2, y / 2)
  }

  function Or(x: nat, y: nat): (z: nat)
    decreases x + y
  {
    if x == 0 then y else if y == 0 then x
    else (if x % 2 == 1 || y % 2 == 1 then 1 else 0) + 2 * Or(x / 2, y / 2)
  }

  lemma {:induction false} ZeroHasNoBits(i: nat)
    ensures !Bit(0, i)
    decreases i
  {
    if i > 0 {
      ZeroHasNoBits(i - 1);
    }
  }

  lemma {:induction false} AndBits(x: nat, y: nat, i: nat)
    ensures Bit(And(x, y), i) <==> Bit(x, i) && Bit(y, i)
    decreases i
  {
    if x == 0 || y == 0 {
      ZeroHasNoBits(i);
    } else if i > 0 {
      assert And(x, y) / 2 == And(x / 2, y / 2);
      AndBits(x / 2, y / 2, i - 1);
    }
  }

  function Pow2(k: nat): (p: nat)
    ensures p > 0
  {
    if k == 0 then 1 else 2 * Pow2(k - 1)
  }

  /** A word below 2^k has no bit at or above `k`. */
  lemma {:induction false} BitsBelow(x: nat, k: nat, i: nat)
    requires x < Pow2(k) && k <= i
    ensures !Bit(x, i)
    decreases k
  {
    if k == 0 {
      ZeroHasNoBits(i);
    } else {
      BitsBelow(x / 2, k - 1, i - 1);
    }
  }

  lemma OrDouble(high: nat, low: nat, field: nat)
    requires Or(high + low / 2, field / 2) == high + Or(low / 2, field / 2)
    ensures Or(2 * high + low, field) == 2 * high + Or(low, field)
  {
    var whole := 2 * high + low;
    assert whole / 2 == high + low / 2 && whole % 2 == low % 2;
  }

  lemma DoubleProduct(a: nat, b: nat)
    ensures a * (2 * b) == 2 * (a * b) >= 0
  {}

  lemma {:induction false} OrBelow(low: nat, field: nat, k: nat)
    requires low < Pow2(k) && field < Pow2(k)
    ensures Or(low, field) < Pow2(k)
    decreases k
  {
    if k > 0 {
      OrBelow(low / 2, field / 2, k - 1);
    }
  }

  /** Or-ing a field into the low `k` bits leaves the part above alone. */
  lemma {:induction false} OrLowField(high: nat, low: nat, field: nat, k: nat)
    requires low < Pow2(k) && field < Pow2(k)
    ensures Or(low, field) < Pow2(k)
    ensures Or(high * Pow2(k) + low, field) == high * Pow2(k) + Or(low, field)
    decreases k
  {
    OrBelow(low, field, k);
    if k > 0 {
      OrLowField(high, low / 2, field / 2, k - 1);
      DoubleProduct(high, Pow2(k - 1));
      OrDouble(high * Pow2(k - 1), low, field);
    }
  }

  // ---------- Clearing the lowest set bit ----------

  /** `__builtin_ctz`. */
  function TrailingZeros(x: nat): (c: nat)
    requires x > 0
  {
    if x % 2 == 1 then 0 else 1 + TrailingZeros(x / 2)
  }

  lemma {:induction false} LowestSetBit(x: nat, i: nat)
    requires x > 0
    ensures Bit(x, TrailingZeros(x))
    ensures i < TrailingZeros(x) ==> !Bit(x, i)
    decreases x
  {
    if x % 2 == 0 {
      LowestSetBit(x / 2, if i > 0 then i - 1 else 0);
    }
  }

  lemma {:induction false} AndSelf(x: nat)
    ensures And(x, x) == x
    decreases x
  {
    if x > 0 {
      AndSelf(x / 2);
    }
  }

  /** `x & (x - 1)` clears exactly the lowest set bit. */
  lemma {:induction false} ClearLowest(x: nat, i: nat)
    requires x > 0
    ensures Bit(And(x, x - 1), i) <==> Bit(x, i) && i != TrailingZeros(x)
    decreases x
  {
    AndBits(x, x - 1, i);
    if x % 2 == 1 {
      // x - 1 differs from x in bit 0 only.
      assert (x - 1) / 2 == x / 2;
    } else if i > 0 {
      assert (x - 1) / 2 == x / 2 - 1;
      ClearLowest(x / 2, i - 1);
      AndBits(x / 2, x / 2 - 1, i - 1);
    }
  }

  function PopCount(x: nat): (n: nat) {
    if x == 0 then 0 else x % 2 + PopCount(x / 2)
  }

  /** Each clearing removes one set bit and does not enlarge the word. */
  lemma {:induction false} ClearLowestCounts(x: nat)
    requires x > 0
    ensures And(x, x - 1) < x
    ensures PopCount(And(x, x - 1)) == PopCount(x) - 1
    decreases x
  {
    if x % 2 == 1 {
      assert (x - 1) / 2 == x / 2;
      AndSelf(x / 2);
      var y := And(x, x - 1);
      if x > 1 {
        assert y == 2 * (x / 2);
      }
      assert y / 2 == x / 2 && y % 2 == 0;
    } else {
      assert (x - 1) / 2 == x / 2 - 1;
      ClearLowestCounts(x / 2);
      var y := And(x, x - 1);
      assert y == 2 * And(x / 2, x / 2 - 1);
      assert y / 2 == And(x / 2, x / 2 - 1) && y % 2 == 0;
    }
  }
}
