/** Bit arithmetic on unbounded integers, as Ruby's Integer sees them:
    two's complement with an infinite sign extension, so that every
    integer, negative ones included, has a well-defined bit at every
    position. Dafny's `/` and `%` by 2 floor, which is what this view needs. */
module Bits {

  /** 2 raised to the power `k`, the value of Ruby's `0x01 << k`. */
  function Pow2(k: nat): (r: nat)
    ensures r >= 1
  {
    if k == 0 then 1 else 2 * Pow2(k - 1)
  }

  /** Bit `k` of `a` (bit 0 is the least significant). */
  function BitAt(a: int, k: nat): (r: int)
    ensures r == 0 || r == 1
    decreases k
  {
    if k == 0 then a % 2 else BitAt(a / 2, k - 1)
  }

  /** Ruby's `a & b` for a non-negative mask `b`: bit by bit, from the
      least significant up, until the mask has no bits left. */
  function And(a: int, b: nat): (r: nat)
    ensures r <= b
    decreases b
  {
    if b == 0 then 0 else 2 * And(a / 2, b / 2) + (a % 2) * (b % 2)
  }

  /** Ruby's `a ^ b` for a non-negative `b`: flips the bits of `a` that are
      set in `b`. Used to state what "changing one bit" means. */
  function Xor(a: int, b: nat): (r: int)
    decreases b
  {
    if b == 0 then a else 2 * Xor(a / 2, b / 2) + (a % 2 + b % 2) % 2
  }

  /** Zero has no bit set. */
  lemma {:induction false} ZeroHasNoBits(k: nat)
    ensures BitAt(0, k) == 0
  {
    if k > 0 {
      ZeroHasNoBits(k - 1);
    }
  }

  /** `And` is bitwise conjunction: bit `k` of `a & b` is set exactly
      when bit `k` is set in both operands. */
  lemma {:induction false} AndBits(a: int, b: nat, k: nat)
    ensures BitAt(And(a, b), k) == BitAt(a, k) * BitAt(b, k)
    decreases k
  {
    if b == 0 {
      ZeroHasNoBits(k);
    } else if k > 0 {
      var x := And(a / 2, b / 2);
      var low := (a % 2) * (b % 2);
      assert low == 0 || low == 1;
      assert (2 * x + low) / 2 == x;
      AndBits(a / 2, b / 2, k - 1);
    }
  }

  /** `Xor` is bitwise exclusive or. */
  lemma {:induction false} XorBits(a: int, b: nat, k: nat)
    ensures BitAt(Xor(a, b), k) == (BitAt(a, k) + BitAt(b, k)) % 2
    decreases k
  {
    if b == 0 {
      ZeroHasNoBits(k);
    } else if k > 0 {
      var x := Xor(a / 2, b / 2);
      var low := (a % 2 + b % 2) % 2;
      assert (2 * x + low) / 2 == x;
      XorBits(a / 2, b / 2, k - 1);
    }
  }

  /** `1 << j` has exactly one bit set, bit `j`. */
  lemma {:induction false} Pow2Bits(j: nat, k: nat)
    ensures BitAt(Pow2(j), k) == if j == k then 1 else 0
    decreases j
  {
    if j == 0 {
      if k > 0 {
        ZeroHasNoBits(k - 1);
      }
    } else if k > 0 {
      assert Pow2(j) / 2 == Pow2(j - 1);
      Pow2Bits(j - 1, k - 1);
    }
  }

  /** Masking with `1 << k` keeps bit `k` in place and clears every other
      bit, so the result is non-zero exactly when bit `k` is set. */
  lemma {:induction false} AndPow2(a: int, k: nat)
    ensures And(a, Pow2(k)) == if BitAt(a, k) == 1 then Pow2(k) else 0
    decreases k
  {
    if k == 0 {
      assert And(a, 1) == 2 * And(a / 2, 0) + (a % 2) * 1;
    } else {
      var p := Pow2(k - 1);
      assert (2 * p) / 2 == p && (2 * p) % 2 == 0;
      assert And(a, 2 * p) == 2 * And(a / 2, p) + (a % 2) * 0;
      AndPow2(a / 2, k - 1);
    }
  }
}
