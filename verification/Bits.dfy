/**
 * Bit operations on naturals, defined bit by bit, and what masks of leading or
 * trailing ones do. No width is implied; where a width matters it is a parameter.
 */
module Bits {
  /** Bitwise `&`. */
  function And(a: nat, b: nat): nat
    decreases a
  {
    if a == 0 || b == 0 then 0 else 2 * And(a / 2, b / 2) + if a % 2 == 1 && b % 2 == 1 then 1 else 0
  }

  /** Bitwise `|`. */
  function Or(a: nat, b: nat): nat
    decreases a
  {
    if a == 0 then b else if b == 0 then a
    else 2 * Or(a / 2, b / 2) + if a % 2 == 1 || b % 2 == 1 then 1 else 0
  }

  function Pow2(k: nat): (p: nat)
    ensures p > 0
  {
    if k == 0 then 1 else 2 * Pow2(k - 1)
  }

  /** `!` at a width. */
  function Not(a: nat, width: nat): nat
    requires a < Pow2(width)
  {
    Pow2(width) - 1 - a
  }

  function Shr(a: nat, k: nat): nat
    decreases k
  {
    if k == 0 then a else Shr(a / 2, k - 1)
  }

  function Shl(a: nat, k: nat): nat {
    if k == 0 then a else 2 * Shl(a, k - 1)
  }

  /** The `k` lowest bits. */
  function Low(a: nat, k: nat): (r: nat)
    ensures r < Pow2(k)
    decreases k
  {
    if k == 0 then 0 else 2 * Low(a / 2, k - 1) + a % 2
  }

  lemma {:induction false} ShlAdds(a: nat, b: nat, k: nat)
    ensures Shl(a + b, k) == Shl(a, k) + Shl(b, k)
  {
    if k > 0 { ShlAdds(a, b, k - 1); }
  }

  /** A number is its high bits and its low bits. */
  lemma {:induction false} Split(a: nat, k: nat)
    ensures a == Shl(Shr(a, k), k) + Low(a, k)
    decreases k
  {
    if k > 0 { Split(a / 2, k - 1); }
  }

  lemma {:induction false} Join(h: nat, r: nat, k: nat)
    requires r < Pow2(k)
    ensures Shr(Shl(h, k) + r, k) == h && Low(Shl(h, k) + r, k) == r
    decreases k
  {
    if k > 0 {
      var x := Shl(h, k) + r;
      assert x / 2 == Shl(h, k - 1) + r / 2 && x % 2 == r % 2;
      Join(h, r / 2, k - 1);
    }
  }

  lemma {:induction false} ShlOfOne(k: nat)
    ensures Shl(1, k) == Pow2(k)
  {
    if k > 0 { ShlOfOne(k - 1); }
  }

  /** Shifting left keeps the order, and separates what differs. */
  lemma {:induction false} ShlOrders(a: nat, b: nat, k: nat)
    requires a < b
    ensures Shl(a, k) + Pow2(k) <= Shl(b, k)
  {
    ShlOfOne(k);
    ShlAdds(a, 1, k);
    ShlAdds(a + 1, b - a - 1, k);
  }

  /** Masking with `k` trailing ones keeps the low bits. */
  lemma {:induction false} AndLowMask(a: nat, k: nat)
    ensures And(a, Pow2(k) - 1) == Low(a, k)
    decreases k
  {
    if k > 0 {
      AndLowMask(a / 2, k - 1);
      assert (Pow2(k) - 1) / 2 == Pow2(k - 1) - 1 && (Pow2(k) - 1) % 2 == 1;
      if a == 0 { LowOfZero(k); }
    }
  }

  lemma {:induction false} LowOfZero(k: nat)
    ensures Low(0, k) == 0 && Shr(0, k) == 0
  {
    if k > 0 { LowOfZero(k - 1); }
  }

  lemma {:induction false} LowOfSmall(a: nat, k: nat)
    requires a < Pow2(k)
    ensures Low(a, k) == a && Shr(a, k) == 0
    decreases k
  {
    if k > 0 { LowOfSmall(a / 2, k - 1); }
  }

  lemma {:induction false} PowersGrow(k: nat, n: nat)
    requires k <= n
    ensures Pow2(k) <= Pow2(n)
    decreases n
  {
    if k < n { PowersGrow(k, n - 1); }
  }

  /** Masking an `n`-bit number with ones above the `k` lowest bits drops the low bits. */
  lemma {:induction false} AndHighMask(a: nat, k: nat, n: nat)
    requires k <= n && a < Pow2(n)
    ensures Pow2(k) <= Pow2(n)
    ensures And(a, Pow2(n) - Pow2(k)) == Shl(Shr(a, k), k)
    decreases k
  {
    PowersGrow(k, n);
    Split(a, k);
    if k == 0 {
      AndLowMask(a, n);
      LowOfSmall(a, n);
    } else {
      AndHighMask(a / 2, k - 1, n - 1);
      var m := Pow2(n) - Pow2(k);
      assert m / 2 == Pow2(n - 1) - Pow2(k - 1) && m % 2 == 0;
      if a == 0 { LowOfZero(k); }
      if m == 0 { assert And(a / 2, 0) == 0; }
    }
  }

  /** Filling `k` zero low bits adds. */
  lemma {:induction false} OrFills(h: nat, b: nat, k: nat)
    requires b < Pow2(k)
    ensures Or(Shl(h, k), b) == Shl(h, k) + b
    decreases k
  {
    if k > 0 && Shl(h, k) != 0 && b != 0 {
      assert Shl(h, k) / 2 == Shl(h, k - 1) && Shl(h, k) % 2 == 0;
      OrFills(h, b / 2, k - 1);
    }
  }

  lemma {:induction false} ShlTimes(q: nat, k: nat)
    ensures Shl(q, k) == q * Pow2(k)
  {
    if k > 0 {
      ShlTimes(q, k - 1);
      assert q * (2 * Pow2(k - 1)) == 2 * (q * Pow2(k - 1));
    }
  }

  /** Bit `i` of a number. */
  predicate Bit(a: nat, i: nat) {
    Shr(a, i) % 2 == 1
  }

  lemma {:induction false} ShlOfZero(k: nat)
    ensures Shl(0, k) == 0
  {
    if k > 0 { ShlOfZero(k - 1); }
  }

  lemma {:induction false} ShrOfZero(i: nat)
    ensures Shr(0, i) == 0
  {
    if i > 0 { ShrOfZero(i - 1); }
  }

  /** The operations work bit by bit. */
  lemma {:induction false} BitByBit(a: nat, b: nat, i: nat)
    ensures Bit(And(a, b), i) <==> Bit(a, i) && Bit(b, i)
    ensures Bit(Or(a, b), i) <==> Bit(a, i) || Bit(b, i)
    decreases i
  {
    ShrOfZero(i);
    if i > 0 && a != 0 && b != 0 {
      assert And(a, b) / 2 == And(a / 2, b / 2) && Or(a, b) / 2 == Or(a / 2, b / 2);
      BitByBit(a / 2, b / 2, i - 1);
    }
  }

  /** A mask of the bits from `k` to `n` meets a number of `n` bits exactly if it is at least 2^k. */
  lemma HighBitsIff(a: nat, k: nat, n: nat)
    requires k <= n && a < Pow2(n)
    ensures Pow2(k) <= Pow2(n)
    ensures And(a, Pow2(n) - Pow2(k)) != 0 <==> a >= Pow2(k)
  {
    AndHighMask(a, k, n);
    Split(a, k);
    if Shr(a, k) > 0 { ShlOrders(0, Shr(a, k), k); } else { ShlOfZero(k); }
  }
}
