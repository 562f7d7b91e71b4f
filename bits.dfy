/**
  Binary digits of natural numbers, as the hash table uses them.

  `Low(x, d)` is `x & ((1 << d) - 1)`, the low `d` binary digits of `x`, and
  `Bit(x, d)` is 1 exactly when `(x & (1 << d)) != 0`.  Both are defined digit by
  digit, so they are the bitwise operations themselves rather than a remainder
  standing in for them.
*/
module Bits {

  /** 2 to the power `n`, i.e. `1 << n` with no overflow. */
  function Pow2(n: nat): (r: nat)
    ensures r >= 1
  {
    if n == 0 then 1 else 2 * Pow2(n - 1)
  }

  /** The low `d` binary digits of `x`: `x & ((1 << d) - 1)`. */
  function Low(x: nat, d: nat): (r: nat)
    ensures r < Pow2(d)
  {
    if d == 0 then 0 else x % 2 + 2 * Low(x / 2, d - 1)
  }

  /** Binary digit number `d` of `x` (0 or 1): `(x & (1 << d)) != 0`. */
  function Bit(x: nat, d: nat): (r: nat)
    ensures r <= 1
  {
    if d == 0 then x % 2 else Bit(x / 2, d - 1)
  }

  lemma {:induction false} Pow2Monotone(a: nat, b: nat)
    requires a <= b
    ensures Pow2(a) <= Pow2(b)
  {
    if a < b {
      Pow2Monotone(a, b - 1);
    }
  }

  /** A number below `2^d` is its own low `d` digits. */
  lemma {:induction false} LowOfSmall(x: nat, d: nat)
    requires x < Pow2(d)
    ensures Low(x, d) == x
  {
    if d > 0 {
      LowOfSmall(x / 2, d - 1);
    }
  }

  /** Adding digit `d` to the low `d` digits gives the low `d + 1` digits. */
  lemma {:induction false} LowStep(x: nat, d: nat)
    ensures Low(x, d + 1) == if Bit(x, d) == 1 then Low(x, d) + Pow2(d) else Low(x, d)
  {
    if d > 0 {
      LowStep(x / 2, d - 1);
      assert Bit(x, d) == Bit(x / 2, d - 1);
      assert Pow2(d) == 2 * Pow2(d - 1);
    }
  }

  /** Masking to `g` digits and then to `d <= g` digits is masking to `d` digits. */
  lemma {:induction false} LowLow(x: nat, g: nat, d: nat)
    requires d <= g
    ensures Low(Low(x, g), d) == Low(x, d)
  {
    if d > 0 {
      var y := Low(x, g);
      assert y % 2 == x % 2 && y / 2 == Low(x / 2, g - 1);
      LowLow(x / 2, g - 1, d - 1);
    }
  }

  /** Digit `d` survives masking to `g > d` digits. */
  lemma {:induction false} BitLow(x: nat, g: nat, d: nat)
    requires d < g
    ensures Bit(Low(x, g), d) == Bit(x, d)
  {
    var y := Low(x, g);
    assert y % 2 == x % 2 && y / 2 == Low(x / 2, g - 1);
    if d > 0 {
      BitLow(x / 2, g - 1, d - 1);
    }
  }

  /** Adding `2^g` does not change the low `d <= g` digits. */
  lemma {:induction false} LowShift(x: nat, g: nat, d: nat)
    requires d <= g
    ensures Low(x + Pow2(g), d) == Low(x, d)
  {
    if d > 0 {
      assert (x + Pow2(g)) % 2 == x % 2;
      assert (x + Pow2(g)) / 2 == x / 2 + Pow2(g - 1);
      LowShift(x / 2, g - 1, d - 1);
    }
  }

  /** Below `2^d`, digit `d` is clear; in `[2^d, 2^(d+1))` it is set. */
  lemma BitOfSmall(x: nat, d: nat)
    requires x < Pow2(d)
    ensures Bit(x, d) == 0
    ensures Bit(x + Pow2(d), d) == 1
  {
    var y := x + Pow2(d);
    Pow2Monotone(d, d + 1);
    assert Pow2(d + 1) == 2 * Pow2(d);
    LowStep(x, d);
    LowOfSmall(x, d);
    LowOfSmall(x, d + 1);
    LowStep(y, d);
    LowShift(x, d, d);
    LowOfSmall(y, d + 1);
    assert Low(y, d) == x;
  }

  /** Two numbers agree on `d + 1` low digits iff they agree on `d` low digits and on digit `d`. */
  lemma LowEqStep(x: nat, y: nat, d: nat)
    ensures Low(x, d + 1) == Low(y, d + 1) <==> Low(x, d) == Low(y, d) && Bit(x, d) == Bit(y, d)
  {
    LowStep(x, d);
    LowStep(y, d);
    LowLow(x, d + 1, d);
    LowLow(y, d + 1, d);
    BitLow(x, d + 1, d);
    BitLow(y, d + 1, d);
  }

  /** The number of `j` in `[lo, lo + n)` whose low `d` digits are `r`. */
  function CountLow(lo: nat, n: nat, d: nat, r: nat): nat
  {
    if n == 0 then 0
    else CountLow(lo, n - 1, d, r) + (if Low(lo + n - 1, d) == r then 1 else 0)
  }

  lemma {:induction false} CountLowSplit(lo: nat, a: nat, b: nat, d: nat, r: nat)
    ensures CountLow(lo, a + b, d, r) == CountLow(lo, a, d, r) + CountLow(lo + a, b, d, r)
  {
    if b > 0 {
      CountLowSplit(lo, a, b - 1, d, r);
    }
  }

  lemma {:induction false} CountLowShift(n: nat, g: nat, d: nat, r: nat)
    requires d <= g
    ensures CountLow(Pow2(g), n, d, r) == CountLow(0, n, d, r)
  {
    if n > 0 {
      CountLowShift(n - 1, g, d, r);
      LowShift(n - 1, g, d);
    }
  }

  lemma {:induction false} CountLowBase(n: nat, d: nat, r: nat)
    requires n <= Pow2(d)
    ensures CountLow(0, n, d, r) == if r < n then 1 else 0
  {
    if n > 0 {
      CountLowBase(n - 1, d, r);
      LowOfSmall(n - 1, d);
    }
  }

  /** Exactly `2^(g - d)` of the numbers below `2^g` have any given low `d` digits `r`. */
  lemma {:induction false} CountLowBlock(g: nat, d: nat, r: nat)
    requires d <= g
    requires r < Pow2(d)
    ensures CountLow(0, Pow2(g), d, r) == Pow2(g - d)
  {
    if g == d {
      CountLowBase(Pow2(d), d, r);
      assert Pow2(g - d) == 1;
    } else {
      var h := Pow2(g - 1);
      assert Pow2(g) == h + h;
      CountLowSplit(0, h, h, d, r);
      CountLowShift(h, g - 1, d, r);
      CountLowBlock(g - 1, d, r);
      assert Pow2(g - d) == 2 * Pow2(g - 1 - d);
    }
  }

  /** Some number of bits that is enough to write `n`. */
  function BitsFor(n: nat): (m: nat)
    ensures n < Pow2(m)
  {
    if n == 0 then 0 else 1 + BitsFor(n / 2)
  }
}
