/** Bitwise operations of C on non-negative integers.
    The decoders use `&`, `|` and shifts on unsigned values; here those are
    functions on `nat`, defined bit by bit from the least significant end,
    together with the facts about masks that the proofs rely on. */
module Bits {

  /** 2 to the power k. */
  function Pow2(k: nat): (r: nat)
    ensures r >= 1
  {
    if k == 0 then 1 else 2 * Pow2(k - 1)
  }

  /** Powers add their exponents. */
  lemma {:induction false} Pow2Add(a: nat, b: nat)
    ensures Pow2(a + b) == Pow2(a) * Pow2(b)
  {
    if a > 0 {
      Pow2Add(a - 1, b);
    }
  }

  /** The small powers the masks of the UTF-8 code use. */
  lemma Pow2Small()
    ensures Pow2(3) == 8 && Pow2(4) == 0x10 && Pow2(5) == 0x20 && Pow2(6) == 0x40 && Pow2(7) == 0x80
  {
    assert Pow2(3) == 8;
  }

  /** The shifts the big-endian reads use. */
  lemma Pow2Shifts()
    ensures Pow2(8) == 0x100 && Pow2(16) == 0x1_0000 && Pow2(32) == 0x1_0000_0000
  {
    assert Pow2(4) == 0x10;
    Pow2Add(4, 4);
    Pow2Add(8, 8);
    Pow2Add(16, 16);
  }

  /** `a & b` */
  function BitAnd(a: nat, b: nat): nat
    decreases a
  {
    if a == 0 || b == 0 then 0
    else 2 * BitAnd(a / 2, b / 2) + (if a % 2 == 1 && b % 2 == 1 then 1 else 0)
  }

  /** `a | b` */
  function BitOr(a: nat, b: nat): nat
    decreases a + b
  {
    if a == 0 then b
    else if b == 0 then a
    else 2 * BitOr(a / 2, b / 2) + (if a % 2 == 1 || b % 2 == 1 then 1 else 0)
  }

  /** n is 1, 2, 4, 8, ... */
  predicate IsPow2(n: nat)
  {
    n == 1 || (n > 1 && n % 2 == 0 && IsPow2(n / 2))
  }

  /** The exponent of a power of two. */
  function Log2(n: nat): (k: nat)
    requires IsPow2(n)
    ensures Pow2(k) == n
  {
    if n == 1 then 0 else 1 + Log2(n / 2)
  }

  /** One step of `&`: the lowest bit, then the rest shifted down; holds for zero operands too. */
  lemma AndStep(a: nat, b: nat)
    ensures BitAnd(a, b) == 2 * BitAnd(a / 2, b / 2) + (if a % 2 == 1 && b % 2 == 1 then 1 else 0)
  {
  }

  /** One step of `|`, holding for zero operands too. */
  lemma OrStep(a: nat, b: nat)
    ensures BitOr(a, b) == 2 * BitOr(a / 2, b / 2) + (if a % 2 == 1 || b % 2 == 1 then 1 else 0)
  {
    if a == 0 {
      assert BitOr(a / 2, b / 2) == b / 2;
    } else if b == 0 {
      assert BitOr(a / 2, b / 2) == a / 2;
    }
  }

  /** `|` is commutative. */
  lemma {:induction false} OrComm(a: nat, b: nat)
    ensures BitOr(a, b) == BitOr(b, a)
    decreases a + b
  {
    if a != 0 && b != 0 {
      OrComm(a / 2, b / 2);
    }
  }

  /** `x & m` never exceeds m. */
  lemma {:induction false} AndAtMost(a: nat, m: nat)
    ensures BitAnd(a, m) <= m
  {
    if a != 0 && m != 0 {
      AndAtMost(a / 2, m / 2);
    }
  }

  /** Masking with 2^k - 1 keeps exactly the low k bits: `(hi << k | lo) & (2^k - 1) == lo`. */
  lemma {:induction false} AndLowMask(hi: nat, lo: nat, k: nat)
    requires lo < Pow2(k)
    ensures BitAnd(hi * Pow2(k) + lo, Pow2(k) - 1) == lo
  {
    if k > 0 {
      var p := Pow2(k - 1);
      var x := hi * Pow2(k) + lo;
      assert hi * Pow2(k) == 2 * (hi * p);
      assert x / 2 == hi * p + lo / 2;
      assert x % 2 == lo % 2;
      assert (Pow2(k) - 1) / 2 == p - 1 && (Pow2(k) - 1) % 2 == 1;
      AndStep(x, Pow2(k) - 1);
      AndLowMask(hi, lo / 2, k - 1);
    }
  }

  /** Halving an even number plus a remainder. */
  lemma Halve(a: nat, lo: nat)
    ensures (2 * a + lo) / 2 == a + lo / 2 && (2 * a + lo) % 2 == lo % 2
  {
  }

  /** Doubling the multiplier doubles the product. */
  lemma Double(x: nat, p: nat, q: nat)
    requires q == 2 * p
    ensures x * q == 2 * (x * p)
  {
  }

  /** One step of `&` against an even mask. */
  lemma AndEven(a: nat, lo: nat, b: nat)
    ensures BitAnd(2 * a + lo, 2 * b) == 2 * BitAnd(a + lo / 2, b)
  {
    Halve(a, lo);
    Halve(b, 0);
    AndStep(2 * a + lo, 2 * b);
  }

  /** `x << k`, one doubling at a time. */
  function Shl(x: nat, k: nat): nat
  {
    if k == 0 then x else 2 * Shl(x, k - 1)
  }

  /** Shifting left by k multiplies by 2^k. */
  lemma {:induction false} ShlIsMul(x: nat, k: nat)
    ensures Shl(x, k) == x * Pow2(k)
  {
    if k > 0 {
      ShlIsMul(x, k - 1);
      Double(x, Pow2(k - 1), Pow2(k));
    }
  }

  /** `AndHighMask` with the shifts spelt out. */
  lemma {:induction false} AndHighShl(hi: nat, lo: nat, m: nat, k: nat)
    requires lo < Pow2(k)
    ensures BitAnd(Shl(hi, k) + lo, Shl(m, k)) == Shl(BitAnd(hi, m), k)
  {
    if k > 0 {
      AndHighShl(hi, lo / 2, m, k - 1);
      AndEven(Shl(hi, k - 1), lo, Shl(m, k - 1));
    }
  }

  /** A mask above the low k bits sees only the high part: `(hi << k | lo) & (m << k) == (hi & m) << k`. */
  lemma AndHighMask(hi: nat, lo: nat, m: nat, k: nat)
    requires lo < Pow2(k)
    ensures BitAnd(hi * Pow2(k) + lo, m * Pow2(k)) == BitAnd(hi, m) * Pow2(k)
  {
    AndHighShl(hi, lo, m, k);
    ShlIsMul(hi, k);
    ShlIsMul(m, k);
    ShlIsMul(BitAnd(hi, m), k);
  }

  /** `AndHighMask` for a value given with its split at bit k. */
  lemma AndAboveSplit(x: nat, hi: nat, lo: nat, m: nat, k: nat)
    requires lo < Pow2(k) && x == hi * Pow2(k) + lo
    ensures BitAnd(x, m * Pow2(k)) == BitAnd(hi, m) * Pow2(k)
  {
    AndHighMask(hi, lo, m, k);
  }

  /** `AndLowMask` for a value given with its split at bit k. */
  lemma AndBelowSplit(x: nat, hi: nat, lo: nat, k: nat)
    requires lo < Pow2(k) && x == hi * Pow2(k) + lo
    ensures BitAnd(x, Pow2(k) - 1) == lo
  {
    AndLowMask(hi, lo, k);
  }

  /** Masking with `2^k - 1` keeps a value below `2^k`. */
  lemma AndBelow(x: nat, k: nat)
    requires x < Pow2(k)
    ensures BitAnd(x, Pow2(k) - 1) == x
  {
    AndLowMask(0, x, k);
  }

  /** Or-ing bits that do not overlap is addition: `(hi << k) | lo == hi * 2^k + lo`. */
  lemma {:induction false} OrDisjoint(hi: nat, lo: nat, k: nat)
    requires lo < Pow2(k)
    ensures BitOr(hi * Pow2(k), lo) == hi * Pow2(k) + lo
  {
    if k > 0 {
      var p := Pow2(k - 1);
      assert hi * Pow2(k) == 2 * (hi * p);
      OrStep(hi * Pow2(k), lo);
      OrDisjoint(hi, lo / 2, k - 1);
    }
  }
}
