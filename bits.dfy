/**
 * Integer and bit arithmetic shared by the header synthesiser and the
 * container reader: bytes, powers of two, floor(log2) and the bitwise OR of
 * two non-negative Python integers.
 */
module Bits {

  /** One octet, as stored in a Python bytearray. */
  type byte = x: int | 0 <= x < 256

  datatype Option<T> = None | Some(value: T)

  function Min(a: int, b: int): int
  {
    if a <= b then a else b
  }

  function Pow2(k: nat): (p: nat)
    ensures p >= 1
  {
    if k == 0 then 1 else 2 * Pow2(k - 1)
  }

  lemma {:induction false} Pow2Add(a: nat, b: nat)
    ensures Pow2(a + b) == Pow2(a) * Pow2(b)
  {
    if b > 0 {
      Pow2Add(a, b - 1);
      calc {
        Pow2(a + b);
        2 * Pow2(a + b - 1);
        2 * (Pow2(a) * Pow2(b - 1));
        Pow2(a) * (2 * Pow2(b - 1));
        Pow2(a) * Pow2(b);
      }
    }
  }

  lemma {:induction false} Pow2Monotone(a: nat, b: nat)
    requires a <= b
    ensures Pow2(a) <= Pow2(b)
  {
    if a < b {
      Pow2Monotone(a, b - 1);
    }
  }

  /**
   * `int(log(x, 2))` for a positive integer x, without floating point: the
   * exponent of the largest power of two not above x.
   */
  function FloorLog2(x: nat): (e: nat)
    requires x >= 1
    ensures Pow2(e) <= x < Pow2(e + 1)
  {
    if x == 1 then 0 else 1 + FloorLog2(x / 2)
  }

  /** The exponent is below k exactly when x is below 2^k. */
  lemma {:induction false} FloorLog2Below(x: nat, k: nat)
    requires x >= 1
    ensures FloorLog2(x) < k <==> x < Pow2(k)
  {
    var e := FloorLog2(x);
    if e < k {
      Pow2Monotone(e + 1, k);
    } else {
      Pow2Monotone(k, e);
    }
  }

  /** The exponent is the only e with 2^e ≤ x < 2^(e+1). */
  lemma {:induction false} FloorLog2Unique(x: nat, e: nat)
    requires Pow2(e) <= x < Pow2(e + 1)
    ensures FloorLog2(x) == e
  {
    var f := FloorLog2(x);
    if f < e {
      Pow2Monotone(f + 1, e);
    } else if f > e {
      Pow2Monotone(e + 1, f);
    }
  }

  /** Python's `a | b` on non-negative integers. */
  function BitOr(a: nat, b: nat): (r: nat)
    ensures a <= r && b <= r
    decreases a + b
  {
    if a == 0 then b
    else if b == 0 then a
    else 2 * BitOr(a / 2, b / 2) + (if a % 2 == 1 || b % 2 == 1 then 1 else 0)
  }

  /** Bit k of x, counted from the least significant bit. */
  predicate Bit(x: nat, k: nat)
  {
    if k == 0 then x % 2 == 1 else Bit(x / 2, k - 1)
  }

  /** BitOr sets exactly the bits set in either operand. */
  lemma {:induction false} BitOrBits(a: nat, b: nat, k: nat)
    ensures Bit(BitOr(a, b), k) <==> Bit(a, k) || Bit(b, k)
    decreases a + b
  {
    if a == 0 {
      ZeroHasNoBits(k);
    } else if b == 0 {
      ZeroHasNoBits(k);
    } else if k > 0 {
      BitOrHalf(a, b);
      BitOrBits(a / 2, b / 2, k - 1);
      assert Bit(BitOr(a, b), k) == Bit(BitOr(a / 2, b / 2), k - 1);
    } else {
      var low := if a % 2 == 1 || b % 2 == 1 then 1 else 0;
      DivModUnique(BitOr(a, b), 2, BitOr(a / 2, b / 2), low);
    }
  }

  /** Dropping the lowest bit of an OR is the OR of the operands without theirs. */
  lemma {:induction false} BitOrHalf(a: nat, b: nat)
    requires a != 0 && b != 0
    ensures BitOr(a, b) / 2 == BitOr(a / 2, b / 2)
  {
    var low := if a % 2 == 1 || b % 2 == 1 then 1 else 0;
    assert BitOr(a, b) == BitOr(a / 2, b / 2) * 2 + low;
    DivModUnique(BitOr(a, b), 2, BitOr(a / 2, b / 2), low);
  }

  lemma {:induction false} ZeroHasNoBits(k: nat)
    ensures !Bit(0, k)
  {
    if k > 0 {
      ZeroHasNoBits(k - 1);
    }
  }

  lemma {:induction false} BitOrCommutes(a: nat, b: nat)
    ensures BitOr(a, b) == BitOr(b, a)
    decreases a + b
  {
    if a != 0 && b != 0 {
      BitOrCommutes(a / 2, b / 2);
    }
  }

  /** OR of two values below 2^k stays below 2^k. */
  lemma {:induction false} BitOrBound(a: nat, b: nat, k: nat)
    requires a < Pow2(k) && b < Pow2(k)
    ensures BitOr(a, b) < Pow2(k)
  {
    if a != 0 && b != 0 {
      assert k > 0;
      BitOrBound(a / 2, b / 2, k - 1);
    }
  }

  /**
   * OR of a value below 2^k with a multiple of 2^k is their sum: the
   * fields occupy disjoint bits.
   */
  lemma {:induction false} BitOrDisjoint(a: nat, c: nat, k: nat)
    requires a < Pow2(k)
    ensures BitOr(a, c * Pow2(k)) == a + c * Pow2(k)
  {
    if a != 0 && c != 0 {
      assert k > 0;
      var h := c * Pow2(k - 1);
      assert c * Pow2(k) == 2 * h;
      BitOrDisjoint(a / 2, c, k - 1);
      assert BitOr(a, 2 * h) == 2 * BitOr(a / 2, h) + a % 2;
    }
  }

  /** `lo | hi << 4` for a nibble lo: a plain sum, whose nibbles give back lo and hi. */
  lemma {:induction false} NibblePair(lo: nat, hi: nat)
    requires lo < 16
    ensures BitOr(lo, hi * 16) == lo + hi * 16
    ensures BitOr(hi * 16, lo) == lo + hi * 16
    ensures (lo + hi * 16) % 16 == lo && (lo + hi * 16) / 16 == hi
  {
    assert Pow2(4) == 16;
    BitOrDisjoint(lo, hi, 4);
    BitOrCommutes(lo, hi * 16);
    DivModUnique(lo + hi * 16, 16, hi, lo);
  }

  /** Quotient and remainder are unique: x = q·d + r with r < d fixes both. */
  lemma {:induction false} DivModUnique(x: nat, d: nat, q: nat, r: nat)
    requires d > 0 && r < d && x == q * d + r
    ensures x / d == q && x % d == r
  {
    var q' := x / d;
    var r' := x % d;
    assert x == q' * d + r';
    if q' < q {
      var t := q - q';
      assert q * d == q' * d + t * d;
      MulAtLeast(t, d);
      assert false;
    } else if q' > q {
      var t := q' - q;
      assert q' * d == q * d + t * d;
      MulAtLeast(t, d);
      assert false;
    }
  }

  lemma {:induction false} MulAtLeast(t: nat, d: nat)
    requires t >= 1
    ensures t * d >= d
  {
  }
}
