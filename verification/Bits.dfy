/** Bits of integers in infinite two's complement, and the bitwise operators on digits. */
module Bits {
  import opened Arith

  /** Bit k of x: floor division makes the bits of a negative number end in ones. */
  predicate Bit(x: int, k: nat) {
    PowPositive(2, k);
    (x / Pow(2, k)) % 2 == 1
  }

  lemma BitZero(x: int)
    ensures Bit(x, 0) <==> x % 2 == 1
  {
  }

  lemma BitNext(x: int, k: nat)
    ensures Bit(x, k + 1) <==> Bit(x / 2, k)
  {
    PowPositive(2, k);
    DivDiv(x, 2, Pow(2, k));
  }

  /** Bits from n up are the bits of the quotient by 2^n. */
  lemma BitHigh(x: int, n: nat, k: nat)
    ensures 0 < Pow(2, n) && (Bit(x, n + k) <==> Bit(x / Pow(2, n), k))
  {
    PowPositive(2, n);
    PowPositive(2, k);
    PowAdd(2, n, k);
    DivDiv(x, Pow(2, n), Pow(2, k));
  }

  /** Bits below n do not see a multiple of 2^n. */
  lemma {:induction false} BitLow(r: nat, q: int, n: nat, k: nat)
    requires k < n && r < Pow(2, n)
    ensures Bit(r + q * Pow(2, n), k) <==> Bit(r, k)
    decreases k
  {
    var p := Pow(2, n - 1);
    var x := r + q * Pow(2, n);
    assert x == r + 2 * (q * p) by { MulAssoc(q, 2, p); }
    if k == 0 {
      BitZero(x);
      BitZero(r);
    } else {
      BitNext(x, k - 1);
      BitNext(r, k - 1);
      assert x / 2 == r / 2 + q * p;
      BitLow(r / 2, q, n - 1, k - 1);
    }
  }

  /** From 2^n up, a natural number below 2^n has only zeros, its negation minus one only ones. */
  lemma BitSign(r: nat, n: nat, k: nat)
    requires r < Pow(2, n) && n <= k
    ensures !Bit(r, k)
    ensures Bit(r - Pow(2, n), k)
  {
    hide Pow, Bit;
    var p := Pow(2, n);
    BitHigh(r, n, k - n);
    BitHigh(r - p, n, k - n);
    DivModUnique(r, p, 0, r);
    DivModUnique(r - p, p, -1, r);
    ConstantBits(k - n);
  }

  lemma ConstantBits(k: nat)
    ensures !Bit(0, k) && Bit(-1, k)
  {
    hide Pow;
    var p := Pow(2, k);
    PowPositive(2, k);
    DivModUnique(0, p, 0, 0);
    DivModUnique(-1, p, -1, p - 1);
  }

  /** Integers with the same bits are the same. */
  lemma {:induction false} SameBits(x: int, y: int)
    requires forall k: nat :: Bit(x, k) <==> Bit(y, k)
    ensures x == y
    decreases if x < 0 then -x else x + 1
  {
    BitZero(x);
    BitZero(y);
    assert Bit(x, 0) <==> Bit(y, 0);
    if x == 0 || x == -1 {
      SameAsSign(x, y);
    } else {
      forall k: nat ensures Bit(x / 2, k) <==> Bit(y / 2, k) {
        BitNext(x, k);
        BitNext(y, k);
        assert Bit(x, k + 1) <==> Bit(y, k + 1);
      }
      SameBits(x / 2, y / 2);
    }
  }

  lemma {:induction false} SameAsSign(x: int, y: int)
    requires x == 0 || x == -1
    requires forall k: nat :: Bit(x, k) <==> Bit(y, k)
    ensures x == y
    decreases if y < 0 then -y else y
  {
    BitZero(x);
    BitZero(y);
    assert Bit(x, 0) <==> Bit(y, 0);
    if y != 0 && y != -1 {
      forall k: nat ensures Bit(x, k) <==> Bit(y / 2, k) {
        BitNext(x, k);
        BitNext(y, k);
        assert Bit(x, k + 1) <==> Bit(y, k + 1);
      }
      SameAsSign(x, y / 2);
    }
  }

  // ---------- the operators on digits ----------

  datatype Op = AndOp | OrOp | XorOp

  predicate Apply(op: Op, p: bool, q: bool) {
    match op
    case AndOp => p && q
    case OrOp => p || q
    case XorOp => p != q
  }

  /** The bitwise operator on unsigned digits. */
  function Bitwise(op: Op, a: nat, b: nat): nat {
    if a == 0 && b == 0 then 0
    else (if Apply(op, a % 2 == 1, b % 2 == 1) then 1 else 0) + 2 * Bitwise(op, a / 2, b / 2)
  }

  lemma {:induction false} BitwiseBit(op: Op, a: nat, b: nat, k: nat)
    ensures Bit(Bitwise(op, a, b), k) <==> Apply(op, Bit(a, k), Bit(b, k))
    decreases k
  {
    var z := Bitwise(op, a, b);
    if k == 0 {
      BitZero(a);
      BitZero(b);
      BitZero(z);
    } else {
      BitNext(a, k - 1);
      BitNext(b, k - 1);
      BitNext(z, k - 1);
      BitwiseBit(op, a / 2, b / 2, k - 1);
      assert z / 2 == Bitwise(op, a / 2, b / 2);
    }
  }

  lemma {:induction false} BitwiseIsDigit(op: Op, a: nat, b: nat, w: nat)
    requires a < Pow(2, w) && b < Pow(2, w)
    ensures Bitwise(op, a, b) < Pow(2, w)
  {
    if w != 0 { BitwiseIsDigit(op, a / 2, b / 2, w - 1); }
  }

  /** Or-ing in a number whose low n bits are zero adds it, when the other has only those bits. */
  lemma {:induction false} OrDisjoint(r: nat, q: nat, n: nat)
    requires r < Pow(2, n)
    ensures Bitwise(OrOp, q * Pow(2, n), r) == q * Pow(2, n) + r
    decreases n
  {
    var x := q * Pow(2, n);
    if n == 0 {
      OrZero(q);
      assert Pow(2, 0) == 1;
    } else {
      var p := Pow(2, n - 1);
      assert x == 2 * (q * p) by { MulAssoc(q, 2, p); }
      OrDisjoint(r / 2, q, n - 1);
    }
  }

  lemma {:induction false} OrZero(q: nat)
    ensures Bitwise(OrOp, q, 0) == q
  {
    if q != 0 { OrZero(q / 2); }
  }
}
