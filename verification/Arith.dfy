/** Integer arithmetic the digit-buffer proofs rest on: powers, and division by a variable. */
module Arith {

  function Abs(n: int): nat {
    if n < 0 then -n else n
  }

  function Pow(b: nat, e: nat): nat {
    if e == 0 then 1 else b * Pow(b, e - 1)
  }

  lemma {:induction false} PowPositive(b: nat, e: nat)
    requires 1 <= b
    ensures 1 <= Pow(b, e)
  {
    if e != 0 { PowPositive(b, e - 1); MulLe(1, Pow(b, e - 1), b); }
  }

  lemma {:induction false} PowAdd(b: nat, m: nat, n: nat)
    ensures Pow(b, m + n) == Pow(b, m) * Pow(b, n)
  {
    if m != 0 {
      PowAdd(b, m - 1, n);
      MulAssoc(b, Pow(b, m - 1), Pow(b, n));
    }
  }

  lemma {:induction false} PowOfPow(b: nat, m: nat, n: nat)
    ensures Pow(Pow(b, m), n) == Pow(b, m * n)
  {
    if n == 0 {
      assert m * n == 0;
    } else {
      PowOfPow(b, m, n - 1);
      assert m * n == m + m * (n - 1);
      PowAdd(b, m, m * (n - 1));
    }
  }

  lemma {:induction false} PowOfProduct(a: nat, b: nat, n: nat)
    ensures Pow(a * b, n) == Pow(a, n) * Pow(b, n)
  {
    if n != 0 {
      PowOfProduct(a, b, n - 1);
      var p, q := Pow(a, n - 1), Pow(b, n - 1);
      assert (a * b) * (p * q) == (a * p) * (b * q) by {
        MulAssoc(a * b, p, q);
        MulAssoc(a, b, p);
        MulAssoc(a, p, b);
        MulAssoc(a * p, b, q);
      }
    }
  }

  lemma {:induction false} PowExpLe(b: nat, m: nat, n: nat)
    requires 1 <= b && m <= n
    ensures Pow(b, m) <= Pow(b, n)
  {
    PowAdd(b, m, n - m);
    PowPositive(b, n - m);
    MulLe(1, Pow(b, n - m), Pow(b, m));
  }

  lemma PowOrder(b: nat, m: nat, n: nat)
    requires 1 <= b && Pow(b, m) < Pow(b, n)
    ensures m < n
  {
    if n <= m { PowExpLe(b, n, m); }
  }

  lemma {:induction false} PowBaseLe(a: nat, b: nat, n: nat)
    requires a <= b
    ensures Pow(a, n) <= Pow(b, n)
  {
    if n != 0 {
      PowBaseLe(a, b, n - 1);
      MulLe(a, b, Pow(a, n - 1));
      MulLe(Pow(a, n - 1), Pow(b, n - 1), b);
    }
  }

  lemma {:induction false} PowBaseLt(a: nat, b: nat, n: nat)
    requires a < b && 1 <= n
    ensures Pow(a, n) < Pow(b, n)
  {
    PowBaseLe(a, b, n - 1);
    PowPositive(b, n - 1);
    MulLe(Pow(a, n - 1), Pow(b, n - 1), a);
    MulLt(a, b, Pow(b, n - 1));
  }

  lemma MulLe(x: int, y: int, k: int)
    requires x <= y && 0 <= k
    ensures x * k <= y * k
    ensures k * x <= k * y
  {
  }

  lemma MulLt(x: int, y: int, k: int)
    requires x < y && 0 < k
    ensures x * k < y * k
    ensures k * x < k * y
  {
  }

  lemma MulAssoc(a: int, b: int, c: int)
    ensures a * (b * c) == (a * b) * c
  {
  }

  lemma MulDist(k: int, a: int, b: int)
    ensures k * (a + b) == k * a + k * b
    ensures k * (a - b) == k * a - k * b
  {
  }

  /** Division is the only quotient whose remainder is in range. */
  lemma DivModUnique(x: int, d: int, q: int, r: int)
    requires 0 < d && 0 <= r < d && x == q * d + r
    ensures x / d == q && x % d == r
  {
    var q', r' := x / d, x % d;
    assert x == q' * d + r';
    if q < q' {
      MulLe(q + 1, q', d);
      MulDist(d, q, 1);
    } else if q' < q {
      MulLe(q' + 1, q, d);
      MulDist(d, q', 1);
    }
  }

  lemma DivModSpec(x: int, d: int)
    requires 0 < d
    ensures x == (x / d) * d + x % d
    ensures 0 <= x % d < d
  {
  }

  lemma DivBounds(x: int, d: int, lo: int, hi: int)
    requires 0 < d && lo * d <= x < hi * d
    ensures lo <= x / d < hi
  {
    DivModSpec(x, d);
    if x / d < lo { MulLe(x / d + 1, lo, d); MulDist(d, x / d, 1); }
    if hi <= x / d { MulLe(hi, x / d, d); }
  }

  lemma DivDiv(x: int, a: int, b: int)
    requires 0 < a && 0 < b
    ensures 0 < a * b && (x / a) / b == x / (a * b)
  {
    MulLt(0, a, b);
    var q := x / a;
    DivModSpec(x, a);
    DivModSpec(q, b);
    var r := (q % b) * a + x % a;
    MulLe(q % b, b - 1, a);
    MulDist(a, b, 1);
    assert x == (q / b) * (a * b) + r by {
      MulDist(a, (q / b) * b, q % b);
      MulAssoc(q / b, b, a);
    }
    DivModUnique(x, a * b, q / b, r);
  }

  /** There is a number above those in use. */
  lemma {:induction false} Above(s: set<int>) returns (bound: int)
    ensures forall x :: x in s ==> x < bound
    decreases |s|
  {
    bound := 0;
    if x :| x in s {
      var most := Above(s - {x});
      bound := if x >= most then x + 1 else most;
      assert forall y :: y in s && y != x ==> y in s - {x};
    }
  }
}
