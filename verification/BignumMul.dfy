/** Schoolbook multiplication and square-and-multiply: rb_big_mul and rb_big_pow. */
module BignumMul {
  import opened Arith
  import opened Digits
  import opened Bignums

  /** The largest column a row meets: carry in, product of two digits, digit already there. */
  lemma ColumnFits(B: nat, n: nat, dd: nat, y: nat, z: nat)
    requires n < B && dd < B && y < B && z < B
    ensures n + dd * y + z < B * B
  {
    MulLe(dd, B - 1, y);
    MulLe(y, B - 1, B - 1);
    MulDist(B - 1, B, 1);
    MulDist(B, B, 1);
  }

  /** Row dd of the product: s holds the finished low digits, z the row of zs as it was. */
  lemma RowColumn(B: nat, z: seq<nat>, y: seq<nat>, dd: nat, j: nat, s: seq<nat>, n: int)
    requires AllDigits(B, z) && AllDigits(B, y) && j < |z| && j < |y| && |s| == j
    requires 2 <= B && dd < B && 0 <= n < B
    requires Carried(B, s, n, Val(B, z[..j]) + dd * Val(B, y[..j]))
    ensures var t := n + dd * y[j] + z[j];
            0 <= t < B * B && 0 <= Hi(B, t) < B
            && Carried(B, s + [Lo(B, t)], Hi(B, t), Val(B, z[..j + 1]) + dd * Val(B, y[..j + 1]))
  {
    hide Val, Pow, Carried;
    var d := dd * y[j] + z[j];
    RowTotals(B, z, y, dd, j, d);
    CarryStep(B, s, n, Val(B, z[..j]) + dd * Val(B, y[..j]), d);
    assert n + d < B * B by { ColumnFits(B, n, dd, y[j], z[j]); }
    HiIsDigit(B, n + d, B);
  }

  lemma RowTotals(B: nat, z: seq<nat>, y: seq<nat>, dd: nat, j: nat, d: nat)
    requires j < |z| && j < |y| && d == dd * y[j] + z[j]
    ensures Val(B, z[..j]) + dd * Val(B, y[..j]) + Pow(B, j) * d == Val(B, z[..j + 1]) + dd * Val(B, y[..j + 1])
  {
    ValTake(B, z, j);
    ValTake(B, y, j);
    RowArithmetic(Pow(B, j), dd, Val(B, y[..j]), y[j], z[j]);
  }

  lemma RowArithmetic(p: int, dd: int, v: int, y: int, z: int)
    ensures p * (dd * y + z) + dd * v == dd * (v + p * y) + p * z
  {
    MulDist(p, dd * y, z);
    MulDist(dd, v, p * y);
    MulAssoc(p, dd, y);
    MulAssoc(dd, p, y);
  }

  /** Add dd * ys into zs from position i on. The digit above the row is still free. */
  method MulRow(B: nat, ys: array<nat>, yl: nat, dd: nat, zs: array<nat>, i: nat)
    requires 2 <= B && dd < B && yl <= ys.Length && i + yl < zs.Length && zs != ys
    requires AllDigits(B, ys[..yl]) && AllDigits(B, zs[..]) && zs[i + yl] == 0
    modifies zs
    ensures AllDigits(B, zs[..]) && forall k :: i + yl < k < zs.Length ==> zs[k] == old(zs[k])
    ensures Val(B, zs[..]) == old(Val(B, zs[..])) + Pow(B, i) * (dd * Val(B, ys[..yl]))
  {
    hide Carried, Pow, Val;
    ghost var y, before := ys[..yl], zs[..];
    ghost var z := before[i..i + yl];
    var n: int, j := 0, 0;
    CarryStart(B);
    assert zs[i..i] == [] && z[..0] == [] && y[..0] == [];
    while j < yl
      invariant 0 <= j <= yl && 0 <= n < B && AllDigits(B, zs[..])
      invariant forall k :: 0 <= k < zs.Length && !(i <= k < i + j) ==> zs[k] == before[k]
      invariant Carried(B, zs[i..i + j], n, Val(B, z[..j]) + dd * Val(B, y[..j]))
    {
      ghost var s := zs[i..i + j];
      RowColumn(B, z, y, dd, j, s, n);
      n := MulColumn(B, dd, ys[j], n, zs, i + j);
      j := j + 1;
      assert zs[i..i + j] == s + [zs[i + j - 1]];
    }
    if n != 0 { zs[i + j] := n; }
    ghost var s := zs[i..i + yl];
    assert z[..yl] == z && y[..yl] == y;
    RowDone(B, before, zs[..], i, z, s, n, dd * Val(B, y));
  }

  /** One column of a row; an idle column keeps its digit, which is then the low digit anyway. */
  method MulColumn(B: nat, dd: nat, y: nat, n0: nat, zs: array<nat>, k: nat) returns (n: int)
    requires 2 <= B && k < zs.Length && n0 < B && zs[k] < B
    modifies zs
    ensures n == Hi(B, n0 + dd * y + old(zs[k]))
    ensures zs[k] == Lo(B, n0 + dd * y + old(zs[k]))
    ensures forall i :: 0 <= i < zs.Length && i != k ==> zs[i] == old(zs[i])
  {
    var ee := n0 + dd * y;
    n := zs[k] + ee;
    if ee != 0 { zs[k] := Lo(B, n); } else { SmallDigit(B, n); }
    n := Hi(B, n);
  }

  /** The row s and its last carry n, put above position i, add row to the buffer at weight B^i. */
  lemma RowDone(B: nat, before: seq<nat>, after: seq<nat>, i: nat, z: seq<nat>, s: seq<nat>, n: nat, row: int)
    requires n < B && i + |z| < |before| == |after| && |s| == |z|
    requires z == before[i..i + |z|] && before[i + |z|] == 0
    requires after[i..i + |z|] == s && after[i + |z|] == n
    requires forall k :: 0 <= k < |after| && !(i <= k <= i + |z|) ==> after[k] == before[k]
    requires Carried(B, s, n, Val(B, z) + row)
    ensures Val(B, after) == Val(B, before) + Pow(B, i) * row
  {
    hide *;
    var k := i + |z| + 1;
    assert before[i..k] == z + [0];
    assert after[i..k] == s + [n];
    RowEnd(B, s, n, z, row);
    assert before[..i] == after[..i];
    assert before[k..] == after[k..];
    RowInPlace(B, before, after, i, k, row);
  }

  lemma SmallDigit(B: nat, n: int)
    requires 0 <= n < B
    ensures Lo(B, n) == n && Hi(B, n) == 0
  {
    DivModUnique(n, B, 0, n);
  }

  lemma RowEnd(B: nat, s: seq<nat>, n: nat, z: seq<nat>, product: int)
    requires n < B && Carried(B, s, n, Val(B, z) + product)
    ensures Val(B, s + [n]) == Val(B, z + [0]) + product
  {
    CarryEnd(B, s, n, Val(B, z) + product);
    ValSnoc(B, z, 0);
    assert Pow(B, |z|) * 0 == 0;
  }

  /** What adding a row does to the whole buffer: its weight is that of position i. */
  lemma RowInPlace(B: nat, before: seq<nat>, after: seq<nat>, i: nat, k: nat, row: int)
    requires i <= k <= |before| == |after|
    requires before[..i] == after[..i] && before[k..] == after[k..]
    requires Val(B, after[i..k]) == Val(B, before[i..k]) + row
    ensures Val(B, after) == Val(B, before) + Pow(B, i) * row
  {
    hide Pow, Val;
    ChangeHigh(B, before, after, i, Val(B, after[i..]) - Val(B, before[i..])) by {
      assert before[..i] == after[..i];
    }
    assert Val(B, after[i..]) == Val(B, before[i..]) + row by {
      ChangeLow(B, before[i..], after[i..], k - i, row) by {
        assert before[i..][..k - i] == before[i..k] && after[i..][..k - i] == after[i..k];
        assert before[i..][k - i..] == before[k..] && after[i..][k - i..] == after[k..];
      }
    }
  }

  lemma HighArithmetic(p: int, low: int, a: int, b: int, d: int)
    requires b == a + d
    ensures low + p * b == low + p * a + p * d
  {
    MulDist(p, a, d);
  }

  lemma ChangeHigh(B: nat, s: seq<nat>, t: seq<nat>, i: nat, d: int)
    requires i <= |s| == |t| && s[..i] == t[..i] && Val(B, t[i..]) == Val(B, s[i..]) + d
    ensures Val(B, t) == Val(B, s) + Pow(B, i) * d
  {
    hide Pow, Val;
    ValSplit(B, s, i);
    ValSplit(B, t, i);
    HighArithmetic(Pow(B, i), Val(B, s[..i]), Val(B, s[i..]), Val(B, t[i..]), d);
  }

  lemma ChangeLow(B: nat, s: seq<nat>, t: seq<nat>, i: nat, d: int)
    requires i <= |s| == |t| && s[i..] == t[i..] && Val(B, t[..i]) == Val(B, s[..i]) + d
    ensures Val(B, t) == Val(B, s) + d
  {
    ValSplit(B, s, i);
    ValSplit(B, t, i);
  }

  /** One more digit of x multiplied in. */
  lemma ProductStep(B: nat, x: seq<nat>, i: nat, y: nat, total: nat)
    requires i < |x| && total == Val(B, x[..i]) * y
    ensures total + Pow(B, i) * (x[i] * y) == Val(B, x[..i + 1]) * y
  {
    ValTake(B, x, i);
    MulDist(y, Val(B, x[..i]), Pow(B, i) * x[i]);
    MulAssoc(Pow(B, i), x[i], y);
  }

  method MulDigits(B: nat, xs: array<nat>, xl: nat, ys: array<nat>, yl: nat, zs: array<nat>)
    requires 2 <= B && xl <= xs.Length && yl <= ys.Length && zs.Length == xl + yl + 1
    requires AllDigits(B, xs[..xl]) && AllDigits(B, ys[..yl])
    requires zs != xs && zs != ys && forall k :: 0 <= k < zs.Length ==> zs[k] == 0
    modifies zs
    ensures AllDigits(B, zs[..])
    ensures Val(B, zs[..]) == Val(B, xs[..xl]) * Val(B, ys[..yl])
  {
    hide Carried, Pow, Val;
    ghost var x, y := xs[..xl], ys[..yl];
    ValZeros(B, zs[..]);
    assert Val(B, x[..0]) * Val(B, y) == 0 by { CarryStart(B); assert x[..0] == []; }
    var i := 0;
    while i < xl
      invariant 0 <= i <= xl && AllDigits(B, zs[..])
      invariant forall k :: i + yl <= k < zs.Length ==> zs[k] == 0
      invariant Val(B, zs[..]) == Val(B, x[..i]) * Val(B, y)
    {
      ProductStep(B, x, i, Val(B, y), Val(B, zs[..]));
      var dd := xs[i];
      assert dd == x[i];
      if dd != 0 {
        MulRow(B, ys, yl, dd, zs, i);
      }
      i := i + 1;
    }
    assert x[..xl] == x;
  }

  /** The product of two Bignums, before bignorm. */
  method BigMul(x: Bignum, y: Bignum) returns (z: Bignum)
    requires x.Valid() && y.Valid() && x.SameBuild(y)
    ensures z.Valid() && fresh(z) && fresh(z.digits) && z.SameBuild(x)
    ensures z.Value() == x.Value() * y.Value()
  {
    z := new Bignum(x.w, x.dpl, x.len + y.len + 1, x.sign == y.sign);
    MulDigits(x.Radix(), x.digits, x.len, y.digits, y.len, z.digits);
    assert z.digits[..z.len] == z.digits[..];
    SignOfProduct(x.sign, x.Mag(), y.sign, y.Mag());
  }

  lemma SignOfProduct(s: bool, a: nat, t: bool, b: nat)
    ensures (if s then a else -(a as int)) * (if t then b else -(b as int))
         == if s == t then a * b else -(a * b)
  {
  }

  /** x raised to n, the way it is defined. */
  ghost function IntPow(x: int, n: nat): int {
    if n == 0 then 1 else x * IntPow(x, n - 1)
  }

  lemma {:induction false} IntPowSquare(x: int, n: nat)
    ensures IntPow(x * x, n) == IntPow(x, 2 * n)
  {
    if n != 0 {
      IntPowSquare(x, n - 1);
      MulAssoc(x, x, IntPow(x, 2 * n - 2));
      assert IntPow(x, 2 * n) == x * IntPow(x, 2 * n - 1) == x * (x * IntPow(x, 2 * n - 2));
    }
  }

  /** rb_big_mul: multiply and normalise. */
  method Mul(w: nat, dpl: nat, x: Integer, y: Integer) returns (z: Integer)
    requires Build(w, dpl) && ValidOperand(w, dpl, x) && ValidOperand(w, dpl, y)
    ensures ValidOperand(w, dpl, z) && (z.Big? ==> fresh(z.big) && fresh(z.big.digits))
    ensures z.Fix? <==> Fixable(w, dpl, IntegerValue(z))
    ensures IntegerValue(z) == IntegerValue(x) * IntegerValue(y)
  {
    var a := ToBig(w, dpl, x);
    var b := ToBig(w, dpl, y);
    var p := BigMul(a, b);
    z := p.Norm();
  }

  /** The loop invariant of rb_big_pow: what is still to be multiplied into z. */
  ghost predicate Remaining(z: int, x: int, n: nat, power: int) {
    z * IntPow(x, n) == power
  }

  lemma MultiplyOnce(z: int, x: int, n: nat, power: int)
    requires Remaining(z, x, n, power) && 1 <= n
    ensures Remaining(z * x, x, n - 1, power)
  {
    MulAssoc(z, x, IntPow(x, n - 1));
  }

  lemma SquareOnce(z: int, x: int, n: nat, power: int)
    requires Remaining(z, x, n, power) && n % 2 == 0
    ensures Remaining(z, x * x, n / 2, power)
  {
    IntPowSquare(x, n / 2);
  }

  lemma StartPower(x: int, n: nat)
    requires 1 <= n
    ensures Remaining(x, x, n - 1, IntPow(x, n))
  {
  }

  /** rb_big_pow on a Fixnum exponent that is not negative. */
  method BigPow(w: nat, dpl: nat, x0: Integer, y: nat) returns (z: Integer)
    requires Build(w, dpl) && ValidOperand(w, dpl, x0)
    ensures ValidOperand(w, dpl, z)
    ensures IntegerValue(z) == IntPow(IntegerValue(x0), y)
  {
    if y == 0 {
      FixableSmall(w, dpl);
      return Fix(1);
    }
    z := PowLoop(w, dpl, x0, y);
  }

  method PowLoop(w: nat, dpl: nat, x0: Integer, y: nat) returns (z: Integer)
    requires Build(w, dpl) && ValidOperand(w, dpl, x0) && 1 <= y
    ensures ValidOperand(w, dpl, z)
    ensures IntegerValue(z) == IntPow(IntegerValue(x0), y)
  {
    hide Remaining, IntPow, Fixable, Build;
    var x, yy := x0, y;
    z := x;
    ghost var power := IntPow(IntegerValue(x0), y);
    StartPower(IntegerValue(x0), y);
    while true
      invariant 1 <= yy && ValidOperand(w, dpl, x) && ValidOperand(w, dpl, z)
      invariant Remaining(IntegerValue(z), IntegerValue(x), yy - 1, power)
      decreases yy
    {
      yy := yy - 1;
      if yy == 0 { break; }
      x, yy := HalveExponent(w, dpl, x, yy, IntegerValue(z), power);
      MultiplyOnce(IntegerValue(z), IntegerValue(x), yy, power);
      z := Mul(w, dpl, z, x);
    }
    NothingRemains(IntegerValue(z), IntegerValue(x), power);
  }

  lemma NothingRemains(z: int, x: int, power: int)
    requires Remaining(z, x, 0, power)
    ensures z == power
  {
  }

  /** The inner loop: square x while the exponent is even. */
  method HalveExponent(w: nat, dpl: nat, x0: Integer, yy0: nat, ghost z: int, ghost power: int)
    returns (x: Integer, yy: nat)
    requires Build(w, dpl) && ValidOperand(w, dpl, x0) && 1 <= yy0
    requires Remaining(z, IntegerValue(x0), yy0, power)
    ensures ValidOperand(w, dpl, x) && 1 <= yy <= yy0 && yy % 2 == 1
    ensures Remaining(z, IntegerValue(x), yy, power)
  {
    hide Remaining, IntPow, Fixable, Build;
    x, yy := x0, yy0;
    while yy % 2 == 0
      invariant 1 <= yy <= yy0 && ValidOperand(w, dpl, x)
      invariant Remaining(z, IntegerValue(x), yy, power)
      decreases yy
    {
      SquareOnce(z, IntegerValue(x), yy, power);
      yy := yy / 2;
      x := Mul(w, dpl, x, x);
    }
  }
}
