/** Comparison of Bignums: rb_big_cmp and rb_big_eq. */
module BignumCompare {
  import opened Arith
  import opened Digits
  import opened Bignums

  /** Without leading zeros the longer magnitude is the larger one. */
  lemma LongerIsLarger(B: nat, x: seq<nat>, y: seq<nat>)
    requires 1 <= B && AllDigits(B, x) && |x| < |y| && y[|y| - 1] != 0
    ensures Val(B, x) < Val(B, y)
  {
    ValBound(B, x);
    ValTop(B, y);
    PowExpLe(B, |x|, |y| - 1);
  }

  /** The sign of the difference of two magnitudes, decided at the topmost difference. */
  method CompareMagnitudes(x: Bignum, y: Bignum) returns (c: int)
    requires x.Trimmed() && y.Trimmed() && x.SameBuild(y)
    ensures c == if x.Mag() < y.Mag() then -1 else if x.Mag() > y.Mag() then 1 else 0
  {
    hide Val, Pow;
    ghost var s, t := x.digits[..x.len], y.digits[..y.len];
    if x.len < y.len {
      LongerIsLarger(x.Radix(), s, t);
      return -1;
    }
    if x.len > y.len {
      LongerIsLarger(x.Radix(), t, s);
      return 1;
    }
    var xlen := x.len;
    while xlen > 0 && x.digits[xlen - 1] == y.digits[xlen - 1]
      invariant 0 <= xlen <= x.len && s[xlen..] == t[xlen..]
    {
      xlen := xlen - 1;
      assert s[xlen..] == [s[xlen]] + s[xlen + 1..] && t[xlen..] == [t[xlen]] + t[xlen + 1..];
    }
    if xlen == 0 {
      assert s[0..] == s && t[0..] == t;
      return 0;
    }
    assert x.digits[xlen - 1] == s[xlen - 1] && y.digits[xlen - 1] == t[xlen - 1];
    if x.digits[xlen - 1] > y.digits[xlen - 1] {
      ValCompare(x.Radix(), t, s, xlen - 1);
      return 1;
    }
    ValCompare(x.Radix(), s, t, xlen - 1);
    return -1;
  }

  /** rb_big_cmp. */
  method Cmp(x: Bignum, yy: Integer) returns (c: int)
    requires x.Trimmed() && ValidOperand(x.w, x.dpl, yy)
    ensures c == if x.Value() < IntegerValue(yy) then -1 else if x.Value() > IntegerValue(yy) then 1 else 0
  {
    hide Val, Pow;
    var y := ToBig(x.w, x.dpl, yy);
    x.NotZero();
    y.NotZero();
    if x.sign && !y.sign { return 1; }
    if !x.sign && y.sign { return -1; }
    c := CompareMagnitudes(x, y);
    if !x.sign { c := -c; }
  }

  /** rb_big_eq: sign, length and digits agree exactly when the values do. */
  method Eq(x: Bignum, yy: Integer) returns (b: bool)
    requires x.Trimmed() && ValidOperand(x.w, x.dpl, yy)
    ensures b <==> x.Value() == IntegerValue(yy)
  {
    hide Val, Pow;
    var y := ToBig(x.w, x.dpl, yy);
    x.NotZero();
    y.NotZero();
    SameValueSameDigits(x, y);
    b := x.sign == y.sign && x.len == y.len && x.digits[..x.len] == y.digits[..y.len];
  }

  lemma SameValueSameDigits(x: Bignum, y: Bignum)
    requires x.Trimmed() && y.Trimmed() && x.SameBuild(y)
    ensures x.Mag() == y.Mag() ==> x.len == y.len && x.digits[..x.len] == y.digits[..y.len]
  {
    hide Val, Pow;
    if x.Mag() == y.Mag() {
      if x.len < y.len { LongerIsLarger(x.Radix(), x.digits[..x.len], y.digits[..y.len]); }
      if y.len < x.len { LongerIsLarger(x.Radix(), y.digits[..y.len], x.digits[..x.len]); }
      ValUnique(x.Radix(), x.digits[..x.len], y.digits[..y.len]);
    }
  }
}
