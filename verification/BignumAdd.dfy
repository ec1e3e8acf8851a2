/** Signed addition and subtraction of Bignums: bigadd and bigsub. */
module BignumAdd {
  import opened Arith
  import opened Digits
  import opened Bignums

  lemma AddColumn(B: nat, x: seq<nat>, y: seq<nat>, i: nat, s: seq<nat>, num: int)
    requires AllDigits(B, x) && AllDigits(B, y) && i < |x| && i < |y| && |s| == i
    requires 0 <= num <= 1 && 2 <= B
    requires Carried(B, s, num, Val(B, x[..i]) + Val(B, y[..i]))
    ensures var t := num + x[i] + y[i];
            0 <= Hi(B, t) <= 1
            && Carried(B, s + [Lo(B, t)], Hi(B, t), Val(B, x[..i + 1]) + Val(B, y[..i + 1]))
  {
    CarryStep(B, s, num, Val(B, x[..i]) + Val(B, y[..i]), x[i] + y[i]);
    ValTake(B, x, i);
    ValTake(B, y, i);
    MulDist(Pow(B, i), x[i], y[i]);
    HiIsDigit(B, num + x[i] + y[i], 2);
  }

  lemma CarryColumn(B: nat, x: int, y: seq<nat>, i: nat, s: seq<nat>, num: int)
    requires AllDigits(B, y) && i < |y| && |s| == i && -1 <= num <= 1 && 2 <= B
    requires Carried(B, s, num, x + Val(B, y[..i]))
    ensures var t := num + y[i];
            (if num < 0 then -1 else 0) <= Hi(B, t) <= (if num <= 0 then 0 else 1)
            && Carried(B, s + [Lo(B, t)], Hi(B, t), x + Val(B, y[..i + 1]))
  {
    CarryStep(B, s, num, x + Val(B, y[..i]), y[i]);
    ValTake(B, y, i);
    DivBounds(num + y[i], B, if num < 0 then -1 else 0, if num <= 0 then 1 else 2);
  }

  lemma CopyColumn(B: nat, x: int, y: seq<nat>, i: nat, s: seq<nat>)
    requires AllDigits(B, y) && i < |y| && |s| == i
    requires Carried(B, s, 0, x + Val(B, y[..i]))
    ensures Carried(B, s + [y[i]], 0, x + Val(B, y[..i + 1]))
  {
    CopyStep(B, s, x + Val(B, y[..i]), y[i]);
    ValTake(B, y, i);
  }

  /** The column loops of bigadd, with xs the shorter operand. */
  method AddDigits(B: nat, xs: array<nat>, xl: nat, ys: array<nat>, yl: nat, zs: array<nat>)
    requires 2 <= B && xl <= yl && xl <= xs.Length && yl <= ys.Length && zs.Length == yl + 1
    requires AllDigits(B, xs[..xl]) && AllDigits(B, ys[..yl])
    requires zs != xs && zs != ys
    modifies zs
    ensures AllDigits(B, zs[..])
    ensures Val(B, zs[..]) == Val(B, xs[..xl]) + Val(B, ys[..yl])
  {
    hide Carried, Pow, Val;
    ghost var x, y := xs[..xl], ys[..yl];
    var i, num: int := 0, 0;
    CarryStart(B);
    assert zs[..0] == [] && x[..0] == [] && y[..0] == [];
    while i < xl
      invariant 0 <= i <= xl && 0 <= num <= 1
      invariant Carried(B, zs[..i], num, Val(B, x[..i]) + Val(B, y[..i]))
    {
      AddColumn(B, x, y, i, zs[..i], num);
      ghost var s := zs[..i];
      num := num + xs[i] + ys[i];
      zs[i] := Lo(B, num);
      num := Hi(B, num);
      i := i + 1;
      assert zs[..i] == s + [zs[i - 1]];
    }
    assert x[..xl] == x;
    i, num := RippleDigits(B, Val(B, x), ys, yl, zs, i, num);
    ghost var s := zs[..i];
    assert y[..yl] == y;
    CarryEnd(B, s, num, Val(B, x) + Val(B, y));
    zs[i] := num;
    assert zs[..] == s + [num];
    CarryDone(B, zs[..], Val(B, x) + Val(B, y));
  }

  /** The tail of both bigadd and bigsub: ripple num through the longer operand, then copy. */
  method RippleDigits(B: nat, ghost x: int, ys: array<nat>, yl: nat, zs: array<nat>, i0: nat, num0: int)
    returns (i: nat, num: int)
    requires 2 <= B && i0 <= yl <= ys.Length && yl <= zs.Length && zs != ys && -1 <= num0 <= 1
    requires AllDigits(B, ys[..yl]) && Carried(B, zs[..i0], num0, x + Val(B, ys[..yl][..i0]))
    modifies zs
    ensures i == yl && (if num0 < 0 then -1 else 0) <= num <= (if num0 <= 0 then 0 else 1)
    ensures Carried(B, zs[..yl], num, x + Val(B, ys[..yl]))
  {
    hide Carried, Pow, Val;
    ghost var y := ys[..yl];
    i, num := i0, num0;
    while num != 0 && i < yl
      invariant i0 <= i <= yl && (if num0 < 0 then -1 else 0) <= num <= (if num0 <= 0 then 0 else 1)
      invariant Carried(B, zs[..i], num, x + Val(B, y[..i]))
    {
      CarryColumn(B, x, y, i, zs[..i], num);
      ghost var s := zs[..i];
      num := num + ys[i];
      zs[i] := Lo(B, num);
      num := Hi(B, num);
      i := i + 1;
      assert zs[..i] == s + [zs[i - 1]];
    }
    while i < yl
      invariant i0 <= i <= yl && (if num0 < 0 then -1 else 0) <= num <= (if num0 <= 0 then 0 else 1)
      invariant i < yl ==> num == 0
      invariant Carried(B, zs[..i], num, x + Val(B, y[..i]))
    {
      CopyColumn(B, x, y, i, zs[..i]);
      ghost var s := zs[..i];
      zs[i] := ys[i];
      i := i + 1;
      assert zs[..i] == s + [y[i - 1]];
    }
    assert y[..yl] == y;
  }

  lemma SubColumn(B: nat, x: seq<nat>, y: seq<nat>, i: nat, s: seq<nat>, num: int)
    requires AllDigits(B, x) && AllDigits(B, y) && i < |x| && i < |y| && |s| == i
    requires -1 <= num <= 0 && 2 <= B
    requires Carried(B, s, num, Val(B, x[..i]) - Val(B, y[..i]))
    ensures var t: int := num + (x[i] as int - y[i] as int);
            -1 <= Hi(B, t) <= 0
            && Carried(B, s + [Lo(B, t)], Hi(B, t), Val(B, x[..i + 1]) - Val(B, y[..i + 1]))
  {
    var d: int := x[i] as int - y[i] as int;
    CarryStep(B, s, num, Val(B, x[..i]) - Val(B, y[..i]), d);
    ValTake(B, x, i);
    ValTake(B, y, i);
    MulDist(Pow(B, i), x[i], y[i]);
    DivBounds(num + d, B, -1, 1);
  }

  /** The column loops of bigsub: xs minus the not larger ys. */
  method SubDigits(B: nat, xs: array<nat>, xl: nat, ys: array<nat>, yl: nat, zs: array<nat>)
    requires 2 <= B && yl <= xl <= xs.Length && yl <= ys.Length && zs.Length == xl
    requires AllDigits(B, xs[..xl]) && AllDigits(B, ys[..yl])
    requires Val(B, ys[..yl]) <= Val(B, xs[..xl])
    requires zs != xs && zs != ys
    modifies zs
    ensures AllDigits(B, zs[..])
    ensures Val(B, zs[..]) == Val(B, xs[..xl]) - Val(B, ys[..yl])
  {
    hide Carried, Pow, Val;
    ghost var x, y := xs[..xl], ys[..yl];
    var i, num: int := 0, 0;
    CarryStart(B);
    assert zs[..0] == [] && x[..0] == [] && y[..0] == [];
    while i < yl
      invariant 0 <= i <= yl && -1 <= num <= 0
      invariant Carried(B, zs[..i], num, Val(B, x[..i]) - Val(B, y[..i]))
    {
      SubColumn(B, x, y, i, zs[..i], num);
      ghost var s := zs[..i];
      num := num + (xs[i] as int - ys[i] as int);
      zs[i] := Lo(B, num);
      num := Hi(B, num);
      i := i + 1;
      assert zs[..i] == s + [zs[i - 1]];
    }
    assert y[..yl] == y;
    i, num := RippleDigits(B, -(Val(B, y) as int), xs, xl, zs, i, num);
    assert zs[..xl] == zs[..] && x[..xl] == x;
    NoBorrow(B, zs[..], num, Val(B, x) - Val(B, y));
    CarryDone(B, zs[..], Val(B, x) - Val(B, y));
  }

  /** bigsub's operand order: swap when y is the larger magnitude. */
  method BigSub(x0: Bignum, y0: Bignum) returns (z: Bignum)
    requires x0.Valid() && y0.Valid() && x0.SameBuild(y0)
    requires x0.len < y0.len ==> x0.Mag() <= y0.Mag()
    requires y0.len < x0.len ==> y0.Mag() <= x0.Mag()
    ensures z.Valid() && fresh(z) && fresh(z.digits) && z.SameBuild(x0)
    ensures z.Value() == x0.Mag() - y0.Mag()
  {
    var x, y, swapped := x0, y0, false;
    if x0.len < y0.len {
      x, y, swapped := y0, x0, true;
    } else if x0.len == y0.len {
      swapped := Below(x0, y0);
      if swapped { x, y := y0, x0; }
    }
    z := new Bignum(x0.w, x0.dpl, x.len, !swapped);
    SubDigits(x0.Radix(), x.digits, x.len, y.digits, y.len, z.digits);
    assert z.digits[..z.len] == z.digits[..];
  }

  /** Of two equally long magnitudes, is the first the smaller one? */
  method Below(x: Bignum, y: Bignum) returns (less: bool)
    requires x.Valid() && y.Valid() && x.SameBuild(y) && x.len == y.len
    ensures less <==> x.Mag() < y.Mag()
  {
    var i := x.len;
    ghost var n, s, t := x.len, x.digits[..x.len], y.digits[..y.len];
    while i > 0
      invariant 0 <= i <= n && s[i..] == t[i..]
    {
      i := i - 1;
      assert x.digits[i] == s[i] && y.digits[i] == t[i];
      if x.digits[i] > y.digits[i] {
        ValCompare(x.Radix(), t, s, i);
        return false;
      }
      if x.digits[i] < y.digits[i] {
        ValCompare(x.Radix(), s, t, i);
        return true;
      }
      assert s[i..] == [s[i]] + s[i + 1..] && t[i..] == [t[i]] + t[i + 1..];
    }
    assert s[0..] == s && t[0..] == t;
    less := false;
  }

  /** bigadd: x + y when plus, else x - y, for any signs and either operand the longer one. */
  method BigAdd(x: Bignum, y: Bignum, plus: bool) returns (z: Bignum)
    requires x.Valid() && y.Valid() && x.SameBuild(y)
    requires x.sign != (plus == y.sign) && x.len < y.len ==> x.Mag() <= y.Mag()
    requires x.sign != (plus == y.sign) && y.len < x.len ==> y.Mag() <= x.Mag()
    ensures z.Valid() && fresh(z) && fresh(z.digits) && z.SameBuild(x)
    ensures z.Value() == if plus then x.Value() + y.Value() else x.Value() - y.Value()
  {
    var sign := plus == y.sign;
    if x.sign != sign {
      if sign { z := BigSub(y, x); } else { z := BigSub(x, y); }
      return;
    }
    var short, long := x, y;
    if x.len > y.len { short, long := y, x; }
    z := new Bignum(x.w, x.dpl, long.len + 1, sign);
    AddDigits(x.Radix(), short.digits, short.len, long.digits, long.len, z.digits);
    assert z.digits[..z.len] == z.digits[..];
  }
}
