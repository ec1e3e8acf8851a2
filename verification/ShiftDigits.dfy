/** Shifting a digit buffer by fewer bits than a digit has. */
module ShiftDigits {
  import opened Arith
  import opened Digits
  import opened Bits

  // ---------- left ----------

  lemma ShlColumn(B: nat, D: nat, x: seq<nat>, j: nat, s: seq<nat>, t: int)
    requires AllDigits(B, x) && j < |x| && |s| == j && 1 <= B && 0 <= t < D
    requires Carried(B, s, t, D * Val(B, x[..j]))
    ensures 0 <= Hi(B, x[j] * D + t) < D
    ensures Carried(B, s + [Lo(B, x[j] * D + t)], Hi(B, x[j] * D + t), D * Val(B, x[..j + 1]))
  {
    hide Carried, Pow, Val;
    var d := x[j] * D;
    assert D * Val(B, x[..j]) + Pow(B, j) * d == D * Val(B, x[..j + 1]) by { ShlTotals(B, D, x, j, d); }
    CarryStep(B, s, t, D * Val(B, x[..j]), d);
    assert 0 <= Hi(B, d + t) < D by {
      ShlFits(B, D, x[j], t);
      HiIsDigit(B, d + t, D);
    }
  }

  lemma ShlTotals(B: nat, D: nat, x: seq<nat>, j: nat, d: nat)
    requires j < |x| && d == x[j] * D
    ensures D * Val(B, x[..j]) + Pow(B, j) * d == D * Val(B, x[..j + 1])
  {
    ValTake(B, x, j);
    MulDist(D, Val(B, x[..j]), Pow(B, j) * x[j]);
    MulAssoc(D, Pow(B, j), x[j]);
    MulAssoc(Pow(B, j), x[j], D);
  }

  lemma ShlFits(B: nat, D: nat, d: nat, t: int)
    requires d < B && 0 <= t < D
    ensures d * D + t < D * B
  {
    MulLe(d, B - 1, D);
    MulDist(D, B, 1);
  }

  /** The left shift of bigdivrem: n digits of xs times D into zs; t2 is what leaves the top. */
  method ShlDigits(B: nat, D: nat, xs: array<nat>, n: nat, zs: array<nat>) returns (t2: nat)
    requires 1 <= B && 1 <= D && n <= xs.Length && n <= zs.Length && xs != zs && AllDigits(B, xs[..n])
    modifies zs
    ensures AllDigits(B, zs[..n]) && t2 < D && forall i :: n <= i < zs.Length ==> zs[i] == old(zs[i])
    ensures Val(B, zs[..n]) + Pow(B, n) * t2 == D * Val(B, xs[..n])
  {
    hide Carried, Pow, Val;
    ghost var x := xs[..n];
    var j := 0;
    var t: int := 0;
    CarryStart(B);
    assert zs[..0] == [] && x[..0] == [];
    while j < n
      invariant 0 <= j <= n && 0 <= t < D && xs[..n] == x
      invariant forall i :: n <= i < zs.Length ==> zs[i] == old(zs[i])
      invariant Carried(B, zs[..j], t, D * Val(B, x[..j]))
    {
      ghost var s := zs[..j];
      ShlColumn(B, D, x, j, s, t);
      assert x[j] == xs[j];
      t := xs[j] * D + t;
      zs[j] := Lo(B, t);
      t := Hi(B, t);
      j := j + 1;
      assert zs[..j] == s + [zs[j - 1]];
    }
    assert x[..n] == x;
    t2 := t;
    CarriedOut(B, zs[..n], t2, D * Val(B, x));
  }

  lemma CarriedOut(B: nat, zs: seq<nat>, num: int, total: int)
    requires Carried(B, zs, num, total)
    ensures AllDigits(B, zs) && Val(B, zs) + Pow(B, |zs|) * num == total
  {
  }

  // ---------- right ----------

  /** A digit shifted right, with the low bits of the digit above it moving in from the left. */
  function ShiftedDigit(B: nat, D: nat, hi: nat, lo: nat): nat
    requires 1 <= B && 1 <= D
  {
    Lo(B, (hi * B + lo) / D)
  }

  /** high is what is above the digit lo; hi need only agree with it in the bits that move. */
  lemma ShrColumn(B: nat, D: nat, E: nat, high: nat, hi: nat, lo: nat)
    requires 1 <= D && 1 <= B == E * D && lo < B && high % D == hi % D
    ensures (lo + B * high) / D == ShiftedDigit(B, D, hi, lo) + B * (high / D)
    ensures (lo + B * high) % D == lo % D
  {
    var rho := hi % D;
    var moved := (rho * B + lo) / D;
    assert 0 <= moved < B by {
      MulLe(rho, D - 1, B);
      MulDist(B, D, 1);
      DivBounds(rho * B + lo, D, 0, B);
    }
    ShrWhole(B, D, high / D, rho, lo, high);
    ShrWhole(B, D, hi / D, rho, lo, hi);
    DivModUnique(moved + B * (hi / D), B, hi / D, moved);
    LowBits(B, D, E, high, lo);
  }

  lemma ShrWhole(B: nat, D: nat, c: nat, rho: nat, lo: nat, x: nat)
    requires 1 <= D && x == c * D + rho
    ensures (lo + B * x) / D == (rho * B + lo) / D + B * c
    ensures (x * B + lo) / D == (rho * B + lo) / D + B * c
  {
    var m := rho * B + lo;
    assert B * x == (B * c) * D + rho * B by {
      MulDist(B, c * D, rho);
      MulAssoc(B, c, D);
    }
    DivModSpec(m, D);
    assert (m / D + B * c) * D == m / D * D + (B * c) * D by { MulDist(D, m / D, B * c); }
    DivModUnique(lo + B * x, D, m / D + B * c, m % D);
  }

  lemma LowBits(B: nat, D: nat, E: nat, high: nat, lo: nat)
    requires 1 <= D && B == E * D
    ensures (lo + B * high) % D == lo % D
  {
    assert B * high == (E * high) * D by {
      MulAssoc(D, E, high);
      MulAssoc(E, high, D);
    }
    DivModSpec(lo, D);
    assert (lo / D + E * high) * D == lo / D * D + (E * high) * D by { MulDist(D, lo / D, E * high); }
    DivModUnique(lo + B * high, D, lo / D + E * high, lo % D);
  }

  /** What stands at position i and above, with e beyond the top digit. */
  ghost function From(B: nat, s: seq<nat>, e: nat, i: nat): nat
    requires i <= |s|
  {
    Val(B, s[i..]) + Pow(B, |s| - i) * e
  }

  lemma FromStep(B: nat, s: seq<nat>, e: nat, i: nat)
    requires i < |s|
    ensures From(B, s, e, i) == s[i] + B * From(B, s, e, i + 1)
  {
    ValDrop(B, s, i);
    MulDist(B, Val(B, s[i + 1..]), Pow(B, |s| - i - 1) * e);
    MulAssoc(B, Pow(B, |s| - i - 1), e);
  }

  /**
   * The right shift of bigdivrem and rb_big_rshift, from the top digit down. The source may be the
   * target itself. The digit e enters from beyond the top: 0, or all ones for a negative number.
   */
  method ShrDigits(w: nat, dd: nat, xs: array<nat>, off: nat, n: nat, zs: array<nat>, e: nat)
    requires dd < w && off + n <= xs.Length && n <= zs.Length && (xs == zs ==> off == 0) && e < Pow(2, w)
    requires AllDigits(Pow(2, w), xs[off..off + n])
    modifies zs
    ensures AllDigits(Pow(2, w), zs[..n]) && forall i :: n <= i < zs.Length ==> zs[i] == old(zs[i])
    ensures 0 < Pow(2, dd)
    ensures Val(Pow(2, w), zs[..n]) == From(Pow(2, w), old(xs[off..off + n]), e % Pow(2, dd), 0) / Pow(2, dd)
  {
    hide Pow, Val, From, Bitwise, ShiftedDigit;
    var B, D := Pow(2, w), Pow(2, dd);
    PowPositive(2, w);
    PowPositive(2, dd);
    ghost var x, E := xs[off..off + n], Pow(2, w - dd);
    assert B == E * D by { PowAdd(2, w - dd, dd); }
    var i, above, t2 := n, e, e * B;
    FromTop(B, x, e % D, D);
    assert zs[n..n] == [];
    while i > 0
      invariant 0 <= i <= n && above < B && t2 == above * B
      invariant xs[off..off + i] == x[..i]
      invariant forall k :: n <= k < zs.Length ==> zs[k] == old(zs[k])
      invariant AllDigits(B, zs[i..n])
      invariant Val(B, zs[i..n]) == From(B, x, e % D, i) / D && From(B, x, e % D, i) % D == above % D
    {
      i := i - 1;
      ghost var done := zs[i + 1..n];
      var d := xs[off + i];
      assert d == xs[off..off + i + 1][i] == x[i];
      FromStep(B, x, e % D, i);
      ShrColumn(B, D, E, From(B, x, e % D, i + 1), above, d);
      OrDisjoint(d, above, w);
      t2 := Bitwise(OrOp, t2, d) / D;
      assert Lo(B, t2) == ShiftedDigit(B, D, above, d) by { Shifted(B, D, above, d); }
      zs[i] := Lo(B, t2);
      above := d;
      t2 := above * B;
      assert zs[i..n] == [zs[i]] + done;
      ValCons(B, zs[i], done);
      assert xs[off..off + i] == x[..i];
    }
    assert zs[0..n] == zs[..n];
  }

  lemma Shifted(B: nat, D: nat, hi: nat, lo: nat)
    requires 1 <= B && 1 <= D
    ensures ShiftedDigit(B, D, hi, lo) == Lo(B, (hi * B + lo) / D)
  {
  }

  lemma ValCons(B: nat, d: nat, s: seq<nat>)
    ensures Val(B, [d] + s) == d + B * Val(B, s)
  {
    assert ([d] + s)[1..] == s;
  }

  lemma FromTop(B: nat, s: seq<nat>, e: nat, D: nat)
    requires 1 <= D && e < D
    ensures Val(B, []) == From(B, s, e, |s|) / D && From(B, s, e, |s|) % D == e
  {
    assert s[|s|..] == [];
    DivModUnique(e, D, 0, e);
  }
}
