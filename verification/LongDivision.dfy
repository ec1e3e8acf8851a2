/** bigdivrem and bigdivmod: division of Bignums, truncating and flooring. */
module LongDivision {
  import opened Arith
  import opened Digits
  import opened ShiftDigits
  import opened BignumDiv
  import opened Bignums
  import opened BignumAdd

  // ---------- division by a single digit ----------

  lemma ShortStep(B: nat, d: nat, x: int, q: nat, t: nat, lo: nat)
    requires 1 <= d && t < d && lo < B && x == d * q + t
    ensures var n := t * B + lo;
            0 <= n / d < B && 0 <= n % d < d && lo + B * x == d * (n / d + B * q) + n % d
  {
    var n := t * B + lo;
    MulLe(t, d - 1, B);
    MulDist(B, d, 1);
    DivModSpec(n, d);
    DivBounds(n, d, 0, B);
    MulDist(B, d * q, t);
    MulAssoc(B, d, q);
    MulAssoc(d, B, q);
    MulDist(d, n / d, B * q);
  }

  /** Divide the n low digits of ds by d in place, from the top down; t2 is the remainder. */
  method DivSmall(B: nat, ds: array<nat>, n: nat, d: nat) returns (t2: nat)
    requires 1 <= B && 1 <= d && n <= ds.Length && AllDigits(B, ds[..n])
    modifies ds
    ensures AllDigits(B, ds[..n]) && t2 < d && forall i :: n <= i < ds.Length ==> ds[i] == old(ds[i])
    ensures Val(B, old(ds[..n])) == d * Val(B, ds[..n]) + t2
  {
    hide Val, Pow;
    ghost var x := ds[..n];
    var i := n;
    t2 := 0;
    CarryStart(B);
    assert x[n..] == [] && ds[n..n] == [];
    while i > 0
      invariant 0 <= i <= n && t2 < d && ds[..i] == x[..i] && AllDigits(B, ds[i..n])
      invariant forall k :: n <= k < ds.Length ==> ds[k] == old(ds[k])
      invariant Val(B, x[i..]) == d * Val(B, ds[i..n]) + t2
    {
      ghost var done := ds[i..n];
      i := i - 1;
      assert ds[i] == ds[..i + 1][i] == x[i];
      ValDrop(B, x, i);
      ShortStep(B, d, Val(B, x[i + 1..]), Val(B, done), t2, ds[i]);
      t2 := t2 * B + ds[i];
      ds[i], t2 := t2 / d, t2 % d;
      assert ds[i..n] == [ds[i]] + done;
      ValCons(B, ds[i], done);
      assert ds[..i] == x[..i];
    }
    assert x[0..] == x && ds[0..n] == ds[..n];
  }

  // ---------- normalisation ----------

  /** Shift the divisor's top digit left until its top bit is set. */
  method Normalising(w: nat, top: nat) returns (dd: nat)
    requires 1 <= w && 0 < top < Pow(2, w)
    ensures dd < w && top * Pow(2, dd) < Pow(2, w) <= 2 * (top * Pow(2, dd))
  {
    var q := top;
    dd := 0;
    while q < Pow(2, w) / 2
      invariant q == top * Pow(2, dd) < Pow(2, w) && dd < w
      decreases Pow(2, w) - q
    {
      MulAssoc(top, 2, Pow(2, dd));
      MoreBits(w, dd, top);
      q := 2 * q;
      dd := dd + 1;
    }
    assert Pow(2, w) == 2 * Pow(2, w - 1);
  }

  lemma MoreBits(w: nat, dd: nat, top: nat)
    requires 1 <= w && 1 <= top && dd < w && top * Pow(2, dd) < Pow(2, w) / 2
    ensures dd + 1 < w && 2 * (top * Pow(2, dd)) < Pow(2, w) && 0 < top * Pow(2, dd)
  {
    assert Pow(2, w) == 2 * Pow(2, w - 1);
    PowPositive(2, dd);
    MulLe(1, top, Pow(2, dd));
    PowOrder(2, dd, w - 1);
  }

  /** The scaled divisor keeps its length and gets a top digit of at least B / 2. */
  lemma ScaledDivisor(B: nat, D: nat, E: nat, y: seq<nat>, t: seq<nat>, c: nat)
    requires 1 <= D && 1 <= B == E * D && AllDigits(B, y) && AllDigits(B, t) && |t| == |y| && 1 <= |y|
    requires y[|y| - 1] * D < B <= 2 * (y[|y| - 1] * D)
    requires Val(B, t) + Pow(B, |y|) * c == D * Val(B, y)
    ensures c == 0 && B <= 2 * t[|y| - 1]
  {
    var n := |y| - 1;
    var p, top := Pow(B, n), y[n];
    TopDigit(B, y);
    TopDigit(B, t);
    assert (top + 1) * D <= B by {
      if E <= top { MulLe(E, top, D); }
      MulLe(top + 1, E, D);
    }
    ScaledArithmetic(B, D, p, top, Val(B, y), t[n], Val(B, t), c);
  }

  lemma TopDigit(B: nat, s: seq<nat>)
    requires s != [] && AllDigits(B, s)
    ensures var p := Pow(B, |s| - 1); p * s[|s| - 1] <= Val(B, s) < p * s[|s| - 1] + p
  {
    assert s[..|s|] == s;
    ValTake(B, s, |s| - 1);
    ValBound(B, s[..|s| - 1]);
  }

  lemma ScaledArithmetic(B: nat, D: nat, p: nat, top: nat, y: nat, ttop: nat, t: nat, c: nat)
    requires 1 <= D && 1 <= B && (top + 1) * D <= B && B <= 2 * (top * D)
    requires p * top <= y < p * top + p && p * ttop <= t < p * ttop + p
    requires t + (B * p) * c == D * y
    ensures c == 0 && B <= 2 * ttop
  {
    ScaledBelow(B, D, p, top, y);
    if c != 0 { MulLe(1, c, B * p); }
    assert (B * p) * 0 == 0;
    ScaledAbove(D, p, top, y, ttop, t);
  }

  lemma ScaledBelow(B: nat, D: nat, p: nat, top: nat, y: nat)
    requires 1 <= D && (top + 1) * D <= B && y < p * top + p
    ensures D * y < B * p
  {
    MulLt(y, p * top + p, D);
    assert D * (p * top + p) == ((top + 1) * D) * p by {
      MulDist(p, top, 1);
      MulAssoc(D, p, top + 1);
      MulAssoc(p, D, top + 1);
    }
    MulLe((top + 1) * D, B, p);
  }

  lemma ScaledAbove(D: nat, p: nat, top: nat, y: nat, ttop: nat, t: nat)
    requires p * top <= y && t < p * ttop + p && t == D * y
    ensures top * D <= ttop
  {
    assert (top * D) * p <= t by {
      MulLe(p * top, y, D);
      MulAssoc(D, p, top);
      MulAssoc(p, D, top);
    }
    if ttop < top * D {
      MulLe(ttop + 1, top * D, p);
      MulDist(p, ttop, 1);
    }
  }

  // ---------- the division proper ----------

  /** Scaling dividend and divisor by D scales the remainder and leaves the quotient alone. */
  lemma Unscale(D: nat, x: nat, y: nat, q: nat, r: nat)
    requires 1 <= D && D * x == q * (D * y) + r && r < D * y
    ensures x == q * y + r / D && r / D < y
  {
    var r' := x - q * y;
    assert r == D * r' by {
      MulDist(D, x, q * y);
      MulAssoc(q, D, y);
      MulAssoc(D, q, y);
    }
    if y <= r' { MulLe(y, r', D); }
    if r' < 0 { MulLe(r', -1, D); }
    DivModUnique(r, D, r', 0);
  }

  /** Zero digits above the ones written. */
  lemma PaddedValue(B: nat, zs: seq<nat>, n: nat, carry: nat)
    requires n < |zs| && zs[n] == carry && forall i :: n < i < |zs| ==> zs[i] == 0
    ensures Val(B, zs) == Val(B, zs[..n]) + Pow(B, n) * carry
  {
    ValPad(B, zs, n + 1);
    ValTake(B, zs, n);
  }

  /** Scale the divisor into a fresh buffer, unless it is normalised already. */
  method ScaleDivisor(w: nat, dd: nat, ys: array<nat>, ny: nat) returns (tds: array<nat>)
    requires 1 <= w && dd < w && 1 <= ny <= ys.Length && AllDigits(Pow(2, w), ys[..ny])
    requires ys[ny - 1] * Pow(2, dd) < Pow(2, w) <= 2 * (ys[ny - 1] * Pow(2, dd))
    ensures ny <= tds.Length && AllDigits(Pow(2, w), tds[..ny]) && (tds == ys || fresh(tds))
    ensures Val(Pow(2, w), tds[..ny]) == Pow(2, dd) * Val(Pow(2, w), ys[..ny])
    ensures Pow(2, w) <= 2 * tds[ny - 1]
  {
    hide Val, Pow;
    var B, D := Pow(2, w), Pow(2, dd);
    PowPositive(2, w);
    PowPositive(2, dd);
    if dd == 0 {
      assert D == 1 by { PowBase(2); }
      return ys;
    }
    tds := new nat[ny];
    var c := ShlDigits(B, D, ys, ny, tds);
    PowAdd(2, w - dd, dd);
    ScaledDivisor(B, D, Pow(2, w - dd), ys[..ny], tds[..ny], c);
    assert Pow(B, ny) * 0 == 0;
  }

  lemma PowBase(b: nat)
    ensures Pow(b, 0) == 1
  {
  }

  /** Scale the dividend into the work buffer, with a zero digit above when the lengths are equal. */
  method ScaleDividend(w: nat, dd: nat, xs: array<nat>, nx: nat, zs: array<nat>)
    requires 1 <= w && dd < w && nx <= xs.Length && AllDigits(Pow(2, w), xs[..nx]) && xs != zs
    requires zs.Length == nx + 1 || (zs.Length == nx + 2 && zs[nx + 1] == 0)
    modifies zs
    ensures AllDigits(Pow(2, w), zs[..]) && 2 * zs[zs.Length - 1] < Pow(2, w)
    ensures Val(Pow(2, w), zs[..]) == Pow(2, dd) * Val(Pow(2, w), xs[..nx])
  {
    hide Val, Pow;
    var B, D := Pow(2, w), Pow(2, dd);
    PowPositive(2, w);
    PowPositive(2, dd);
    assert 2 * D <= B by { HalfRadix(w, dd); }
    var carry := 0;
    if dd != 0 {
      carry := ShlDigits(B, D, xs, nx, zs);
    } else {
      assert D == 1 by { PowBase(2); }
      forall j | 0 <= j < nx { zs[j] := xs[j]; }
      assert zs[..nx] == xs[..nx] && Pow(B, nx) * 0 == 0;
    }
    ghost var low := zs[..nx];
    zs[nx] := carry;
    assert zs[..][..nx] == zs[..nx] == low;
    assert AllDigits(B, zs[..]) by {
      forall i | 0 <= i < zs.Length ensures zs[i] < B {
        if i < nx { assert zs[i] == low[i]; }
      }
    }
    PaddedValue(B, zs[..], nx, carry);
  }

  lemma HalfRadix(w: nat, dd: nat)
    requires dd < w
    ensures 2 * Pow(2, dd) <= Pow(2, w)
  {
    PowExpLe(2, dd + 1, w);
  }

  /** Quotient digits from position ny up, and the remainder, still scaled by 2^dd, below. */
  method DivLong(w: nat, xs: array<nat>, nx: nat, ys: array<nat>, ny: nat, zs: array<nat>) returns (dd: nat)
    requires 1 <= w && 1 <= ny <= nx && nx <= xs.Length && ny <= ys.Length && xs != zs && ys != zs
    requires AllDigits(Pow(2, w), xs[..nx]) && AllDigits(Pow(2, w), ys[..ny]) && ys[ny - 1] != 0
    requires zs.Length == nx + 1 || (zs.Length == nx + 2 && zs[nx + 1] == 0)
    modifies zs
    ensures AllDigits(Pow(2, w), zs[..]) && dd < w && 0 < Pow(2, dd)
    ensures var r := Val(Pow(2, w), zs[..ny]) / Pow(2, dd);
            Val(Pow(2, w), xs[..nx]) == Val(Pow(2, w), zs[ny..]) * Val(Pow(2, w), ys[..ny]) + r
            && r < Val(Pow(2, w), ys[..ny])
  {
    hide Val, Pow;
    var B := Pow(2, w);
    assert 2 <= B by { PowBase(2); HalfRadix(w, 0); }
    assert ys[ny - 1] == ys[..ny][ny - 1];
    dd := Normalising(w, ys[ny - 1]);
    PowPositive(2, dd);
    var tds := ScaleDivisor(w, dd, ys, ny);
    ScaleDividend(w, dd, xs, nx, zs);
    DivLoop(B, zs, tds, ny);
    Unscale(Pow(2, dd), Val(B, xs[..nx]), Val(B, ys[..ny]), Val(B, zs[ny..]), Val(B, zs[..ny]));
  }

  // ---------- bigdivrem and bigdivmod on Bignums ----------

  datatype DivResult = ZeroDivision | Quotient(div: Bignum, mod: Bignum)

  /** A shorter dividend, or one of equal length with a smaller top digit, is the smaller one. */
  lemma SmallerDividend(B: nat, x: seq<nat>, y: seq<nat>)
    requires 1 <= B && AllDigits(B, x) && AllDigits(B, y) && y != [] && y[|y| - 1] != 0
    requires |x| < |y| || (|x| == |y| && x[|x| - 1] < y[|y| - 1])
    ensures Val(B, x) < Val(B, y)
  {
    if |x| < |y| {
      ValBound(B, x);
      ValTop(B, y);
      PowExpLe(B, |x|, |y| - 1);
    } else {
      assert x[|x|..] == [] && y[|y|..] == [];
      ValCompare(B, x, y, |x| - 1);
    }
  }

  /** Move digits down over the ny lowest ones. */
  method MoveDown(ds: array<nat>, n: nat, ny: nat)
    requires ny <= n == ds.Length
    modifies ds
    ensures ds[..n - ny] == old(ds[ny..n])
  {
    ghost var s := ds[..];
    var j, i := n - ny, 0;
    while i < j
      invariant 0 <= i <= j
      invariant forall k :: i <= k < n ==> ds[k] == s[k]
      invariant forall k :: 0 <= k < i ==> ds[k] == s[k + ny]
    {
      ds[i] := ds[i + ny];
      i := i + 1;
    }
  }

  /** Move the quotient down in a copy of the work buffer. */
  method TakeQuotient(z: Bignum, ny: nat) returns (div: Bignum)
    requires z.Valid() && ny <= z.len
    ensures div.Valid() && fresh(div) && fresh(div.digits) && div.SameBuild(z) && div.sign == z.sign
    ensures div.Mag() == Val(z.Radix(), z.digits[..z.len][ny..])
  {
    hide Val, Pow;
    div := z.Clone();
    ghost var s := z.digits[..z.len];
    assert div.digits[ny..z.len] == s[ny..];
    MoveDown(div.digits, z.len, ny);
    div.len := z.len - ny;
    assert div.digits[..div.len] == s[ny..];
  }

  lemma NothingAbove(B: nat, s: seq<nat>)
    ensures From(B, s, 0, 0) == Val(B, s)
  {
    assert s[0..] == s && Pow(B, |s|) * 0 == 0;
  }

  /** The remainder is trimmed before it is shifted back, so a zero one keeps a single digit. */
  lemma ShiftedNotZero(w: nat, dd: nat, s: seq<nat>)
    requires dd < w && 2 <= |s| && s[|s| - 1] != 0 && 0 < Pow(2, dd)
    ensures 0 < Val(Pow(2, w), s) / Pow(2, dd)
  {
    var B, D := Pow(2, w), Pow(2, dd);
    PowPositive(2, w);
    ValTop(B, s);
    PowExpLe(B, 1, |s| - 1);
    PowExpLe(2, dd, w);
    assert Pow(B, 1) == B * Pow(B, 0) == B;
    DivBounds(Val(B, s), D, 1, Val(B, s) + 1) by { MulLe(1, D, Val(B, s) + 1); }
  }

  /** Shift the ny digits of the remainder back by dd, in place. */
  method Unshift(w: nat, dd: nat, ds: array<nat>, ny: nat)
    requires dd < w && 0 < Pow(2, dd) && ny <= ds.Length && AllDigits(Pow(2, w), ds[..ny])
    modifies ds
    ensures AllDigits(Pow(2, w), ds[..ny])
    ensures Val(Pow(2, w), ds[..ny]) == Val(Pow(2, w), old(ds[..ny])) / Pow(2, dd)
  {
    hide Pow, Val, From;
    if dd != 0 {
      assert ds[0..ny] == ds[..ny];
      NothingAbove(Pow(2, w), ds[..ny]);
      PowPositive(2, w);
      ShrDigits(w, dd, ds, 0, ny, ds, 0);
    } else {
      assert Pow(2, dd) == 1 by { PowBase(2); }
    }
  }

  /** Cut the remainder out of the work buffer, trim it and undo the scaling. */
  method TakeRemainder(z: Bignum, ny0: nat, dd: nat, sign: bool) returns (mod: Bignum)
    requires z.Valid() && 1 <= ny0 <= z.len && dd < z.w && 0 < Pow(2, dd)
    ensures mod.Valid() && fresh(mod) && fresh(mod.digits) && mod.SameBuild(z) && mod.sign == sign
    ensures mod.Mag() == Val(z.Radix(), z.digits[..z.len][..ny0]) / Pow(2, dd)
    ensures 1 <= mod.len <= ny0 && (mod.Mag() == 0 ==> mod.len == 1)
  {
    hide Pow, Val;
    ghost var B, s := z.Radix(), z.digits[..z.len][..ny0];
    mod := z.Clone();
    var ny := ny0;
    while ny > 1 && mod.digits[ny - 1] == 0
      invariant 1 <= ny <= ny0
      invariant forall i :: ny <= i < ny0 ==> mod.digits[i] == 0
    {
      ny := ny - 1;
    }
    assert mod.digits[..ny0] == mod.digits[..mod.len][..ny0] == s;
    ValPad(B, s, ny);
    assert s[..ny] == mod.digits[..ny];
    if ny > 1 { ShiftedNotZero(z.w, dd, s[..ny]); }
    Unshift(z.w, dd, mod.digits, ny);
    mod.len := ny;
    mod.sign := sign;
  }

  /** The division of magnitudes that bigdivrem performs; the signs go with truncation. */
  ghost predicate DividesTo(x: Bignum, y: Bignum, div: Bignum, mod: Bignum)
    reads x, x.digits, y, y.digits, div, div.digits, mod, mod.digits
  {
    && x.Valid() && y.Valid() && div.Valid() && mod.Valid()
    && div.SameBuild(x) && mod.SameBuild(x)
    && x.Mag() == div.Mag() * y.Mag() + mod.Mag() && mod.Mag() < y.Mag()
    && (div.sign == (x.sign == y.sign) || (div.Mag() == 0 && div.len == 1))
    && mod.sign == x.sign && 1 <= mod.len <= y.len && (mod.Mag() == 0 ==> mod.len == 1 || mod == x)
  }

  /** Divide a copy of x by one digit. */
  method ShortQuotient(x: Bignum, dd: nat, sign: bool) returns (div: Bignum, t2: nat)
    requires x.Valid() && 1 <= dd < x.Radix()
    ensures div.Valid() && fresh(div) && fresh(div.digits) && div.SameBuild(x) && div.sign == sign
    ensures t2 < dd && x.Mag() == div.Mag() * dd + t2
  {
    hide Val, Pow;
    div := x.Clone();
    t2 := DivSmall(x.Radix(), div.digits, x.len, dd);
    div.sign := sign;
  }

  /** A one-digit remainder as a Bignum. */
  method DigitRemainder(w: nat, dpl: nat, t2: nat, sign: bool) returns (mod: Bignum)
    requires Build(w, dpl) && t2 < Pow(2, w)
    ensures mod.Valid() && fresh(mod) && fresh(mod.digits) && mod.w == w && mod.dpl == dpl
    ensures mod.len == 1 && mod.Mag() == t2 && mod.sign == sign
  {
    hide Val, Pow;
    RadixFits(w, dpl);
    mod := new Bignum.FromUlong(w, dpl, t2);
    mod.TrimmedDigit();
    mod.sign := sign;
  }

  /** The path for a divisor of one digit. */
  method DivRemDigit(x: Bignum, y: Bignum) returns (div: Bignum, mod: Bignum)
    requires x.Valid() && y.Trimmed() && x.SameBuild(y) && y.len == 1 && 0 < y.Mag()
    ensures DividesTo(x, y, div, mod) && fresh(div) && fresh(div.digits) && fresh(mod) && fresh(mod.digits)
  {
    hide Val, Pow;
    y.OneDigit();
    var dd := y.digits[..y.len][0];
    var t2: nat;
    div, t2 := ShortQuotient(x, dd, x.sign == y.sign);
    mod := DigitRemainder(x.w, x.dpl, t2, x.sign);
  }

  lemma RadixFits(w: nat, dpl: nat)
    requires Build(w, dpl)
    ensures Pow(2, w) <= Pow(2, w * dpl)
  {
    MulLe(1, dpl, w);
    PowExpLe(2, w, w * dpl);
  }

  /** The path for a longer divisor: both results are cut out of one work buffer. */
  method DivRemLong(x: Bignum, y: Bignum) returns (div: Bignum, mod: Bignum)
    requires x.Valid() && y.Trimmed() && x.SameBuild(y) && 2 <= y.len <= x.len
    ensures DividesTo(x, y, div, mod) && fresh(div) && fresh(div.digits) && fresh(mod) && fresh(mod.digits)
  {
    hide Val, Pow;
    var nx, ny := x.len, y.len;
    var z := new Bignum(x.w, x.dpl, if nx == ny then nx + 2 else nx + 1, x.sign == y.sign);
    var dd := DivLong(x.w, x.digits, nx, y.digits, ny, z.digits);
    assert z.digits[..z.len] == z.digits[..];
    assert z.digits[..][ny..] == z.digits[ny..] && z.digits[..][..ny] == z.digits[..ny];
    div := TakeQuotient(z, ny);
    mod := TakeRemainder(z, ny, dd, x.sign);
  }

  /** bigdivrem. Only the divisor must have no leading zero digit. */
  method BigDivRem(x: Bignum, y: Bignum) returns (r: DivResult)
    requires x.Valid() && 1 <= x.len && y.Trimmed() && x.SameBuild(y)
    ensures r.ZeroDivision? <==> y.Mag() == 0
    ensures r.Quotient? ==> DividesTo(x, y, r.div, r.mod) && fresh(r.div) && fresh(r.div.digits)
    ensures r.Quotient? ==> r.mod == x || (fresh(r.mod) && fresh(r.mod.digits))
  {
    y.OneDigit();
    y.NotZero();
    if y.len == 1 && y.digits[0] == 0 { return ZeroDivision; }
    if x.len < y.len || (x.len == y.len && x.digits[x.len - 1] < y.digits[y.len - 1]) {
      SmallerDividend(x.Radix(), x.digits[..x.len], y.digits[..y.len]);
      RadixFits(x.w, x.dpl);
      PowPositive(2, x.w);
      var zero := new Bignum.FromUlong(x.w, x.dpl, 0);
      zero.TrimmedDigit();
      return Quotient(zero, x);
    }
    if y.len == 1 {
      var div, mod := DivRemDigit(x, y);
      return Quotient(div, mod);
    }
    var div, mod := DivRemLong(x, y);
    r := Quotient(div, mod);
  }

  /** From magnitudes to signed values: the quotient is truncated. */
  lemma Truncated(x: int, y: int, q: int, r: int, sx: bool, sy: bool)
    requires (if sx then 0 <= x else x <= 0) && (if sy then 0 < y else y < 0)
    requires Abs(x) == Abs(q) * Abs(y) + Abs(r) && Abs(r) < Abs(y)
    requires (if sx == sy then 0 <= q else q <= 0) && (if sx then 0 <= r else r <= 0)
    ensures x == q * y + r
  {
    assert q * y == (if sx then Abs(q) * Abs(y) else -(Abs(q) * Abs(y)));
  }

  /** Lowering the quotient by one raises the remainder by the divisor. */
  lemma OneLess(x: int, y: int, q: int, r: int)
    requires x == q * y + r
    ensures x == (q - 1) * y + (r + y)
  {
    MulDist(y, q, 1);
  }

  /** Signs differ and something is left over: one less, and the divisor added to the remainder. */
  method RoundDown(x: Bignum, y: Bignum, div: Bignum, mod: Bignum) returns (d: Bignum, m: Bignum)
    requires y.Trimmed() && DividesTo(x, y, div, mod) && x.SameBuild(y) && x.sign != y.sign && 0 < mod.Mag()
    ensures d.Valid() && m.Valid() && d.SameBuild(x) && m.SameBuild(x)
    ensures d.Value() == div.Value() - 1 && m.Value() == mod.Value() + y.Value()
  {
    hide Val, Pow;
    OneFits(x.w, x.dpl);
    var one := new Bignum.FromUlong(x.w, x.dpl, 1);
    one.TrimmedDigit();
    d := BigAdd(div, one, false);
    m := BigAdd(mod, y, true);
  }

  /** bigdivmod: floor division; the remainder is zero or has the divisor's sign. */
  method BigDivMod(x: Bignum, y: Bignum) returns (r: DivResult)
    requires x.Trimmed() && y.Trimmed() && x.SameBuild(y)
    ensures r.ZeroDivision? <==> y.Value() == 0
    ensures r.Quotient? ==> r.div.Valid() && r.mod.Valid() && r.div.SameBuild(x) && r.mod.SameBuild(x)
    ensures r.Quotient? ==> x.Value() == r.div.Value() * y.Value() + r.mod.Value()
    ensures r.Quotient? ==> if 0 < y.Value() then 0 <= r.mod.Value() < y.Value() else y.Value() < r.mod.Value() <= 0
  {
    hide Val, Pow;
    r := BigDivRem(x, y);
    if r.ZeroDivision? { return; }
    var div, mod := r.div, r.mod;
    Truncated(x.Value(), y.Value(), div.Value(), mod.Value(), x.sign, y.sign);
    mod.OneDigit();
    mod.NotZero();
    if x.sign != y.sign && !(mod.len == 1 && mod.digits[0] == 0) {
      OneLess(x.Value(), y.Value(), div.Value(), mod.Value());
      var d, m := RoundDown(x, y, div, mod);
      r := Quotient(d, m);
    }
  }

  lemma OneFits(w: nat, dpl: nat)
    requires Build(w, dpl)
    ensures 1 < Pow(2, w * dpl) && 1 < Pow(2, w)
  {
    PowExpLe(2, 1, w);
    PowExpLe(2, 1, w * dpl);
    assert Pow(2, 1) == 2 * Pow(2, 0) == 2;
  }
}
