/** Long division in one buffer: the running remainder sits below the quotient digits (bigdivrem). */
module BignumDiv {
  import opened Arith
  import opened Digits
  import opened TrialDigit

  // ---------- multiply and subtract ----------

  /** Only positions k .. k + n - 1 of the buffer differ. */
  ghost predicate OutsideSame(before: seq<nat>, after: seq<nat>, k: nat, n: nat) {
    |before| == |after|
    && forall i :: 0 <= i < |before| && !(k <= i < k + n) ==> after[i] == before[i]
  }

  /** A column of z - q * y: t is the product carry, num the borrow, both taken into column i. */
  lemma SubMulColumn(B: nat, z: seq<nat>, y: seq<nat>, q: nat, i: nat, s: seq<nat>, num: int, t: nat)
    requires AllDigits(B, z) && AllDigits(B, y) && i < |z| && i < |y| && |s| == i
    requires 2 <= B && q < B && -1 <= num <= 0 && t < B
    requires Carried(B, s, num - t, Val(B, z[..i]) - q * Val(B, y[..i]))
    ensures var t' := t + y[i] * q;
            var ee := num - Lo(B, t');
            0 <= Hi(B, t') < B && -1 <= Hi(B, z[i] + ee) <= 0
            && Carried(B, s + [Lo(B, z[i] + ee)], Hi(B, z[i] + ee) - Hi(B, t'),
                       Val(B, z[..i + 1]) - q * Val(B, y[..i + 1]))
  {
    hide Carried, Pow, Val, Lo, Hi;
    var prod := y[i] * q;
    var t' := t + prod;
    ColumnDigits(B, z[i], y[i], q, prod, num, t);
    SubMulTotals(B, z, y, q, i, prod);
    CarryStep(B, s, num - t, Val(B, z[..i]) - q * Val(B, y[..i]), z[i] - prod);
  }

  /** The digit and the carries of one column, and what they are together. */
  lemma ColumnDigits(B: nat, z: nat, y: nat, q: nat, prod: nat, num: int, t: nat)
    requires 2 <= B && z < B && y < B && q < B && prod == y * q && -1 <= num <= 0 && t < B
    ensures var t' := t + prod;
            var n := z + (num - Lo(B, t'));
            && 0 <= Hi(B, t') < B && -1 <= Hi(B, n) <= 0
            && Lo(B, num - t + (z - prod)) == Lo(B, n) && Hi(B, num - t + (z - prod)) == Hi(B, n) - Hi(B, t')
  {
    var t' := t + prod;
    var n := z + (num - Lo(B, t'));
    ProductFits(B, t, y, q);
    HiIsDigit(B, t', B);
    DivBounds(n, B, -1, 1);
    SameColumn(B, num - t + (z - prod), n, Hi(B, t'));
  }

  lemma SameColumn(B: nat, c: int, n: int, h: int)
    requires 1 <= B && c == n - h * B
    ensures Lo(B, c) == Lo(B, n) && Hi(B, c) == Hi(B, n) - h
  {
    MulDist(B, Hi(B, n), h);
    DivModUnique(c, B, Hi(B, n) - h, Lo(B, n));
  }

  lemma ProductFits(B: nat, t: nat, y: nat, q: nat)
    requires t < B && y < B && q < B
    ensures t + y * q < B * B
  {
    MulLe(y, B - 1, q);
    MulLe(q, B - 1, B - 1);
    MulDist(B - 1, B, 1);
    MulDist(B, B, 1);
  }

  lemma SubMulTotals(B: nat, z: seq<nat>, y: seq<nat>, q: nat, i: nat, prod: nat)
    requires i < |z| && i < |y| && prod == y[i] * q
    ensures Val(B, z[..i]) - q * Val(B, y[..i]) + Pow(B, i) * (z[i] - prod)
         == Val(B, z[..i + 1]) - q * Val(B, y[..i + 1])
  {
    ValTake(B, z, i);
    ValTake(B, y, i);
    MulDist(Pow(B, i), z[i], prod);
    MulDist(q, Val(B, y[..i]), Pow(B, i) * y[i]);
    MulAssoc(q, Pow(B, i), y[i]);
    MulAssoc(Pow(B, i), y[i], q);
  }

  /** Subtract q * ys from the n digits of zs at k; what is left over goes to the digit above, unwritten. */
  method SubMul(B: nat, zs: array<nat>, k: nat, ys: array<nat>, n: nat, q: nat) returns (num: int)
    requires 2 <= B && q < B && zs != ys && k + n < zs.Length && n <= ys.Length
    requires AllDigits(B, zs[..]) && AllDigits(B, ys[..n])
    modifies zs
    ensures AllDigits(B, zs[..]) && OutsideSame(old(zs[..]), zs[..], k, n)
    ensures Carried(B, zs[k..k + n], num - zs[k + n], Val(B, old(zs[k..k + n])) - q * Val(B, ys[..n]))
  {
    hide Carried, Pow, Val;
    ghost var before, y := zs[..], ys[..n];
    ghost var z := before[k..k + n];
    var i, t2: int := 0, 0;
    num := 0;
    CarryStart(B);
    assert zs[k..k] == [] && z[..0] == [] && y[..0] == [];
    while i < n
      invariant 0 <= i <= n && -1 <= num <= 0 && 0 <= t2 < B && AllDigits(B, zs[..])
      invariant OutsideSame(before, zs[..], k, i)
      invariant Carried(B, zs[k..k + i], num - t2, Val(B, z[..i]) - q * Val(B, y[..i]))
    {
      ghost var s := zs[k..k + i];
      assert z[i] == zs[k + i];
      SubMulColumn(B, z, y, q, i, s, num, t2);
      num, t2 := SubMulDigit(B, zs, k + i, ys[i], q, num, t2);
      i := i + 1;
      assert zs[k..k + i] == s + [zs[k + i - 1]];
    }
    assert z[..n] == z && y[..n] == y;
    num := num + (zs[k + n] as int - t2);
  }

  /** One digit of SubMul; an idle column keeps its digit. */
  method SubMulDigit(B: nat, zs: array<nat>, k: nat, y: nat, q: nat, num0: int, t0: int) returns (num: int, t2: int)
    requires 2 <= B && k < zs.Length && zs[k] < B
    modifies zs
    ensures t2 == Hi(B, t0 + y * q)
    ensures var ee := num0 - Lo(B, t0 + y * q);
            num == Hi(B, old(zs[k]) + ee) && zs[k] == Lo(B, old(zs[k]) + ee)
    ensures forall i :: 0 <= i < zs.Length && i != k ==> zs[i] == old(zs[i])
  {
    t2 := t0 + y * q;
    var ee := num0 - Lo(B, t2);
    num := zs[k] + ee;
    if ee != 0 { zs[k] := Lo(B, num); } else { DivModUnique(num, B, 0, num); }
    num := Hi(B, num);
    t2 := Hi(B, t2);
  }

  // ---------- add back ----------

  lemma AddBackColumn(B: nat, z: seq<nat>, y: seq<nat>, i: nat, s: seq<nat>, num: int)
    requires AllDigits(B, z) && AllDigits(B, y) && i < |z| && i < |y| && |s| == i
    requires 0 <= num <= 1 && 2 <= B
    requires Carried(B, s, num, Val(B, z[..i]) + Val(B, y[..i]))
    ensures var t := z[i] + (num + y[i]);
            0 <= Hi(B, t) <= 1
            && Carried(B, s + [Lo(B, t)], Hi(B, t), Val(B, z[..i + 1]) + Val(B, y[..i + 1]))
  {
    CarryStep(B, s, num, Val(B, z[..i]) + Val(B, y[..i]), z[i] + y[i]);
    ValTake(B, z, i);
    ValTake(B, y, i);
    MulDist(Pow(B, i), z[i], y[i]);
    HiIsDigit(B, num + z[i] + y[i], 2);
  }

  /** Add ys to the n digits of zs at k; num is the carry out, less the borrow it pays back. */
  method AddBack(B: nat, zs: array<nat>, k: nat, ys: array<nat>, n: nat) returns (num: int)
    requires 2 <= B && zs != ys && k + n < zs.Length && n <= ys.Length
    requires AllDigits(B, zs[..]) && AllDigits(B, ys[..n])
    modifies zs
    ensures AllDigits(B, zs[..]) && OutsideSame(old(zs[..]), zs[..], k, n) && -1 <= num <= 0
    ensures Carried(B, zs[k..k + n], num + 1, Val(B, old(zs[k..k + n])) + Val(B, ys[..n]))
  {
    hide Carried, Pow, Val;
    ghost var before, y := zs[..], ys[..n];
    ghost var z := before[k..k + n];
    var i := 0;
    num := 0;
    CarryStart(B);
    assert zs[k..k] == [] && z[..0] == [] && y[..0] == [];
    while i < n
      invariant 0 <= i <= n && 0 <= num <= 1 && AllDigits(B, zs[..])
      invariant OutsideSame(before, zs[..], k, i)
      invariant Carried(B, zs[k..k + i], num, Val(B, z[..i]) + Val(B, y[..i]))
    {
      ghost var s := zs[k..k + i];
      assert z[i] == zs[k + i];
      AddBackColumn(B, z, y, i, s, num);
      var ee := num + ys[i];
      num := zs[k + i] + ee;
      if ee != 0 { zs[k + i] := Lo(B, num); } else { DivModUnique(num, B, 0, num); }
      num := Hi(B, num);
      i := i + 1;
      assert zs[k..k + i] == s + [zs[k + i - 1]];
    }
    assert z[..n] == z && y[..n] == y;
    num := num - 1;
  }

  // ---------- one quotient digit ----------

  /** The window of ny + 1 digits and the divisor, as the trial digit sees them. */
  lemma WindowOf(B: nat, z: seq<nat>, y: seq<nat>)
    requires 2 <= B && AllDigits(B, z) && AllDigits(B, y) && |z| == |y| + 1 && 1 <= |y| && y[|y| - 1] != 0
    requires Val(B, z) < B * Val(B, y)
    ensures var n := |y|;
            Window(B, Pow(B, n - 1), Val(B, y), y[n - 1], Val(B, z), z[n], z[n - 1])
    ensures Val(B, z) == Val(B, z[..|y|]) + Pow(B, |y|) * z[|y|]
  {
    hide Val;
    var n := |y|;
    var p := Pow(B, n - 1);
    assert y[..n] == y && z[..n + 1] == z;
    ValTake(B, y, n - 1);
    ValTake(B, z, n);
    ValTake(B, z, n - 1);
    ValBound(B, y[..n - 1]);
    ValBound(B, z[..n - 1]);
    assert Pow(B, n) == B * p;
    PowPositive(B, n - 1);
    hide *;
    WindowArithmetic(B, p, Val(B, y[..n - 1]), y[n - 1], Val(B, z[..n - 1]), z[n - 1], z[n],
                     Val(B, y), Val(B, z));
  }

  lemma WindowArithmetic(B: nat, p: nat, yl: nat, t: nat, zl: nat, b: nat, a: nat, y: nat, z: nat)
    requires 2 <= B && 1 <= t < B && b < B && 1 <= p && yl < p && zl < p
    requires y == yl + p * t && z == (zl + p * b) + (B * p) * a && z < B * y
    ensures Window(B, p, y, t, z, a, b)
  {
    MulLe(1, t, p);
    assert (t + 1) * p == t * p + p;
    assert (a * B + b) * p == (B * p) * a + p * b by {
      MulDist(p, a * B, b);
      MulAssoc(p, a, B);
      MulAssoc(B, p, a);
    }
    assert (a * B + b + 1) * p == (a * B + b) * p + p by { MulDist(p, a * B + b, 1); }
  }

  /** The window minus q times the divisor, once its low digits are rewritten: the last borrow. */
  lemma Residue(B: nat, s: seq<nat>, num: int, a: nat, low: int, r: int, v: int)
    requires Carried(B, s, num - a, low - r) && v == low + Pow(B, |s|) * a
    ensures Carried(B, s, num, v - r)
  {
    MulDist(Pow(B, |s|), num, a);
  }

  lemma BorrowIsOne(B: nat, s: seq<nat>, num: int, r: int)
    requires 1 <= B && Carried(B, s, num, r) && -(Pow(B, |s|) as int) < r < Pow(B, |s|)
    ensures -1 <= num <= 0
  {
    var p := Pow(B, |s|);
    ValBound(B, s);
    if num < -1 { MulLe(num, -2, p); }
    if 0 < num { MulLe(1, num, p); }
  }

  /** A borrow means the residue is negative, no borrow that it is the low digits themselves. */
  lemma BorrowSign(B: nat, s: seq<nat>, num: int, r: int)
    requires 1 <= B && Carried(B, s, num, r)
    ensures num == -1 ==> r < 0
    ensures num == 0 ==> r == Val(B, s)
  {
    ValBound(B, s);
  }

  lemma Repaid(B: nat, s: seq<nat>, t: seq<nat>, num: int, r: int, y: nat)
    requires |s| == |t| && Carried(B, s, -1, r) && Carried(B, t, num + 1, Val(B, s) + y)
    ensures Carried(B, t, num, r + y)
  {
    MulDist(Pow(B, |t|), num, 1);
  }

  /** r is what is left of v after q times y; d is the true digit. */
  ghost predicate Left(q: nat, y: nat, v: nat, d: nat, r: int) {
    r == v - q * y && r < y && d * y <= v
  }

  /** A negative residue: q is above the true digit d, and one less of it is still not below. */
  lemma OneLess(q: nat, y: nat, v: nat, d: nat, r: int)
    requires Left(q, y, v, d, r) && r < 0
    ensures d + 1 <= q && Left(q - 1, y, v, d, r + y)
  {
    if q <= d { MulLe(q, d, y); }
    MulDist(y, q, 1);
  }

  lemma Overshoots(q: nat, y: nat, v: nat, d: nat, r: int)
    requires Left(q, y, v, d, r) && r < 0
    ensures d + 1 <= q
  {
    OneLess(q, y, v, d, r);
  }

  /** The loop that adds the divisor back while a borrow is left. At most two rounds are needed. */
  method CorrectDigit(B: nat, zs: array<nat>, k: nat, ys: array<nat>, n: nat, q0: nat, num0: int,
                      ghost v: nat, ghost d: nat, ghost r0: int)
    returns (q: nat)
    requires 2 <= B && q0 < B && zs != ys && k + n < zs.Length && n <= ys.Length
    requires AllDigits(B, zs[..]) && AllDigits(B, ys[..n]) && -1 <= num0 <= 0
    requires Carried(B, zs[k..k + n], num0, r0) && Left(q0, Val(B, ys[..n]), v, d, r0) && q0 <= d + 2
    modifies zs
    ensures AllDigits(B, zs[..]) && OutsideSame(old(zs[..]), zs[..], k, n) && q <= q0 <= q + 2
    ensures Left(q, Val(B, ys[..n]), v, d, Val(B, zs[k..k + n]))
  {
    hide Carried, Pow, Val, Left;
    ghost var y, before, rounds: nat, r := Val(B, ys[..n]), zs[..], 0, r0;
    var num := num0;
    q := q0;
    while num != 0
      invariant -1 <= num <= 0 && q <= q0 && AllDigits(B, zs[..]) && ys[..n] == old(ys[..n])
      invariant OutsideSame(before, zs[..], k, n)
      invariant Carried(B, zs[k..k + n], num, r) && Left(q, y, v, d, r)
      invariant rounds == q0 - q && rounds <= 2 && (num != 0 ==> rounds < 2)
      decreases q
    {
      ghost var s := zs[k..k + n];
      BorrowSign(B, s, num, r);
      OneLess(q, y, v, d, r);
      q := q - 1;
      num := AddBack(B, zs, k, ys, n);
      Repaid(B, s, zs[k..k + n], num, r, y);
      r := r + y;
      BorrowSign(B, zs[k..k + n], num, r);
      if num != 0 { Overshoots(q, y, v, d, r); }
      rounds := rounds + 1;
    }
    BorrowSign(B, zs[k..k + n], 0, r);
  }

  /** A window smaller than the divisor: its top digit is zero, and so is the quotient digit. */
  lemma ZeroDigit(B: nat, z: seq<nat>, y: nat)
    requires 1 <= B && z != [] && y < Pow(B, |z| - 1) && Val(B, z) < y
    ensures z[|z| - 1] == 0 && Val(B, z[..|z| - 1]) == Val(B, z)
  {
    var n := |z| - 1;
    assert z[..n + 1] == z;
    ValTake(B, z, n);
    if z[n] != 0 { MulLe(1, z[n], Pow(B, n)); }
    assert Pow(B, n) * 0 == 0;
  }

  /** The residue left by the trial digit is small enough for a single borrow. */
  lemma TrialResidue(B: nat, z: seq<nat>, y: seq<nat>, s: seq<nat>, num: int, q: nat)
    requires 2 <= B && AllDigits(B, z) && AllDigits(B, y) && |z| == |y| + 1 && 1 <= |y| && y[|y| - 1] != 0
    requires Val(B, z) < B * Val(B, y) && q == Trial(B, z[|y|], z[|y| - 1], y[|y| - 1])
    requires |s| == |y| && Carried(B, s, num - z[|y|], Val(B, z[..|y|]) - q * Val(B, y))
    ensures Carried(B, s, num, Val(B, z) - q * Val(B, y)) && -1 <= num <= 0
    ensures Val(B, z) - q * Val(B, y) < Val(B, y)
  {
    hide Carried, Pow, Val, Window, Trial;
    var n := |y|;
    var p, w, v := Pow(B, n - 1), Val(B, y), Val(B, z);
    WindowOf(B, z, y);
    TrialBounds(B, p, w, y[n - 1], v, z[n], z[n - 1], q);
    Residue(B, s, num, z[n], Val(B, z[..n]), q * w, v);
    ValBound(B, y);
    assert Pow(B, n) == B * p by { PowStep(B, n); }
    BorrowIsOne(B, s, num, v - q * w);
  }

  lemma TrialBounds(B: nat, p: nat, w: nat, t: nat, v: nat, a: nat, b: nat, q: nat)
    requires Window(B, p, w, t, v, a, b) && q == Trial(B, a, b, t)
    ensures -(B * p) < v - q * w < w
  {
    TrialNotBelow(B, p, w, t, v, a, b);
    TrialProduct(B, p, w, t, v, a, b);
    hide Window, Trial;
    MulDist(w, q, 1);
  }

  lemma PowStep(B: nat, n: nat)
    requires 1 <= n
    ensures Pow(B, n) == B * Pow(B, n - 1)
  {
  }

  /** The true quotient digit of a window. */
  lemma TrueDigit(v: nat, y: nat) returns (d: nat)
    requires 1 <= y
    ensures d * y <= v < (d + 1) * y
  {
    d := v / y;
    DivModSpec(v, y);
    MulDist(y, d, 1);
  }

  /** Multiply, subtract and correct: the trial digit q becomes the true one, the window its remainder. */
  method ReduceWindow(B: nat, zs: array<nat>, j: nat, ys: array<nat>, ny: nat, q0: nat) returns (q: nat)
    requires 2 <= B && zs != ys && 1 <= ny <= ys.Length && ny <= j < zs.Length
    requires AllDigits(B, zs[..]) && AllDigits(B, ys[..ny]) && B <= 2 * ys[ny - 1]
    requires Val(B, zs[j - ny..j + 1]) < B * Val(B, ys[..ny])
    requires q0 < B && 0 < ys[ny - 1] && q0 == Trial(B, zs[j], zs[j - 1], ys[ny - 1])
    modifies zs
    ensures AllDigits(B, zs[..]) && OutsideSame(old(zs[..]), zs[..], j - ny, ny) && q < B && q <= q0 <= q + 2
    ensures q * Val(B, ys[..ny]) + Val(B, zs[j - ny..j]) == Val(B, old(zs[j - ny..j + 1]))
    ensures Val(B, zs[j - ny..j]) < Val(B, ys[..ny])
  {
    hide Carried, Pow, Val, Left, Trial, Window;
    ghost var z, y := zs[j - ny..j + 1], ys[..ny];
    assert z[ny] == zs[j] && z[ny - 1] == zs[j - 1] && y[ny - 1] == ys[ny - 1];
    assert z[..ny] == zs[j - ny..j];
    ghost var d := TrueWindowDigit(B, z, y, q0);
    var num := SubMul(B, zs, j - ny, ys, ny, q0);
    TrialResidue(B, z, y, zs[j - ny..j], num, q0);
    StartLeft(q0, Val(B, y), Val(B, z), d);
    q := CorrectDigit(B, zs, j - ny, ys, ny, q0, num, Val(B, z), d, Val(B, z) - q0 * Val(B, y));
    LeftIsRemainder(q, Val(B, y), Val(B, z), d, Val(B, zs[j - ny..j]));
  }

  lemma TrueWindowDigit(B: nat, z: seq<nat>, y: seq<nat>, q: nat) returns (d: nat)
    requires 2 <= B && AllDigits(B, z) && AllDigits(B, y) && |z| == |y| + 1 && 1 <= |y|
    requires Val(B, z) < B * Val(B, y) && B <= 2 * y[|y| - 1]
    requires q == Trial(B, z[|y|], z[|y| - 1], y[|y| - 1])
    ensures d * Val(B, y) <= Val(B, z) && q <= d + 2
  {
    hide Pow, Val, Trial;
    var n := |y|;
    WindowOf(B, z, y);
    d := TrueDigit(Val(B, z), Val(B, y));
    TrialAtMostTwoAbove(B, Pow(B, n - 1), Val(B, y), y[n - 1], Val(B, z), z[n], z[n - 1], d);
  }

  lemma StartLeft(q: nat, y: nat, v: nat, d: nat)
    requires v - q * y < y && d * y <= v
    ensures Left(q, y, v, d, v - q * y)
  {
  }

  lemma LeftIsRemainder(q: nat, y: nat, v: nat, d: nat, r: nat)
    requires Left(q, y, v, d, r)
    ensures q * y + r == v && r < y
  {
  }

  /** One pass of the main loop: the window at j becomes its quotient digit over its remainder. */
  method DivStep(B: nat, zs: array<nat>, j: nat, ys: array<nat>, ny: nat)
    requires 2 <= B && zs != ys && 1 <= ny <= ys.Length && ny <= j < zs.Length
    requires AllDigits(B, zs[..]) && AllDigits(B, ys[..ny]) && B <= 2 * ys[ny - 1]
    requires Val(B, zs[j - ny..j + 1]) < B * Val(B, ys[..ny])
    modifies zs
    ensures AllDigits(B, zs[..]) && OutsideSame(old(zs[..]), zs[..], j - ny, ny + 1)
    ensures zs[j] * Val(B, ys[..ny]) + Val(B, zs[j - ny..j]) == Val(B, old(zs[j - ny..j + 1]))
    ensures Val(B, zs[j - ny..j]) < Val(B, ys[..ny])
  {
    hide Carried, Pow, Val, Trial;
    ghost var z, y := zs[j - ny..j + 1], ys[..ny];
    var q := Trial(B, zs[j], zs[j - 1], ys[ny - 1]);
    TrialFits(B, z, y);
    if q != 0 {
      q := ReduceWindow(B, zs, j, ys, ny, q);
    } else {
      NoDigit(B, z, y);
      assert zs[j - ny..j] == z[..ny];
    }
    ghost var low := zs[j - ny..j];
    zs[j] := q;
    assert zs[j - ny..j] == low;
  }

  lemma TrialFits(B: nat, z: seq<nat>, y: seq<nat>)
    requires 2 <= B && AllDigits(B, z) && AllDigits(B, y) && |z| == |y| + 1 && 1 <= |y| && y[|y| - 1] != 0
    requires Val(B, z) < B * Val(B, y)
    ensures Trial(B, z[|y|], z[|y| - 1], y[|y| - 1]) < B
  {
    hide Pow, Val, Trial;
    WindowOf(B, z, y);
    TrialIsDigit(B, Pow(B, |y| - 1), Val(B, y), y[|y| - 1], Val(B, z), z[|y|], z[|y| - 1]);
  }

  /** A trial digit of zero leaves the window as it is. */
  lemma NoDigit(B: nat, z: seq<nat>, y: seq<nat>)
    requires 2 <= B && AllDigits(B, z) && AllDigits(B, y) && |z| == |y| + 1 && 1 <= |y| && y[|y| - 1] != 0
    requires Val(B, z) < B * Val(B, y) && Trial(B, z[|y|], z[|y| - 1], y[|y| - 1]) == 0
    ensures Val(B, z[..|y|]) == Val(B, z) < Val(B, y)
  {
    hide Val, Trial, Pow;
    WindowOf(B, z, y);
    TrialNotBelow(B, Pow(B, |y| - 1), Val(B, y), y[|y| - 1], Val(B, z), z[|y|], z[|y| - 1]);
    ValBound(B, y);
    ZeroDigit(B, z, Val(B, y));
  }

  // ---------- the whole loop ----------

  /** Positions from j up hold quotient digits, the rest the remainder still to be divided. */
  ghost predicate Divided(B: nat, zs: seq<nat>, j: nat, ny: nat, y: nat, x: nat) {
    && ny <= j <= |zs|
    && x == Pow(B, j - ny) * (Val(B, zs[j..]) * y) + Val(B, zs[..j])
    && Val(B, zs[j - ny..j]) < y
  }

  lemma DividedStart(B: nat, zs: seq<nat>, ny: nat, ys: seq<nat>)
    requires 2 <= B && AllDigits(B, zs) && AllDigits(B, ys) && 1 <= ny == |ys| <= |zs|
    requires zs[|zs| - 1] < ys[ny - 1]
    ensures Divided(B, zs, |zs|, ny, Val(B, ys), Val(B, zs))
  {
    var n := |zs|;
    assert zs[n..] == [] && zs[..n] == zs;
    var w := zs[n - ny..n];
    assert w[ny..] == [] && ys[ny..] == [];
    assert w[ny - 1] == zs[n - 1];
    ValCompare(B, w, ys, ny - 1);
    assert Pow(B, n - ny) * (0 * Val(B, ys)) == 0;
  }

  /** The next window starts below B times the divisor. */
  lemma NextWindow(B: nat, zs: seq<nat>, j: nat, ny: nat, y: nat)
    requires 1 <= B && AllDigits(B, zs) && ny <= j < |zs| && Val(B, zs[j + 1 - ny..j + 1]) < y
    ensures Val(B, zs[j - ny..j + 1]) < B * y
  {
    var w := zs[j - ny..j + 1];
    assert w[1..] == zs[j + 1 - ny..j + 1] && w[0] == zs[j - ny];
    MulLe(Val(B, w[1..]) + 1, y, B);
    MulDist(B, Val(B, w[1..]), 1);
  }

  lemma DividedStep(B: nat, before: seq<nat>, after: seq<nat>, j: nat, ny: nat, y: nat, x: nat)
    requires ny <= j < |before| && Divided(B, before, j + 1, ny, y, x)
    requires OutsideSame(before, after, j - ny, ny + 1)
    requires after[j] * y + Val(B, after[j - ny..j]) == Val(B, before[j - ny..j + 1])
    requires Val(B, after[j - ny..j]) < y
    ensures Divided(B, after, j, ny, y, x)
  {
    var k := j - ny;
    var p, q, r := Pow(B, k), after[j], Val(B, after[k..j]);
    assert Val(B, before[..j + 1]) == Val(B, before[..k]) + p * Val(B, before[k..j + 1]) by {
      SplitTake(B, before, k, j + 1);
    }
    assert Val(B, after[..j]) == Val(B, before[..k]) + p * r by {
      SplitTake(B, after, k, j);
      assert after[..k] == before[..k];
    }
    assert Val(B, after[j..]) == q + B * Val(B, before[j + 1..]) by {
      ValDrop(B, after, j);
      assert after[j + 1..] == before[j + 1..];
    }
    assert Pow(B, k + 1) == B * p;
    QuotientArithmetic(B, p, q, Val(B, before[j + 1..]), y, Val(B, before[..k]), r);
  }

  lemma SplitTake(B: nat, s: seq<nat>, k: nat, j: nat)
    requires k <= j <= |s|
    ensures Val(B, s[..j]) == Val(B, s[..k]) + Pow(B, k) * Val(B, s[k..j])
  {
    ValSplit(B, s[..j], k);
    assert s[..j][..k] == s[..k] && s[..j][k..] == s[k..j];
  }

  lemma QuotientArithmetic(B: int, p: int, q: int, h: int, y: int, low: int, r: int)
    ensures (B * p) * (h * y) + (low + p * (q * y + r)) == p * ((q + B * h) * y) + (low + p * r)
  {
    MulDist(p, q * y, r);
    assert (q + B * h) * y == q * y + (B * h) * y by { MulDist(y, q, B * h); }
    MulDist(p, q * y, (B * h) * y);
    assert p * ((B * h) * y) == (B * p) * (h * y) by {
      MulAssoc(B, h, y);
      MulAssoc(p, B, h * y);
    }
  }

  /** The main loop, from the top digit down to position ny. */
  method DivLoop(B: nat, zs: array<nat>, ys: array<nat>, ny: nat)
    requires 2 <= B && zs != ys && 1 <= ny <= ys.Length && ny < zs.Length
    requires AllDigits(B, zs[..]) && AllDigits(B, ys[..ny]) && B <= 2 * ys[ny - 1]
    requires zs[zs.Length - 1] < ys[ny - 1]
    modifies zs
    ensures AllDigits(B, zs[..])
    ensures old(Val(B, zs[..])) == Val(B, zs[ny..]) * Val(B, ys[..ny]) + Val(B, zs[..ny])
    ensures Val(B, zs[..ny]) < Val(B, ys[..ny])
  {
    hide Pow, Val, Divided;
    ghost var x, y := Val(B, zs[..]), Val(B, ys[..ny]);
    DividedStart(B, zs[..], ny, ys[..ny]);
    var j := zs.Length;
    while j > ny
      invariant ny <= j <= zs.Length && AllDigits(B, zs[..]) && ys[..ny] == old(ys[..ny])
      invariant Divided(B, zs[..], j, ny, y, x)
    {
      ghost var before := zs[..];
      j := j - 1;
      DividedWindow(B, before, j, ny, y, x);
      assert zs[j - ny..j + 1] == before[j - ny..j + 1];
      DivStep(B, zs, j, ys, ny);
      assert zs[j - ny..j] == zs[..][j - ny..j];
      DividedStep(B, before, zs[..], j, ny, y, x);
    }
    DividedEnd(B, zs[..], ny, y, x);
    assert zs[..][ny..] == zs[ny..] && zs[..][..ny] == zs[..ny];
  }

  lemma DividedWindow(B: nat, zs: seq<nat>, j: nat, ny: nat, y: nat, x: nat)
    requires 1 <= B && AllDigits(B, zs) && ny <= j < |zs| && Divided(B, zs, j + 1, ny, y, x)
    ensures Val(B, zs[j - ny..j + 1]) < B * y
  {
    NextWindow(B, zs, j, ny, y);
  }

  lemma DividedEnd(B: nat, zs: seq<nat>, ny: nat, y: nat, x: nat)
    requires Divided(B, zs, ny, ny, y, x)
    ensures x == Val(B, zs[ny..]) * y + Val(B, zs[..ny]) && Val(B, zs[..ny]) < y
  {
    assert zs[0..ny] == zs[..ny];
  }
}
