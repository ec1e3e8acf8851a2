/** Little-endian digit sequences in radix B and the natural number they stand for. */
module Digits {
  import opened Arith

  function Val(B: nat, s: seq<nat>): nat {
    if s == [] then 0 else s[0] + B * Val(B, s[1..])
  }

  predicate AllDigits(B: nat, s: seq<nat>) {
    forall i :: 0 <= i < |s| ==> s[i] < B
  }

  function Lo(B: nat, n: int): (r: nat)
    requires 0 < B
    ensures r < B
    ensures n == Hi(B, n) * B + r
  {
    n % B
  }

  function Hi(B: nat, n: int): (r: int)
    requires 0 < B
  {
    n / B
  }

  /** A double digit splits into two digits. */
  lemma HiIsDigit(B: nat, n: int, m: nat)
    requires 0 < B && 0 <= n < m * B
    ensures 0 <= Hi(B, n) < m
  {
    DivBounds(n, B, 0, m);
  }

  lemma {:induction false} ValConcat(B: nat, s: seq<nat>, t: seq<nat>)
    ensures Val(B, s + t) == Val(B, s) + Pow(B, |s|) * Val(B, t)
  {
    if s == [] {
      assert s + t == t;
    } else {
      assert (s + t)[1..] == s[1..] + t && (s + t)[0] == s[0];
      ValConcat(B, s[1..], t);
      HornerArithmetic(B, s[0], Val(B, s[1..]), Pow(B, |s| - 1), Val(B, t));
    }
  }

  lemma HornerArithmetic(B: int, d: int, v: int, p: int, t: int)
    ensures d + B * (v + p * t) == d + B * v + (B * p) * t
  {
    MulDist(B, v, p * t);
    MulAssoc(B, p, t);
  }

  lemma ValSingle(B: nat, d: nat)
    ensures Val(B, [d]) == d
  {
    assert [d][1..] == [];
    assert Val(B, []) == 0;
  }

  lemma ValSnoc(B: nat, s: seq<nat>, d: nat)
    ensures Val(B, s + [d]) == Val(B, s) + Pow(B, |s|) * d
  {
    ValConcat(B, s, [d]);
    ValSingle(B, d);
  }

  /** Taking one more digit of s. */
  lemma ValTake(B: nat, s: seq<nat>, i: nat)
    requires i < |s|
    ensures Val(B, s[..i + 1]) == Val(B, s[..i]) + Pow(B, i) * s[i]
  {
    assert s[..i + 1] == s[..i] + [s[i]];
    ValSnoc(B, s[..i], s[i]);
  }

  /** The suffix from i, one digit longer than the suffix from i + 1. */
  lemma ValDrop(B: nat, s: seq<nat>, i: nat)
    requires i < |s|
    ensures Val(B, s[i..]) == s[i] + B * Val(B, s[i + 1..])
  {
    assert s[i..][1..] == s[i + 1..];
  }

  lemma ValSplit(B: nat, s: seq<nat>, i: nat)
    requires i <= |s|
    ensures Val(B, s) == Val(B, s[..i]) + Pow(B, i) * Val(B, s[i..])
  {
    assert s == s[..i] + s[i..];
    ValConcat(B, s[..i], s[i..]);
  }

  lemma {:induction false} ValBound(B: nat, s: seq<nat>)
    requires AllDigits(B, s)
    ensures Val(B, s) < Pow(B, |s|)
  {
    if s != [] {
      ValBound(B, s[1..]);
      MulLe(Val(B, s[1..]) + 1, Pow(B, |s| - 1), B);
      MulDist(B, Val(B, s[1..]), 1);
    }
  }

  /** A nonzero top digit fixes the order of magnitude. */
  lemma ValTop(B: nat, s: seq<nat>)
    requires s != [] && s[|s| - 1] != 0
    ensures Pow(B, |s| - 1) <= Val(B, s)
  {
    var n := |s| - 1;
    ValTake(B, s, n);
    assert s[..n + 1] == s;
    MulLe(1, s[n], Pow(B, n));
  }

  lemma {:induction false} ValZeros(B: nat, s: seq<nat>)
    requires forall i :: 0 <= i < |s| ==> s[i] == 0
    ensures Val(B, s) == 0
  {
    if s != [] { ValZeros(B, s[1..]); }
  }

  /** Leading zeros do not change the value. */
  lemma ValPad(B: nat, s: seq<nat>, n: nat)
    requires n <= |s| && forall i :: n <= i < |s| ==> s[i] == 0
    ensures Val(B, s[..n]) == Val(B, s)
  {
    ValSplit(B, s, n);
    ValZeros(B, s[n..]);
  }

  lemma QuotientSmaller(B: nat, n: nat)
    requires 2 <= B <= n
    ensures 0 <= n / B < n
  {
    MulLt(1, B, n);
    DivBounds(n, B, 0, n);
  }

  /** The number of digits of a magnitude; zero takes one. */
  ghost function DigitCount(B: nat, n: nat): nat
    requires 2 <= B
  {
    if n < B then 1 else (QuotientSmaller(B, n); 1 + DigitCount(B, n / B))
  }

  lemma {:induction false} DigitCountOf(B: nat, s: seq<nat>)
    requires 2 <= B && AllDigits(B, s) && s != [] && (|s| == 1 || s[|s| - 1] != 0)
    ensures DigitCount(B, Val(B, s)) == |s|
  {
    if |s| == 1 {
      assert s == [s[0]];
      ValSingle(B, s[0]);
    } else {
      ValTop(B, s);
      PowExpLe(B, 1, |s| - 1);
      assert Pow(B, 1) == B * Pow(B, 0) == B;
      DivModUnique(Val(B, s), B, Val(B, s[1..]), s[0]);
      DigitCountOf(B, s[1..]);
    }
  }

  lemma {:induction false} ValUnique(B: nat, s: seq<nat>, t: seq<nat>)
    requires AllDigits(B, s) && AllDigits(B, t) && |s| == |t|
    requires Val(B, s) == Val(B, t)
    ensures s == t
  {
    if s != [] {
      var a, b := Val(B, s[1..]), Val(B, t[1..]);
      DivModUnique(Val(B, s), B, a, s[0]);
      DivModUnique(Val(B, t), B, b, t[0]);
      ValUnique(B, s[1..], t[1..]);
      assert s == [s[0]] + s[1..] && t == [t[0]] + t[1..];
    }
  }

  /** Of two equally long digit strings the first difference from the top decides. */
  lemma ValCompare(B: nat, s: seq<nat>, t: seq<nat>, i: nat)
    requires AllDigits(B, s) && AllDigits(B, t) && |s| == |t|
    requires i < |s| && s[i + 1..] == t[i + 1..] && s[i] < t[i]
    ensures Val(B, s) < Val(B, t)
  {
    ValSplit(B, s, i + 1);
    ValSplit(B, t, i + 1);
    ValTake(B, s, i);
    ValTake(B, t, i);
    ValBound(B, s[..i]);
    MulLe(s[i] + 1, t[i], Pow(B, i));
    MulDist(Pow(B, i), s[i], 1);
  }

  /** The low digits of total are in zs; what is left over is num, to enter the next column. */
  ghost predicate Carried(B: nat, zs: seq<nat>, num: int, total: int) {
    && AllDigits(B, zs)
    && Val(B, zs) + Pow(B, |zs|) * num == total
  }

  lemma CarryStart(B: nat)
    ensures Val(B, []) == 0 && Carried(B, [], 0, 0)
  {
  }

  lemma CarryDone(B: nat, zs: seq<nat>, total: int)
    requires Carried(B, zs, 0, total)
    ensures AllDigits(B, zs) && Val(B, zs) == total
  {
  }

  lemma ColumnArithmetic(p: int, B: int, v: int, num: int, d: int, lo: int, hi: int)
    requires num + d == hi * B + lo
    ensures (v + p * lo) + (B * p) * hi == (v + p * num) + p * d
  {
    MulDist(p, num, d);
    MulDist(p, hi * B, lo);
    MulAssoc(p, B, hi);
  }

  /** One column of a carry (or borrow) loop: add d, keep the low digit, carry the rest. */
  lemma CarryStep(B: nat, zs: seq<nat>, num: int, total: int, d: int)
    requires 0 < B && Carried(B, zs, num, total)
    ensures Carried(B, zs + [Lo(B, num + d)], Hi(B, num + d), total + Pow(B, |zs|) * d)
  {
    ValSnoc(B, zs, Lo(B, num + d));
    ColumnArithmetic(Pow(B, |zs|), B, Val(B, zs), num, d, Lo(B, num + d), Hi(B, num + d));
  }

  /** A column that carries nothing in and nothing out. */
  lemma CopyStep(B: nat, zs: seq<nat>, total: int, d: nat)
    requires Carried(B, zs, 0, total) && d < B
    ensures Carried(B, zs + [d], 0, total + Pow(B, |zs|) * d)
  {
    ValSnoc(B, zs, d);
  }

  /** The last carry becomes the top digit. */
  lemma CarryEnd(B: nat, zs: seq<nat>, num: nat, total: int)
    requires Carried(B, zs, num, total) && num < B
    ensures Carried(B, zs + [num], 0, total)
  {
    ValSnoc(B, zs, num);
  }

  /** A borrow out of the top column would make the total negative. */
  lemma NoBorrow(B: nat, zs: seq<nat>, num: int, total: int)
    requires 1 <= B && Carried(B, zs, num, total) && num <= 0 <= total
    ensures num == 0
  {
    ValBound(B, zs);
    if num < 0 { MulLe(num, -1, Pow(B, |zs|)); }
  }
}
