/** Numerals in a base, their length, and the characters that spell them. */
module Numerals {
  import opened Arith

  // ---------- the digits of a number ----------

  /** Digits of v, most significant first; none for zero. */
  ghost function Num(base: nat, v: nat): seq<nat>
    requires 2 <= base
    decreases v
  {
    if v == 0 then [] else (Shrinks(base, v); Num(base, v / base) + [v % base])
  }

  lemma Shrinks(base: nat, v: nat)
    requires 2 <= base && 0 < v
    ensures 0 <= v / base < v
  {
    MulLt(1, base, v);
    DivBounds(v, base, 0, v);
  }

  /** No leading zeros. */
  lemma {:induction false} NumTop(base: nat, v: nat)
    requires 2 <= base && 0 < v
    ensures Num(base, v) != [] && 0 < Num(base, v)[0]
    ensures forall i :: 0 <= i < |Num(base, v)| ==> Num(base, v)[i] < base
    decreases v
  {
    Shrinks(base, v);
    DivModSpec(v, base);
    if v / base != 0 { NumTop(base, v / base); }
  }

  lemma {:induction false} NumLength(base: nat, v: nat)
    requires 2 <= base && 0 < v
    ensures 1 <= |Num(base, v)| && Pow(base, |Num(base, v)| - 1) <= v
    decreases v
  {
    Shrinks(base, v);
    DivModSpec(v, base);
    if v / base != 0 {
      NumLength(base, v / base);
      MulLe(Pow(base, |Num(base, v)| - 2), v / base, base);
    }
  }

  /** One digit more read behind acc. */
  function Push(base: nat, acc: nat, d: nat): nat {
    acc * base + d
  }

  /** Reading a numeral digit by digit from acc, as the parser accumulates it. */
  ghost function Horner(base: nat, s: seq<nat>, acc: nat): nat {
    if s == [] then acc else Horner(base, s[1..], Push(base, acc, s[0]))
  }

  lemma {:induction false} HornerSnoc(base: nat, s: seq<nat>, d: nat, acc: nat)
    ensures Horner(base, s + [d], acc) == Push(base, Horner(base, s, acc), d)
  {
    hide Push;
    if s == [] {
      assert (s + [d])[1..] == [];
    } else {
      assert (s + [d])[1..] == s[1..] + [d];
      HornerSnoc(base, s[1..], d, Push(base, acc, s[0]));
    }
  }

  lemma {:induction false} HornerNum(base: nat, v: nat)
    requires 2 <= base
    ensures Horner(base, Num(base, v), 0) == v
    decreases v
  {
    if v != 0 {
      Shrinks(base, v);
      DivModSpec(v, base);
      HornerNum(base, v / base);
      HornerSnoc(base, Num(base, v / base), v % base, 0);
    }
  }

  // ---------- how many digits a number of so many bits can have ----------

  /** Digits of a number of n bits, when p digits of the base carry q bits. */
  lemma DigitsFit(base: nat, p: nat, q: nat, n: nat, v: nat)
    requires 2 <= base && 1 <= p && 1 <= q && Pow(2, q) <= Pow(base, p) && 0 < v < Pow(2, n)
    ensures |Num(base, v)| - 1 <= n * p / q
  {
    hide Pow, Num;
    var m := |Num(base, v)| - 1;
    NumLength(base, v);
    assert Pow(2, q * m) < Pow(2, n * p) by {
      PowOfPow(2, q, m);
      PowBaseLe(Pow(2, q), Pow(base, p), m);
      PowOfPow(base, p, m);
      PowOfPow(base, m, p);
      PowBaseLt(Pow(base, m), Pow(2, n), p);
      PowOfPow(2, n, p);
      assert p * m == m * p;
    }
    PowOrder(2, q * m, n * p);
    AtMostQuotient(m, n * p, q);
  }

  lemma AtMostQuotient(m: nat, x: nat, q: nat)
    requires 1 <= q && q * m <= x
    ensures m <= x / q
  {
    DivModSpec(x, q);
    assert (x / q + 1) * q == x / q * q + q by { MulDist(q, x / q, 1); }
    if x / q < m { MulLe(x / q + 1, m, q); }
  }

  lemma Cancel(x: nat, z: nat, u: nat, y: nat, c: nat)
    requires x * z <= u * y && u <= c * z && 1 <= z
    ensures x <= c * y
  {
    MulLe(u, c * z, y);
    assert (c * z) * y == (c * y) * z by {
      MulAssoc(c, z, y);
      MulAssoc(c, y, z);
    }
    if c * y < x { MulLt(c * y, x, z); }
  }

  lemma PowersOfScaled(a: nat, b: nat, s: nat, t: nat, e: nat, left: nat, right: nat)
    requires left == a * s && right == t * b && left <= right
    ensures Pow(a, e) * Pow(s, e) <= Pow(t, e) * Pow(b, e)
  {
    hide Pow;
    PowOfProduct(a, s, e);
    PowOfProduct(t, b, e);
    PowBaseLe(left, right, e);
  }

  /** Scaling two inequalities up and cancelling: the way to compare powers too long to write out. */
  lemma ScaledPowers(a: nat, b: nat, s: nat, t: nat, e: nat, c: nat)
    requires a * s <= t * b && Pow(t, e) <= c * Pow(s, e) && 1 <= s
    ensures Pow(a, e) <= c * Pow(b, e)
  {
    hide Pow;
    PowersOfScaled(a, b, s, t, e, a * s, t * b);
    PowPositive(s, e);
    Cancel(Pow(a, e), Pow(s, e), Pow(t, e), Pow(b, e), c);
  }

  /** 2^800 <= 10^241; the exponents are parameters so that nobody multiplies them out. */
  lemma TenVersusTwo(p: nat, q: nat)
    requires p == 241 && q == 800
    ensures Pow(2, q) <= Pow(10, p)
  {
    hide Pow;
    var pe, qe := (p - 1) / 5, q / 5;
    TenRoots(pe, qe, qe / 32);
    ScaledPowers(Pow(2, qe), Pow(10, pe), 10000, 14616, qe / 32, 10);
    PowOfPow(2, qe, qe / 32);
    PowOfPow(10, pe, qe / 32);
    PowAdd(10, 1, p - 1);
  }

  lemma TenRoots(pe: nat, qe: nat, e: nat)
    requires pe == 48 && qe == 160 && e == 5
    ensures Pow(2, qe) * 10000 <= 14616 * Pow(10, pe)
    ensures Pow(14616, e) <= 10 * Pow(10000, e) && Pow(10, 1) == 10
  {
    TwoTo160(qe);
    TenTo48(pe);
    assert Pow(14616, 5) <= 10 * Pow(10000, 5);
  }

  lemma TwoTo160(e: nat)
    requires e == 160
    ensures Pow(2, e) == 1461501637330902918203684832716283019655932542976
  {
    assert Pow(2, 5) == 32;
    Double(2, e / 32, e / 16, 32);
    Double(2, e / 16, e / 8, 1024);
    Double(2, e / 8, e / 4, 1048576);
    Double(2, e / 4, e / 2, 1099511627776);
    Double(2, e / 2, e, 1208925819614629174706176);
  }

  lemma TenTo48(e: nat)
    requires e == 48
    ensures Pow(10, e) == 1000000000000000000000000000000000000000000000000
  {
    assert Pow(10, 3) == 1000;
    Double(10, e / 16, e / 8, 1000);
    Double(10, e / 8, e / 4, 1000000);
    Double(10, e / 4, e / 2, 1000000000000);
    Double(10, e / 2, e, 1000000000000000000000000);
  }

  /** 2^1024 <= 3^647. */
  lemma ThreeVersusTwo(p: nat, q: nat)
    requires p == 647 && q == 1024
    ensures Pow(2, q) <= Pow(3, p)
  {
    hide Pow;
    var pe, qe := (p - 7) / 4, q / 4;
    ThreeRoots(pe, qe, qe / 64);
    ScaledPowers(Pow(2, qe), Pow(3, pe), 10000, 53100, qe / 64, 2187);
    PowOfPow(2, qe, qe / 64);
    PowOfPow(3, pe, qe / 64);
    PowAdd(3, 7, p - 7);
  }

  lemma ThreeRoots(pe: nat, qe: nat, e: nat)
    requires pe == 160 && qe == 256 && e == 4
    ensures Pow(2, qe) * 10000 <= 53100 * Pow(3, pe)
    ensures Pow(53100, e) <= 2187 * Pow(10000, e) && Pow(3, 7) == 2187
  {
    TwoTo256(qe);
    ThreeTo160(pe);
    assert Pow(53100, 4) <= 2187 * Pow(10000, 4);
  }

  lemma TwoTo256(e: nat)
    requires e == 256
    ensures Pow(2, e) == 115792089237316195423570985008687907853269984665640564039457584007913129639936
  {
    assert Pow(2, 8) == 256;
    Double(2, e / 32, e / 16, 256);
    Double(2, e / 16, e / 8, 65536);
    Double(2, e / 8, e / 4, 4294967296);
    Double(2, e / 4, e / 2, 18446744073709551616);
    Double(2, e / 2, e, 340282366920938463463374607431768211456);
  }

  lemma ThreeTo160(e: nat)
    requires e == 160
    ensures Pow(3, e) == 21847450052839212624230656502990235142567050104912751880812823948662932355201
  {
    assert Pow(3, 5) == 243;
    Double(3, e / 32, e / 16, 243);
    Double(3, e / 16, e / 8, 59049);
    Double(3, e / 8, e / 4, 3486784401);
    Double(3, e / 4, e / 2, 12157665459056928801);
    Double(3, e / 2, e, 147808829414345923316083210206383297601);
  }

  lemma Double(b: nat, n: nat, m: nat, v: nat)
    requires m == n + n && Pow(b, n) == v
    ensures Pow(b, m) == v * v
  {
    PowAdd(b, n, n);
  }

  /** rb_big2str's estimate: so many digits, and one more, for a magnitude of n bits. */
  function Estimate(base: nat, n: nat): nat
    requires 2 <= base <= 36
  {
    if base == 2 then n
    else if base == 3 then n * 647 / 1024
    else if base <= 7 then n / 2
    else if base <= 9 then n / 3
    else if base <= 15 then n * 241 / 800
    else if base <= 31 then n / 4
    else n / 5
  }

  /** The estimate is sufficient for every base and every length. */
  lemma EstimateFits(base: nat, n: nat, v: nat)
    requires 2 <= base <= 36 && 0 < v < Pow(2, n)
    ensures |Num(base, v)| <= Estimate(base, n) + 1
  {
    if base == 2 {
      DigitsFit(base, 1, 1, n, v);
    } else if base == 3 {
      Base3(n, v, 647, 1024);
    } else if 10 <= base <= 15 {
      Base10(base, n, v, 241, 800);
    } else {
      var q := if base <= 7 then 2 else if base <= 9 then 3 else if base <= 31 then 4 else 5;
      SmallPowers(base, q);
      DigitsFit(base, 1, q, n, v);
    }
  }

  lemma Base3(n: nat, v: nat, p: nat, q: nat)
    requires p == 647 && q == 1024 && 0 < v < Pow(2, n)
    ensures |Num(3, v)| - 1 <= n * p / q
  {
    ThreeVersusTwo(p, q);
    DigitsFit(3, p, q, n, v);
  }

  lemma Base10(base: nat, n: nat, v: nat, p: nat, q: nat)
    requires 10 <= base && p == 241 && q == 800 && 0 < v < Pow(2, n)
    ensures |Num(base, v)| - 1 <= n * p / q
  {
    TenVersusTwo(p, q);
    PowBaseLe(10, base, p);
    DigitsFit(base, p, q, n, v);
  }

  lemma SmallPowers(base: nat, q: nat)
    requires (q == 2 && 4 <= base) || (q == 3 && 8 <= base) || (q == 4 && 16 <= base) || (q == 5 && 32 <= base)
    ensures Pow(2, q) <= Pow(base, 1)
  {
    assert Pow(base, 1) == base * Pow(base, 0) == base;
    assert Pow(2, 2) == 4 && Pow(2, 3) == 8 && Pow(2, 4) == 16 && Pow(2, 5) == 32;
  }

  // ---------- characters ----------

  /** ruby_digitmap. */
  const DIGITMAP: string := "0123456789abcdefghijklmnopqrstuvwxyz"

  /** The value of a digit character, or -1. */
  function CharDigit(c: char): int {
    if '0' <= c <= '9' then c as int - '0' as int
    else if 'a' <= c <= 'z' then c as int - 'a' as int + 10
    else if 'A' <= c <= 'Z' then c as int - 'A' as int + 10
    else -1
  }

  lemma DigitMap(d: nat)
    requires d < 36
    ensures CharDigit(DIGITMAP[d]) == d && (DIGITMAP[d] == '0' <==> d == 0) && DIGITMAP[d] != '_'
    ensures DIGITMAP[d] as int == if d < 10 then 0x30 + d else 0x61 + d - 10
  {
  }

  /** Digits and letters of either case are digits, by their codes, and nothing else is. */
  lemma DigitCodes(c: char)
    ensures 0x30 <= c as int <= 0x39 ==> CharDigit(c) == c as int - 0x30
    ensures 0x61 <= c as int <= 0x7A ==> CharDigit(c) == c as int - 0x61 + 10
    ensures 0x41 <= c as int <= 0x5A ==> CharDigit(c) == c as int - 0x41 + 10
    ensures CharDigit(c) == -1 || CharDigit(c) < 36
    ensures CharDigit(c) == -1 <==>
              !(0x30 <= c as int <= 0x39 || 0x61 <= c as int <= 0x7A || 0x41 <= c as int <= 0x5A)
  {
  }

  lemma {:induction false} NumDigits(base: nat, v: nat)
    requires 2 <= base
    ensures forall i :: 0 <= i < |Num(base, v)| ==> Num(base, v)[i] < base
    decreases v
  {
    if v != 0 {
      Shrinks(base, v);
      NumDigits(base, v / base);
    }
  }

  /** The numeral of v, spelled in the characters of ruby_digitmap. */
  ghost function Text(base: nat, v: nat): string
    requires 2 <= base <= 36
  {
    NumDigits(base, v);
    var s := Num(base, v);
    seq(|s|, i requires 0 <= i < |s| => DIGITMAP[s[i]])
  }

  lemma TextStep(base: nat, v: nat)
    requires 2 <= base <= 36 && 0 < v
    ensures Text(base, v) == Text(base, v / base) + [DIGITMAP[v % base]]
  {
    Shrinks(base, v);
    NumDigits(base, v);
    NumDigits(base, v / base);
  }

  lemma TextHead(base: nat, v: nat)
    requires 2 <= base <= 36 && 0 < v
    ensures Text(base, v) != [] && Text(base, v)[0] != '0'
  {
    NumTop(base, v);
    DigitMap(Num(base, v)[0]);
  }

  lemma TextLength(base: nat, v: nat)
    requires 2 <= base <= 36
    ensures |Text(base, v)| == |Num(base, v)| && (v == 0 <==> Text(base, v) == [])
  {
  }
}
