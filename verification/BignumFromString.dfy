/** Reading Bignums in any base: the accumulation loop of rb_cstr_to_inum, and its round trip. */
module BignumFromString {
  import opened Arith
  import opened Digits
  import opened Numerals
  import opened NumberText
  import opened Bignums
  import opened BignumMul
  import opened BignumToString

  // ---------- z = z * base + c in place ----------

  lemma ScaleColumn(B: nat, z: seq<nat>, base: nat, c: nat, i: nat, s: seq<nat>, num: int)
    requires AllDigits(B, z) && i < |z| && |s| == i && 2 <= B && base <= B && 0 <= num < B
    requires Carried(B, s, num, base * Val(B, z[..i]) + c)
    ensures var t := num + z[i] * base;
            0 <= Hi(B, t) < B && Carried(B, s + [Lo(B, t)], Hi(B, t), base * Val(B, z[..i + 1]) + c)
  {
    hide Carried, Val, Pow;
    var d := z[i] * base;
    assert base * Val(B, z[..i]) + c + Pow(B, i) * d == base * Val(B, z[..i + 1]) + c by {
      ScaleTotals(B, z, base, i, d);
    }
    CarryStep(B, s, num, base * Val(B, z[..i]) + c, d);
    assert 0 <= Hi(B, num + d) < B by {
      ScaleFits(B, num, z[i], base);
      HiIsDigit(B, num + d, B);
    }
  }

  lemma ScaleFits(B: nat, num: int, z: nat, base: nat)
    requires 0 <= num < B && z < B && base <= B
    ensures num + z * base < B * B
  {
    MulLe(z, B - 1, base);
    MulLe(base, B, B - 1);
    MulDist(B, B, 1);
  }

  lemma ScaleTotals(B: nat, z: seq<nat>, base: nat, i: nat, d: nat)
    requires i < |z| && d == z[i] * base
    ensures base * Val(B, z[..i]) + Pow(B, i) * d == base * Val(B, z[..i + 1])
  {
    ValTake(B, z, i);
    MulDist(base, Val(B, z[..i]), Pow(B, i) * z[i]);
    MulAssoc(base, Pow(B, i), z[i]);
    MulAssoc(Pow(B, i), z[i], base);
  }

  /** A digit still to be stored means the value has outgrown its blen digits, so there is a place for it. */
  lemma RoomForDigit(B: nat, s: seq<nat>, num: nat, total: nat, room: nat)
    requires 2 <= B && Carried(B, s, num, total) && 1 <= num && total < Pow(B, room)
    ensures |s| < room
  {
    MulLe(1, num, Pow(B, |s|));
    PowOrder(B, |s|, room);
  }

  /** Multiply the blen digits in use by base and add c; num is left over. */
  method ScaleDigits(B: nat, base: nat, zs: array<nat>, blen: nat, c: nat) returns (num: nat)
    requires 2 <= B && base <= B && c < B && blen <= zs.Length && AllDigits(B, zs[..])
    modifies zs
    ensures num < B && AllDigits(B, zs[..]) && forall i :: blen <= i < zs.Length ==> zs[i] == old(zs[i])
    ensures Carried(B, zs[..blen], num, base * old(Val(B, zs[..blen])) + c)
  {
    hide Carried, Val, Pow;
    ghost var z := zs[..blen];
    num := c;
    var i := 0;
    MulAddStart(B, c);
    assert zs[..0] == [] && z[..0] == [];
    while i < blen
      invariant 0 <= i <= blen && 0 <= num < B && AllDigits(B, zs[..])
      invariant forall k :: i <= k < blen ==> zs[k] == z[k]
      invariant forall k :: blen <= k < zs.Length ==> zs[k] == old(zs[k])
      invariant Carried(B, zs[..i], num, base * Val(B, z[..i]) + c)
    {
      ghost var s := zs[..i];
      ScaleColumn(B, z, base, c, i, s, num);
      var n := num + zs[i] * base;
      zs[i] := Lo(B, n);
      num := Hi(B, n);
      i := i + 1;
      assert zs[..i] == s + [zs[i - 1]];
    }
    assert z[..blen] == z;
  }

  /** Multiply the blen digits in use by base and add c; a digit left over takes one more place. */
  method MulAdd(B: nat, base: nat, zs: array<nat>, blen0: nat, c: nat) returns (blen: nat)
    requires 2 <= B && base <= B && c < B && blen0 <= zs.Length && AllDigits(B, zs[..])
    requires forall i :: blen0 <= i < zs.Length ==> zs[i] == 0
    requires base * Val(B, zs[..blen0]) + c < Pow(B, zs.Length)
    modifies zs
    ensures blen0 <= blen <= blen0 + 1 && blen <= zs.Length && AllDigits(B, zs[..])
    ensures forall i :: blen <= i < zs.Length ==> zs[i] == 0
    ensures Val(B, zs[..blen]) == base * old(Val(B, zs[..blen0])) + c
  {
    hide Carried, Val, Pow;
    ghost var total := base * Val(B, zs[..blen0]) + c;
    var num: int := ScaleDigits(B, base, zs, blen0, c);
    blen := blen0;
    ghost var s := zs[..blen0];
    if num != 0 {
      RoomForDigit(B, s, num, total, zs.Length);
      CarryEnd(B, s, num, total);
      num := num + zs[blen] * base;
      SmallDigit(B, num);
      zs[blen] := Lo(B, num);
      num := Hi(B, num);
      blen := blen + 1;
      assert zs[..blen] == s + [zs[blen - 1]];
    }
    CarryDone(B, zs[..blen], total);
  }

  /** MulAdd, as the spec of the parser states it. */
  method PushDigit(B: nat, base: nat, zs: array<nat>, blen0: nat, c: nat) returns (blen: nat)
    requires 2 <= B && base <= B && c < B && blen0 <= zs.Length && AllDigits(B, zs[..])
    requires forall i :: blen0 <= i < zs.Length ==> zs[i] == 0
    requires Push(base, Val(B, zs[..blen0]), c) < Pow(B, zs.Length)
    modifies zs
    ensures blen0 <= blen <= zs.Length && AllDigits(B, zs[..])
    ensures forall i :: blen <= i < zs.Length ==> zs[i] == 0
    ensures Val(B, zs[..blen]) == Push(base, old(Val(B, zs[..blen0])), c)
  {
    hide Val, Pow;
    blen := MulAdd(B, base, zs, blen0, c);
  }

  lemma MulAddStart(B: nat, c: nat)
    ensures Carried(B, [], c, c) && Val(B, []) == 0
  {
  }

  // ---------- what the accumulation loop accepts ----------

  /** The number read and the place where reading stopped, or a second underscore in a row. */
  datatype Scan = DoubleUnderscore | Stop(value: nat, at: nat)

  ghost function ScanFrom(base: nat, s: string, p: nat, acc: nat, nondigit: bool, badcheck: bool): (r: Scan)
    requires p <= |s|
    ensures r.Stop? ==> p <= r.at <= |s|
    decreases |s| - p
  {
    if p == |s| then Stop(acc, p)
    else if s[p] == '_' then
      if badcheck && nondigit then DoubleUnderscore else ScanFrom(base, s, p + 1, acc, badcheck, badcheck)
    else
      var d := CharDigit(s[p]);
      if d < 0 || base <= d then Stop(acc, p) else ScanFrom(base, s, p + 1, Push(base, acc, d), false, badcheck)
  }

  /** The checks after the loop: no underscore right before the end, nothing but spaces behind it. */
  ghost predicate CleanEnd(s: string, at: nat)
    requires at <= |s|
  {
    && !(1 < at && s[at - 1] == '_')
    && forall i :: at <= i < |s| ==> IsSpace(s[i])
  }

  /** What Integer() rejects: a leading, trailing or doubled underscore, and anything else behind the number. */
  ghost predicate Malformed(base: nat, s: string, p: nat)
    requires p <= |s|
  {
    var scan := ScanFrom(base, s, p, 0, false, true);
    (p < |s| && s[p] == '_') || scan.DoubleUnderscore? || !CleanEnd(s, scan.at)
  }

  lemma {:induction false} ScanStops(base: nat, s: string, p: nat, acc: nat, nondigit: bool)
    requires p <= |s|
    ensures ScanFrom(base, s, p, acc, nondigit, false).Stop?
    decreases |s| - p
  {
    hide Push;
    if p < |s| {
      var d := CharDigit(s[p]);
      if s[p] == '_' {
        ScanStops(base, s, p + 1, acc, false);
      } else if 0 <= d < base {
        ScanStops(base, s, p + 1, Push(base, acc, d), false);
      }
    }
  }

  /** Bits per character in rb_cstr_to_inum. */
  function BitsPerChar(base: nat): nat
    requires 2 <= base <= 36
  {
    if base == 2 then 1
    else if base == 3 then 2
    else if base <= 8 then 3
    else if base <= 16 then 4
    else if base <= 32 then 5
    else 6
  }

  lemma BitsSuffice(base: nat)
    requires 2 <= base <= 36
    ensures base <= Pow(2, BitsPerChar(base))
  {
    assert Pow(2, 1) == 2 && Pow(2, 2) == 4 && Pow(2, 3) == 8 && Pow(2, 4) == 16 && Pow(2, 5) == 32 && Pow(2, 6) == 64;
  }

  lemma QuotientNotNegative(x: nat, w: nat)
    requires 1 <= w
    ensures 0 <= x / w
  {
    MulLe(1, w, x + 1);
    DivBounds(x, w, 0, x + 1);
  }

  /** Digits allocated for n characters. */
  function Allocated(w: nat, base: nat, n: nat): (len: nat)
    requires 1 <= w && 2 <= base <= 36
    ensures 1 <= len
  {
    QuotientNotNegative(BitsPerChar(base) * n, w);
    BitsPerChar(base) * n / w + 1
  }

  /** n characters fit in the digits allocated for them. */
  lemma AllocationSuffices(w: nat, base: nat, n: nat, v: nat)
    requires 1 <= w && 2 <= base <= 36 && v < Pow(base, n)
    ensures v < Pow(Pow(2, w), Allocated(w, base, n))
  {
    hide Pow, BitsPerChar;
    var bits := BitsPerChar(base);
    BitsSuffice(base);
    PowBaseLe(base, Pow(2, bits), n);
    PowOfPow(2, bits, n);
    var len := Allocated(w, base, n);
    PowOfPow(2, w, len);
    assert bits * n <= w * len by {
      DivModSpec(bits * n, w);
      MulDist(w, bits * n / w, 1);
    }
    PowExpLe(2, bits * n, w * len);
  }

  method EndsClean(str: string, at0: nat) returns (clean: bool)
    requires at0 <= |str|
    ensures clean <==> CleanEnd(str, at0)
  {
    if 1 < at0 && str[at0 - 1] == '_' { return false; }
    var at := at0;
    while at < |str| && IsSpace(str[at])
      invariant at0 <= at <= |str| && forall i :: at0 <= i < at ==> IsSpace(str[i])
    {
      at := at + 1;
    }
    clean := at == |str|;
  }

  datatype Parsed = Invalid | Parsed(big: Bignum)

  /**
   * The bigparse part of rb_cstr_to_inum, on the characters from p on. The buffer is sized from the
   * number of characters; no digit ever lands outside it.
   */
  method BigParse(w: nat, dpl: nat, str: string, p0: nat, base: nat, sign: bool, badcheck: bool) returns (r: Parsed)
    requires Build(w, dpl) && 6 <= w && 2 <= base <= 36 && p0 <= |str|
    ensures r.Parsed? ==> r.big.Valid() && r.big.w == w && r.big.dpl == dpl && fresh(r.big) && fresh(r.big.digits)
    ensures r.Invalid? <==> badcheck && Malformed(base, str, p0)
    ensures r.Parsed? ==> ScanFrom(base, str, p0, 0, false, badcheck).Stop?
    ensures r.Parsed? ==> r.big.sign == sign && r.big.Mag() == ScanFrom(base, str, p0, 0, false, badcheck).value
  {
    hide Val, Pow, Allocated, ScanFrom;
    assert !badcheck ==> ScanFrom(base, str, p0, 0, false, badcheck).Stop? by { ScanStops(base, str, p0, 0, false); }
    var len := Allocated(w, base, |str| - p0);
    if badcheck && p0 < |str| && str[p0] == '_' { return Invalid; }
    BigRadix(w);
    var z := new Bignum(w, dpl, len, sign);
    var ok, at := Accumulate(w, z.digits, str, p0, base, badcheck);
    if !ok { return Invalid; }
    if badcheck {
      var clean := EndsClean(str, at);
      if !clean { return Invalid; }
    }
    assert z.digits[..z.len] == z.digits[..];
    r := Parsed(z);
  }

  lemma BigRadix(w: nat)
    requires 6 <= w
    ensures 36 < Pow(2, w)
  {
    PowExpLe(2, 6, w);
    assert Pow(2, 6) == 64;
  }

  /** The loop over the characters. */
  method Accumulate(w: nat, zs: array<nat>, str: string, p0: nat, base: nat, badcheck: bool) returns (ok: bool, p: nat)
    requires 36 < Pow(2, w) && 1 <= w && 2 <= base <= 36 && p0 <= |str|
    requires zs.Length == Allocated(w, base, |str| - p0)
    requires forall i :: 0 <= i < zs.Length ==> zs[i] == 0
    modifies zs
    ensures ok ==> AllDigits(Pow(2, w), zs[..])
    ensures ScanFrom(base, str, p0, 0, false, badcheck)
         == if ok then Stop(Val(Pow(2, w), zs[..]), p) else DoubleUnderscore
  {
    hide Val, Pow, Allocated, Push;
    var B := Pow(2, w);
    ghost var scan := ScanFrom(base, str, p0, 0, false, badcheck);
    var blen, nondigit := 1, false;
    ghost var acc: nat := 0;
    p := p0;
    ZeroStart(B, base, zs[..]);
    assert zs[..][..1] == zs[..1];
    while p < |str|
      invariant p0 <= p <= |str| && 1 <= blen <= zs.Length && AllDigits(B, zs[..])
      invariant forall i :: blen <= i < zs.Length ==> zs[i] == 0
      invariant Val(B, zs[..blen]) == acc < Pow(base, p - p0)
      invariant ScanFrom(base, str, p, acc, nondigit, badcheck) == scan
    {
      var c := str[p];
      if c == '_' {
        if badcheck && nondigit { return false, p; }
        nondigit := badcheck;
        ShorterStill(base, p - p0);
        p := p + 1;
        continue;
      }
      var d := CharDigit(c);
      if d < 0 || d >= base { break; }
      nondigit := false;
      PushBound(base, acc, d, p - p0);
      PowGrows(base, p + 1 - p0, |str| - p0);
      AllocationSuffices(w, base, |str| - p0, Push(base, acc, d));
      blen := PushDigit(B, base, zs, blen, d);
      acc := Push(base, acc, d);
      p := p + 1;
    }
    assert zs[..][..blen] == zs[..blen];
    ValPad(B, zs[..], blen);
    ok := true;
  }

  lemma ZeroStart(B: nat, base: nat, zs: seq<nat>)
    requires 1 <= |zs| && forall i :: 0 <= i < |zs| ==> zs[i] == 0
    ensures Val(B, zs[..1]) == 0 < Pow(base, 0)
  {
    ValZeros(B, zs[..1]);
  }

  lemma ShorterStill(base: nat, n: nat)
    requires 2 <= base
    ensures Pow(base, n) <= Pow(base, n + 1)
  {
    PowExpLe(base, n, n + 1);
  }

  lemma PowGrows(base: nat, n: nat, m: nat)
    requires 2 <= base && n <= m
    ensures Pow(base, n) <= Pow(base, m)
  {
    PowExpLe(base, n, m);
  }

  // ---------- the round trip ----------

  /** The characters of s from p on spell ds. */
  ghost predicate Spells(base: nat, s: string, p: nat, ds: seq<nat>) {
    && 2 <= base <= 36 && p + |ds| == |s|
    && forall i :: 0 <= i < |ds| ==> ds[i] < base && s[p + i] == DIGITMAP[ds[i]]
  }

  lemma SpellsRest(base: nat, s: string, p: nat, ds: seq<nat>)
    requires Spells(base, s, p, ds) && ds != []
    ensures Spells(base, s, p + 1, ds[1..]) && s[p] == DIGITMAP[ds[0]] && ds[0] < base
  {
    assert s[p + 0] == DIGITMAP[ds[0]];
    forall i | 0 <= i < |ds| - 1 ensures ds[1..][i] < base && s[p + 1 + i] == DIGITMAP[ds[1..][i]] {
      assert s[p + (i + 1)] == DIGITMAP[ds[i + 1]];
    }
  }

  /** Reading digit characters is Horner's rule, to the end of the string. */
  lemma {:induction false} ScanDigits(base: nat, s: string, p: nat, ds: seq<nat>, acc: nat, nondigit: bool,
        badcheck: bool)
    requires Spells(base, s, p, ds)
    ensures ScanFrom(base, s, p, acc, nondigit, badcheck) == Stop(Horner(base, ds, acc), |s|)
    decreases |ds|
  {
    hide Push, Spells;
    if ds == [] {
      SpellsNothing(base, s, p, ds);
    } else {
      SpellsRest(base, s, p, ds);
      DigitMap(ds[0]);
      ScanDigits(base, s, p + 1, ds[1..], Push(base, acc, ds[0]), false, badcheck);
    }
  }

  lemma SpellsNothing(base: nat, s: string, p: nat, ds: seq<nat>)
    requires Spells(base, s, p, ds)
    ensures p + |ds| == |s|
  {
  }

  /** Where the digits of a printed number start. */
  ghost function DigitsFrom(v: int): nat {
    if v < 0 then 1 else 0
  }

  /** The digits that are printed: a single zero for zero. */
  ghost function PrintedDigits(base: nat, v: int): seq<nat>
    requires 2 <= base
  {
    if v == 0 then [0] else Num(base, Abs(v))
  }

  lemma SignedSpells(base: nat, v: int)
    requires 2 <= base <= 36
    ensures Spells(base, Signed(base, v), DigitsFrom(v), PrintedDigits(base, v))
    ensures var ds := PrintedDigits(base, v);
            ds != [] && (v != 0 <==> ds[0] != 0) && ds[0] < 36 && ds[|ds| - 1] < 36
  {
    hide Num, Text;
    if v != 0 {
      NumTop(base, Abs(v));
      TextSpells(base, Abs(v));
    }
  }

  lemma TextSpells(base: nat, v: nat)
    requires 2 <= base <= 36
    ensures Spells(base, Text(base, v), 0, Num(base, v))
  {
    hide Num;
    NumDigits(base, v);
  }

  lemma PrintedValue(base: nat, v: int)
    requires 2 <= base
    ensures Horner(base, PrintedDigits(base, v), 0) == Abs(v)
  {
    if v == 0 {
      assert [0][1..] == [];
      assert Push(base, 0, 0) == 0;
    } else {
      HornerNum(base, Abs(v));
    }
  }

  /** A printed number is read back, and it is well formed. */
  lemma ScanSigned(base: nat, v: int, badcheck: bool)
    requires 2 <= base <= 36
    ensures DigitsFrom(v) < |Signed(base, v)|
    ensures ScanFrom(base, Signed(base, v), DigitsFrom(v), 0, false, badcheck) == Stop(Abs(v), |Signed(base, v)|)
    ensures !Malformed(base, Signed(base, v), DigitsFrom(v))
    ensures var s := Signed(base, v);
            0 <= CharDigit(s[DigitsFrom(v)]) && (v < 0 <==> s[0] == '-') && (v != 0 <==> s[DigitsFrom(v)] != '0')
  {
    hide ScanFrom, Horner, Num, Text, PrintedDigits;
    var s, p, ds := Signed(base, v), DigitsFrom(v), PrintedDigits(base, v);
    SignedSpells(base, v);
    PrintedValue(base, v);
    ScanDigits(base, s, p, ds, 0, false, badcheck);
    ScanDigits(base, s, p, ds, 0, false, true);
    SpellsRest(base, s, p, ds);
    DigitMap(ds[0]);
    DigitMap(ds[|ds| - 1]);
    assert s[p + (|ds| - 1)] == s[|s| - 1];
  }

  datatype Inum = BadRadix | BadNumber | Number(value: Integer)

  /** Is there a radix prefix such as 0x at p? */
  predicate HasPrefix(base: nat, s: string, p: nat) {
    var c := At(s, p + 1);
    && At(s, p) == '0'
    && match base
       case 2 => c == 'b' || c == 'B'
       case 8 => c == 'o' || c == 'O'
       case 10 => c == 'd' || c == 'D'
       case 16 => c == 'x' || c == 'X'
       case _ => false
  }

  /** The last of the zeros at p, or p when there is none. */
  function LastZero(s: string, p: nat): (q: nat)
    requires p <= |s|
    ensures p <= q <= |s|
    decreases |s| - p
  {
    if At(s, p) == '0' && At(s, p + 1) == '0' then LastZero(s, p + 1) else p
  }

  /** Where the digits start: behind the radix prefix, on the last leading zero. */
  function DigitsStart(base: nat, s: string, p: nat): (q: nat)
    requires p <= |s|
    ensures p <= q <= |s|
  {
    LastZero(s, if HasPrefix(base, s, p) then p + 2 else p)
  }

  /** The radix: as given, or chosen by a prefix, where a number from -36 to -2 names the radix without one. */
  function RadixOf(base: int, s: string, p: nat): (r: nat)
    ensures 0 < base ==> r == base
  {
    if base > 0 then base
    else if At(s, p) == '0' then
      var c := At(s, p + 1);
      if c == 'x' || c == 'X' then 16 else if c == 'b' || c == 'B' then 2
      else if c == 'o' || c == 'O' then 8 else if c == 'd' || c == 'D' then 10 else 8
    else if base < -1 then -base
    else 10
  }

  datatype Reading = NoRadix | NoNumber | Value(v: int)

  /** The string from p on goes to strtoul: it is short enough for a word, and no underscore stops strtoul. */
  predicate Short(bits: nat, base: nat, s: string, p: nat)
    requires 2 <= base <= 36 && p <= |s|
  {
    BitsPerChar(base) * (|s| - p) <= bits && At(s, StopsAt(base, s, p)) != '_'
  }

  /** What is read by strtoul. */
  ghost function ShortNumber(bits: nat, base: nat, s: string, p: nat, minus: bool, badcheck: bool): Reading
    requires p <= |s|
  {
    PowPositive(2, bits);
    var end, v := StopsAt(base, s, p), Unsigned(Pow(2, bits), base, s, p);
    if badcheck && (end == p || BlankEnd(s, end, true) != |s|) then NoNumber
    else Value(if minus then -(v as int) else v)
  }

  /** What is read by the loop over the characters. */
  ghost function LongNumber(base: nat, s: string, p: nat, minus: bool, badcheck: bool): Reading
    requires p <= |s|
  {
    if badcheck && Malformed(base, s, p) then NoNumber
    else
      var scan := ScanFrom(base, s, p, 0, false, badcheck);
      if scan.DoubleUnderscore? then NoNumber else Value(if minus then -(scan.value as int) else scan.value)
  }

  /** What rb_cstr_to_inum makes of a string, for words of so many bits. */
  ghost function ReadNumber(bits: nat, radix: int, s: string, badcheck: bool): Reading {
    var b := BlankEnd(s, 0, badcheck);
    var p := if At(s, b) == '+' || At(s, b) == '-' then b + 1 else b;
    var base := RadixOf(radix, s, p);
    if At(s, p) == '+' || At(s, p) == '-' then (if badcheck then NoNumber else Value(0))
    else if !(2 <= base <= 36) then NoRadix
    else
      var d := DigitsStart(base, s, p);
      if Short(bits, base, s, d) then ShortNumber(bits, base, s, d, At(s, b) == '-', badcheck)
      else LongNumber(base, s, d, At(s, b) == '-', badcheck)
  }

  /** A run of digit characters to the end of the string. */
  lemma {:induction false} SpellsRun(base: nat, s: string, p: nat, ds: seq<nat>, acc: nat)
    requires Spells(base, s, p, ds)
    ensures p <= |s| && RunEnd(base, s, p) == |s| && RunValue(base, s, p, acc) == Horner(base, ds, acc)
    decreases |ds|
  {
    hide Push, Spells;
    SpellsNothing(base, s, p, ds);
    if ds != [] {
      SpellsRest(base, s, p, ds);
      DigitMap(ds[0]);
      SpellsRun(base, s, p + 1, ds[1..], Push(base, acc, ds[0]));
    }
  }

  /** strtoul reads a printed number to its end. */
  lemma RunSigned(base: nat, v: int)
    requires 2 <= base <= 36
    ensures var s, d := Signed(base, v), DigitsFrom(v);
            d < |s| && DigitsAt(base, s, d) == d && StopsAt(base, s, d) == |s| && RunValue(base, s, d, 0) == Abs(v)
  {
    hide Horner, Num, Text, PrintedDigits;
    ScanSigned(base, v, false);
    SignedSpells(base, v);
    PrintedValue(base, v);
    SpellsRun(base, Signed(base, v), DigitsFrom(v), PrintedDigits(base, v), 0);
    hide RunEnd, RunValue, ScanFrom, Malformed;
    assert v == 0 ==> |Signed(base, v)| == 1;
  }

  lemma ShortReadsBack(bits: nat, base: nat, v: int, badcheck: bool)
    requires 2 <= base <= 36
    ensures DigitsFrom(v) <= |Signed(base, v)|
    ensures ShortNumber(bits, base, Signed(base, v), DigitsFrom(v), v < 0, badcheck) == Value(v)
  {
    hide RunEnd, RunValue, Text;
    RunSigned(base, v);
    ScanSigned(base, v, false);
    hide ScanFrom, Malformed;
  }

  /** What rb_big2str prints is read back as the same signed value. */
  lemma ReadsBack(bits: nat, base: nat, v: int, badcheck: bool)
    requires 2 <= base <= 36
    ensures ReadNumber(bits, base, Signed(base, v), badcheck) == Value(v)
  {
    hide Text, Malformed, ScanFrom, ShortNumber, Short;
    ScanSigned(base, v, badcheck);
    ShortReadsBack(bits, base, v, badcheck);
    var s, d := Signed(base, v), DigitsFrom(v);
    assert BlankEnd(s, 0, badcheck) == 0;
    assert v == 0 ==> |s| == 1;
    assert DigitsStart(base, s, d) == d;
  }

  method SkipZeros(base: nat, str: string, p0: nat) returns (p: nat)
    requires p0 <= |str|
    ensures p == DigitsStart(base, str, p0)
  {
    p := p0;
    if HasPrefix(base, str, p) { p := p + 2; }
    if At(str, p) == '0' {
      ghost var start := p;
      p := p + 1;
      while At(str, p) == '0'
        invariant start < p <= |str| && At(str, p - 1) == '0' && LastZero(str, p - 1) == LastZero(str, start)
        decreases |str| - p
      {
        p := p + 1;
      }
      p := p - 1;
    }
  }

  method ChooseRadix(radix: int, str: string, p: nat) returns (base: int)
    ensures base == RadixOf(radix, str, p)
  {
    base := radix;
    if base <= 0 {
      if At(str, p) == '0' {
        var c := At(str, p + 1);
        if c == 'x' || c == 'X' {
          base := 16;
        } else if c == 'b' || c == 'B' {
          base := 2;
        } else if c == 'o' || c == 'O' {
          base := 8;
        } else if c == 'd' || c == 'D' {
          base := 10;
        } else {
          base := 8;
        }
      } else if base < -1 {
        base := -base;
      } else {
        base := 10;
      }
    }
  }

  /** So many characters stand for a number that fits in a word. */
  lemma ShortFits(bits: nat, base: nat, n: nat)
    requires 2 <= base <= 36 && BitsPerChar(base) * n <= bits
    ensures Pow(base, n) <= Pow(2, bits)
  {
    hide Pow, BitsPerChar;
    BitsSuffice(base);
    PowBaseLe(base, Pow(2, BitsPerChar(base)), n);
    PowOfPow(2, BitsPerChar(base), n);
    PowExpLe(2, BitsPerChar(base) * n, bits);
  }

  lemma HalfWord(w: nat, dpl: nat, v: nat)
    requires Build(w, dpl) && v < Pow(2, w * dpl) / 4
    ensures Fixable(w, dpl, v) && Fixable(w, dpl, -(v as int))
  {
    hide Pow;
  }

  /** The checks behind strtoul, and the number as a Fixnum or a Bignum. */
  method ShortInum(w: nat, dpl: nat, str: string, p: nat, base: nat, val: nat, end0: nat, sign: bool, badcheck: bool)
    returns (r: Inum)
    requires Build(w, dpl) && p <= |str| && end0 == StopsAt(base, str, p) && val < Pow(2, w * dpl)
    requires val == Unsigned(Pow(2, w * dpl), base, str, p)
    ensures match ShortNumber(w * dpl, base, str, p, !sign, badcheck)
            case NoRadix => false
            case NoNumber => r == BadNumber
            case Value(v) => r.Number? && ValidOperand(w, dpl, r.value) && IntegerValue(r.value) == v
  {
    hide Pow, Unsigned, StopsAt, BlankEnd, Fixable, Val;
    if badcheck {
      if end0 == p { return BadNumber; }
      var end := SkipBlanks(str, end0, true);
      if end < |str| { return BadNumber; }
    }
    if val < Pow(2, w * dpl) / 4 {
      HalfWord(w, dpl, val);
      return Number(Fix(if sign then val else -(val as int)));
    }
    var n := NormUlong(w, dpl, val, sign);
    r := Number(n);
  }

  method NormUlong(w: nat, dpl: nat, val: nat, sign: bool) returns (r: Integer)
    requires Build(w, dpl) && val < Pow(2, w * dpl)
    ensures ValidOperand(w, dpl, r) && IntegerValue(r) == if sign then val else -(val as int)
  {
    hide Pow, Val, Fixable;
    var big := new Bignum.FromUlong(w, dpl, val);
    big.sign := sign;
    r := big.Norm();
  }

  /** rb_cstr_to_inum. */
  method CstrToInum(w: nat, dpl: nat, str: string, radix: int, badcheck: bool) returns (r: Inum)
    requires Build(w, dpl) && 6 <= w
    ensures match ReadNumber(w * dpl, radix, str, badcheck)
            case NoRadix => r == BadRadix
            case NoNumber => r == BadNumber
            case Value(v) => r.Number? && ValidOperand(w, dpl, r.value) && IntegerValue(r.value) == v
  {
    hide Fixable, Val, Pow, Text, HasPrefix, DigitsStart, BlankEnd, RadixOf, Short, ShortNumber, LongNumber;
    var p := SkipBlanks(str, 0, badcheck);
    var sign := true;
    if At(str, p) == '+' {
      p := p + 1;
    } else if At(str, p) == '-' {
      p := p + 1;
      sign := false;
    }
    if At(str, p) == '+' || At(str, p) == '-' {
      if badcheck { return BadNumber; }
      FixableSmall(w, dpl);
      return Number(Fix(0));
    }
    var base := ChooseRadix(radix, str, p);
    if !(2 <= base <= 36) { return BadRadix; }
    p := SkipZeros(base, str, p);
    r := ParseFrom(w, dpl, str, p, base, sign, badcheck);
  }

  /** The digits: by strtoul if the string is short, else by the loop over the characters. */
  method ParseFrom(w: nat, dpl: nat, str: string, p: nat, base: nat, sign: bool, badcheck: bool) returns (r: Inum)
    requires Build(w, dpl) && 6 <= w && 2 <= base <= 36 && p <= |str|
    ensures match if Short(w * dpl, base, str, p) then ShortNumber(w * dpl, base, str, p, !sign, badcheck)
                  else LongNumber(base, str, p, !sign, badcheck)
            case NoRadix => false
            case NoNumber => r == BadNumber
            case Value(v) => r.Number? && ValidOperand(w, dpl, r.value) && IntegerValue(r.value) == v
  {
    hide Fixable, Val, Pow, BlankEnd, ShortNumber, StopsAt, Unsigned, Malformed, ScanFrom, BitsPerChar;
    if BitsPerChar(base) * (|str| - p) <= w * dpl {
      ShortFits(w * dpl, base, |str| - p);
      NoOverflow(Pow(2, w * dpl), base, str, p);
      var val, end := Strtoul(Pow(2, w * dpl), base, str, p);
      if At(str, end) != '_' {
        r := ShortInum(w, dpl, str, p, base, val, end, sign, badcheck);
        return;
      }
    }
    r := LongInum(w, dpl, str, p, base, sign, badcheck);
  }

  method LongInum(w: nat, dpl: nat, str: string, p: nat, base: nat, sign: bool, badcheck: bool) returns (r: Inum)
    requires Build(w, dpl) && 6 <= w && 2 <= base <= 36 && p <= |str|
    ensures match LongNumber(base, str, p, !sign, badcheck)
            case NoRadix => false
            case NoNumber => r == BadNumber
            case Value(v) => r.Number? && ValidOperand(w, dpl, r.value) && IntegerValue(r.value) == v
  {
    hide Fixable, Val, Pow, Malformed, ScanFrom;
    var parsed := BigParse(w, dpl, str, p, base, sign, badcheck);
    if parsed.Invalid? { return BadNumber; }
    var n := parsed.big.Norm();
    r := Number(n);
  }

  /** Print in any radix and read back: the same signed value. */
  method PrintAndParse(x: Bignum, base: nat, badcheck: bool) returns (r: Inum)
    requires x.Trimmed() && (x.w == 16 || x.w == 32) && 2 <= base <= 36
    ensures r.Number? && ValidOperand(x.w, x.dpl, r.value) && IntegerValue(r.value) == x.Value()
  {
    hide Fixable, Val, Pow, Text, ReadNumber;
    var printed := Big2Str(x, base);
    ReadsBack(x.w * x.dpl, base, x.Value(), badcheck);
    r := CstrToInum(x.w, x.dpl, printed.text, base, badcheck);
  }
}
