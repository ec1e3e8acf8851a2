/** Printing Bignums in any base: rb_big2str. */
module BignumToString {
  import opened Arith
  import opened Digits
  import opened Numerals
  import opened Bignums
  import opened LongDivision

  // ---------- one pass over the digits ----------

  /** What is still to be printed: high, and below it k digits worth num. */
  ghost function Whole(base: nat, high: nat, k: nat, num: nat): nat {
    MulLe(0, high, Pow(base, k));
    high * Pow(base, k) + num
  }

  /** The last digit of it, and what is above. */
  lemma LastDigit(base: nat, high: nat, k: nat, num: nat)
    requires 2 <= base && 1 <= k && num < Pow(base, k)
    ensures 0 <= num / base < Pow(base, k - 1)
    ensures Whole(base, high, k, num) / base == Whole(base, high, k - 1, num / base)
    ensures Whole(base, high, k, num) % base == num % base
  {
    var p := Pow(base, k - 1);
    DivBounds(num, base, 0, p);
    LastDigitArithmetic(base, high, p, num, Whole(base, high, k, num));
  }

  lemma LastDigitArithmetic(base: nat, high: nat, p: nat, num: nat, t: nat)
    requires 2 <= base && t == high * (base * p) + num
    ensures t / base == high * p + num / base && t % base == num % base
  {
    DivModSpec(num, base);
    assert high * (base * p) == (high * p) * base by {
      MulAssoc(high, base, p);
      MulAssoc(high, p, base);
    }
    MulDist(base, high * p, num / base);
    DivModUnique(t, base, high * p + num / base, num % base);
  }

  lemma StillSome(base: nat, high: nat, k: nat, num: nat)
    requires 2 <= base
    ensures 0 < Whole(base, high, k, num) <==> high != 0 || num != 0
  {
    PowPositive(base, k);
    if high != 0 { MulLe(1, high, Pow(base, k)); } else { assert high * Pow(base, k) == 0; }
  }

  lemma NothingBelow(base: nat, high: nat, num: nat)
    requires num < Pow(base, 0)
    ensures Whole(base, high, 0, num) == high
  {
  }

  /**
   * The characters of one pass, written downwards from s[j]: k digits of num, but no leading zeros
   * in the last pass.
   */
  method Emit(base: nat, s: array<char>, total: nat, j0: nat, num0: nat, k0: nat, last: bool, ghost high: nat,
        ghost mag: nat)
    returns (j: nat)
    requires 2 <= base <= 36 && 1 <= j0 <= total <= s.Length && num0 < Pow(base, k0)
    requires last == (high == 0) && 0 < Whole(base, high, k0, num0)
    requires Text(base, mag) == Text(base, Whole(base, high, k0, num0)) + s[j0..total]
    requires |Text(base, mag)| < total
    modifies s
    ensures 1 <= j <= j0 && Text(base, mag) == Text(base, high) + s[j..total]
    ensures forall i :: 0 <= i < 1 || total <= i < s.Length ==> s[i] == old(s[i])
  {
    hide Text, Pow, Whole;
    var num: nat, k: nat := num0, k0;
    j := j0;
    while k > 0
      invariant 0 <= k <= k0 && 1 <= j <= j0 && num < Pow(base, k)
      invariant Text(base, mag) == Text(base, Whole(base, high, k, num)) + s[j..total]
      invariant 0 < k ==> 0 < Whole(base, high, k, num)
      invariant forall i :: 0 <= i < 1 || total <= i < s.Length ==> s[i] == old(s[i])
    {
      ghost var t, tail := Whole(base, high, k, num), s[j..total];
      TextStep(base, t);
      LastDigit(base, high, k, num);
      TextLength(base, t);
      j := j - 1;
      s[j] := DIGITMAP[num % base];
      assert s[j..total] == [s[j]] + tail;
      num := num / base;
      k := k - 1;
      StillSome(base, high, k, num);
      if last && num == 0 { return; }
    }
    NothingBelow(base, high, num);
  }

  // ---------- the number of digits left ----------

  /** Dividing by no more than the radix takes away at most the top digit. */
  lemma ShrinksByOne(B: nat, ds: seq<nat>, i: nat, h: nat, v: nat, num: nat)
    requires 2 <= h <= B && AllDigits(B, ds) && 1 <= i <= |ds| && Pow(B, i - 1) <= v
    requires v == h * Val(B, ds[..i]) + num && num < h
    ensures ds[i - 1] == 0 ==> Val(B, ds[..i - 1]) == Val(B, ds[..i])
    ensures ds[i - 1] == 0 && 2 <= i ==> ds[i - 2] != 0
  {
    var q := Val(B, ds[..i]);
    if ds[i - 1] == 0 {
      assert ds[..i][..i - 1] == ds[..i - 1];
      ValPad(B, ds[..i], i - 1);
      if 2 <= i && ds[i - 2] == 0 {
        assert ds[..i - 1][..i - 2] == ds[..i - 2];
        ValPad(B, ds[..i - 1], i - 2);
        ValBound(B, ds[..i - 2]);
        MulLe(q + 1, Pow(B, i - 2), h);
        MulLe(h, B, Pow(B, i - 2));
        MulDist(h, q, 1);
      }
    }
  }

  lemma TopNotZero(B: nat, ds: seq<nat>, i: nat)
    requires 1 <= B && 1 <= i <= |ds| && ds[i - 1] != 0
    ensures 1 <= Pow(B, i - 1) <= Val(B, ds[..i])
  {
    ValTop(B, ds[..i]);
    PowPositive(B, i - 1);
  }

  lemma QuotientLess(h: nat, v: nat, q: nat, num: nat)
    requires 2 <= h && v == h * q + num && 0 < v
    ensures q < v
  {
    if v <= q { MulLe(2, h, q); }
  }

  /** The division loop of rb_big2str over i digits; s[..total] is filled from the end. */
  method Convert(B: nat, base: nat, kd: nat, ds: array<nat>, i0: nat, s: array<char>, total: nat) returns (j: nat)
    requires 2 <= base <= 36 && 1 <= kd && Pow(base, kd) <= B && 1 <= i0 <= ds.Length && total <= s.Length
    requires AllDigits(B, ds[..]) && ds[i0 - 1] != 0
    requires |Text(base, Val(B, ds[..i0]))| < total
    modifies ds, s
    ensures 1 <= j <= total && s[j..total] == Text(base, old(Val(B, ds[..i0])))
    ensures forall k :: 0 <= k < 1 || total <= k < s.Length ==> s[k] == old(s[k])
  {
    hide Text, Pow, Val, Whole;
    var h := Pow(base, kd);
    assert 2 <= h by { HbaseAtLeast(base, kd); }
    ghost var mag := Val(B, ds[..i0]);
    var i := i0;
    j := total;
    TopNotZero(B, ds[..], i);
    assert ds[..][..i] == ds[..i];
    assert s[total..total] == [];
    while i > 0 && j > 0
      invariant 0 <= i <= ds.Length && 1 <= j <= total && AllDigits(B, ds[..])
      invariant i > 0 ==> ds[i - 1] != 0
      invariant i == 0 <==> Val(B, ds[..i]) == 0
      invariant Text(base, mag) == Text(base, Val(B, ds[..i])) + s[j..total]
      invariant forall k :: 0 <= k < 1 || total <= k < s.Length ==> s[k] == old(s[k])
      decreases Val(B, ds[..i])
    {
      ghost var v := Val(B, ds[..i]);
      TopNotZero(B, ds[..], i);
      assert ds[..][..i] == ds[..i];
      var num := DivSmall(B, ds, i, h);
      ghost var q := Val(B, ds[..i]);
      i := DropTop(B, ds, i, h, v, num);
      QuotientLess(h, v, q, num);
      WholeIs(base, q, kd, num, v);
      j := Emit(base, s, total, j, num, kd, i == 0, q, mag);
    }
    assert Text(base, Val(B, ds[..i])) == [] by { TextLength(base, 0); }
  }

  lemma HbaseAtLeast(base: nat, kd: nat)
    requires 2 <= base && 1 <= kd
    ensures 2 <= Pow(base, kd)
  {
    PowExpLe(base, 1, kd);
    assert Pow(base, 1) == base * Pow(base, 0) == base;
  }

  lemma WholeIs(base: nat, q: nat, kd: nat, num: nat, v: nat)
    requires v == Pow(base, kd) * q + num
    ensures Whole(base, q, kd, num) == v
  {
  }

  /** One digit less when the top quotient digit is zero. */
  method DropTop(B: nat, ds: array<nat>, i0: nat, h: nat, ghost v: nat, ghost num: nat) returns (i: nat)
    requires 2 <= h <= B && 1 <= i0 <= ds.Length && AllDigits(B, ds[..]) && Pow(B, i0 - 1) <= v
    requires v == h * Val(B, ds[..i0]) + num && num < h
    ensures i <= i0 && Val(B, ds[..i]) == Val(B, ds[..i0]) && (i > 0 ==> ds[i - 1] != 0)
    ensures i == 0 <==> Val(B, ds[..i]) == 0
  {
    ShrinksByOne(B, ds[..], i0, h, v, num);
    assert ds[..][..i0] == ds[..i0] && ds[..][..i0 - 1] == ds[..i0 - 1];
    i := i0;
    if ds[i - 1] == 0 { i := i - 1; }
    if i > 0 {
      TopNotZero(B, ds[..], i);
      assert ds[..][..i] == ds[..i];
    }
  }

  // ---------- rb_big2str ----------

  datatype Printed = Printed(text: string) | IllegalRadix

  /** base^SIZEOF_BDIGITS fits a digit: 36^2 < 2^16 and 36^4 < 2^32. */
  lemma HbaseFits(w: nat, base: nat)
    requires (w == 16 || w == 32) && base <= 36
    ensures Pow(base, w / 8) <= Pow(2, w)
  {
    PowBaseLe(base, 36, w / 8);
    assert Pow(36, 2) == 1296 && Pow(36, 4) == 1679616;
    assert Pow(2, 16) == 65536;
    PowExpLe(2, 22, 32);
    PowAdd(2, 16, 6);
    assert Pow(2, 6) == 64;
  }

  /** The printed form of an integer. */
  ghost function Signed(base: nat, v: int): string
    requires 2 <= base <= 36
  {
    if v < 0 then "-" + Text(base, -v) else if v == 0 then "0" else Text(base, v)
  }

  /** Fill the buffer: sign slot, then room for the estimated digits, then a terminator. */
  method FillBuffer(x: Bignum, base: nat) returns (s: array<char>, total: nat, j: nat)
    requires x.Trimmed() && (x.w == 16 || x.w == 32) && 2 <= base <= 36 && 0 < x.Mag()
    ensures fresh(s) && 1 <= j < total == s.Length - 1 && s[total] == '\0' && s[0] == (if x.sign then '+' else '-')
    ensures s[j..total] == Text(base, x.Mag())
  {
    hide Val, Pow, Text, Estimate;
    x.NotZero();
    x.OneDigit();
    HbaseFits(x.w, base);
    total := Estimate(base, x.w * x.len) + 2;
    assert |Text(base, x.Mag())| < total by {
      ValBound(x.Radix(), x.digits[..x.len]);
      PowOfPow(2, x.w, x.len);
      EstimateFits(base, x.w * x.len, x.Mag());
      TextLength(base, x.Mag());
    }
    TextLength(base, x.Mag());
    s := new char[total + 1](_ => '\0');
    s[0] := if x.sign then '+' else '-';
    var t := x.Clone();
    assert t.digits[..] == t.digits[..t.len];
    assert t.digits[t.len - 1] == t.digits[..t.len][t.len - 1] == x.digits[..x.len][x.len - 1];
    j := Convert(x.Radix(), base, x.w / 8, t.digits, t.len, s, total);
  }

  /** Move the digits down to the front, behind the sign when it is negative; then cut the string off. */
  method TakeText(s: array<char>, total: nat, j: nat, sign: bool) returns (str: string)
    requires 1 <= j < total == s.Length - 1 && s[0] == (if sign then '+' else '-')
    modifies s
    ensures str == (if sign then [] else ['-']) + old(s[j..total])
  {
    ghost var text := s[j..total];
    var len := total - if sign then j else j - 1;
    var dst := if sign then 0 else 1;
    MoveChars(s, dst, j, len);
    assert s[dst..dst + (total - j)] == text;
    s[len] := '\0';
    str := s[..len];
    assert str == s[..dst] + s[dst..dst + (total - j)];
  }

  /** memmove. */
  method MoveChars(s: array<char>, dst: nat, src: nat, n: nat)
    requires dst + n <= s.Length && src + n <= s.Length
    modifies s
    ensures s[..dst] == old(s[..dst]) && s[dst..dst + n] == old(s[src..src + n])
  {
    forall k | dst <= k < dst + n { s[k] := s[src + (k - dst)]; }
  }

  /** rb_big2str. */
  method Big2Str(x: Bignum, base: int) returns (r: Printed)
    requires x.Trimmed() && (x.w == 16 || x.w == 32)
    ensures x.Value() == 0 ==> r == Printed("0")
    ensures x.Value() != 0 && !(2 <= base <= 36) ==> r == IllegalRadix
    ensures 2 <= base <= 36 ==> r == Printed(Signed(base, x.Value()))
  {
    hide Val, Pow, Text;
    x.NotZero();
    if x.len == 1 && x.digits[0] == 0 { return Printed("0"); }
    if !(2 <= base <= 36) { return IllegalRadix; }
    ghost var text := Text(base, x.Mag());
    var s, total, j := FillBuffer(x, base);
    ghost var j0 := j;
    while s[j] == '0'
      invariant j0 <= j <= total && (j0 < j ==> s[j0] == '0')
      decreases total - j
    {
      j := j + 1;
    }
    TextHead(base, x.Mag());
    assert s[j0] == text[0];
    var str := TakeText(s, total, j, x.sign);
    r := Printed(str);
  }
}
