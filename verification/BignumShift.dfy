/** Bit complement, shifts and bit reference of Bignums. */
module BignumShift {
  import opened Arith
  import opened Digits
  import opened Bits
  import opened TwosComplement
  import opened ShiftDigits
  import opened Bignums
  import opened BignumBits
  import opened BignumMul
  import opened LongDivision

  // ---------- rb_big_neg ----------

  /** When ~ comes out right: no all-ones magnitude, and no digit added by get2comp. */
  ghost predicate InvertsRight(x: Bignum)
    requires x.Valid()
    reads x, x.digits
  {
    if x.sign then x.Mag() + 1 != Pow(x.Radix(), x.len) else 2 * x.Mag() <= Pow(x.Radix(), x.len)
  }

  /** x >= 0: complement and add one. */
  method InvertPositive(z: Bignum)
    requires z.Valid() && 1 <= z.len && z.sign
    modifies z, z.digits
    ensures z.Valid() && !z.sign && (z.digits == old(z.digits) || fresh(z.digits))
    ensures z.Mag() == if old(z.Mag()) + 1 == old(Pow(z.Radix(), z.len)) then 0 else old(z.Mag()) + 1
  {
    hide Val, Pow;
    var B := z.Radix();
    EvenRadix(z.w);
    ComplementValue(B, z.digits[..z.len]);
    ValBound(B, z.digits[..z.len]);
    ComplementDigits(B, z.digits, z.len);
    Get2comp(z, false);
    z.sign := false;
  }

  /** x < 0: two's complement, then complement the digits of the buffer taken before. */
  method InvertNegative(z: Bignum, moves: bool)
    requires z.Valid() && 1 <= z.len && !z.sign && 0 < z.Mag()
    modifies z, z.digits
    ensures z.Valid() && z.sign && (z.digits == old(z.digits) || fresh(z.digits))
    ensures z.Mag() == old(z.Mag()) - 1 <==> old(2 * z.Mag() <= Pow(z.Radix(), z.len))
  {
    hide Val, Pow;
    var B, n, ds := z.Radix(), z.len, z.digits;
    ghost var m := z.Mag();
    EvenRadix(z.w);
    Get2comp(z, true);
    if !moves { ds := z.digits; }
    ghost var s, low := z.digits[..z.len], z.digits[..n];
    ComplementValue(B, ds[..n]);
    ComplementDigits(B, ds, n);
    z.sign := true;
    InvertedValue(B, n, m, low, z.digits[..z.len], ds == z.digits);
  }

  /** The magnitude after complementing: right without an extra digit, wrong with one. */
  lemma InvertedValue(B: nat, n: nat, m: nat, low: seq<nat>, z: seq<nat>, inPlace: bool)
    requires 2 <= B && B % 2 == 0 && AllDigits(B, low) && |low| == n && Val(B, low) == Pow(B, n) - m && 0 < m
    requires |z| == PatternLen(B, m, n) && (|z| == n ==> inPlace)
    requires if |z| == n then z == Complement(B, low)
             else z == (if inPlace then Complement(B, low) else low) + [B - 1]
    ensures Val(B, z) == m - 1 <==> 2 * m <= Pow(B, n)
  {
    hide Val, Pow, Complement;
    ComplementValue(B, low);
    if |z| != n {
      var s := if inPlace then Complement(B, low) else low;
      ValSnoc(B, s, B - 1);
      ExtraDigitTooLarge(B, Pow(B, n), m, Val(B, s), Pow(B, n) * (B - 1));
    }
  }

  lemma ExtraDigitTooLarge(B: nat, p: nat, m: nat, v: nat, top: int)
    requires 2 <= B && top == p * (B - 1) && m <= p
    ensures v + top != m - 1
  {
    MulLe(1, B - 1, p);
  }

  /**
   * rb_big_neg. Only the digits in the buffer taken before get2comp are complemented; moves says
   * whether REALLOC_N leaves that buffer behind when it adds a digit.
   */
  method Invert(x: Bignum, moves: bool) returns (r: Integer)
    requires x.Trimmed()
    ensures ValidOperand(x.w, x.dpl, r)
    ensures IntegerValue(r) == -x.Value() - 1 <==> InvertsRight(x)
  {
    hide Val, Pow, Fixable;
    x.NotZero();
    var z := x.Clone();
    if x.sign {
      PowPositive(x.Radix(), x.len);
      InvertPositive(z);
    } else {
      InvertNegative(z, moves);
    }
    r := z.Norm();
  }

  // ---------- rb_big_lshift ----------

  /** s1 zero digits, then xs shifted left by s2 bits, then what leaves its top. */
  method LShiftDigits(w: nat, xs: array<nat>, n: nat, s1: nat, s2: nat, zs: array<nat>)
    requires 1 <= w && s2 < w && n <= xs.Length && zs.Length == n + s1 + 1 && xs != zs
    requires AllDigits(Pow(2, w), xs[..n])
    modifies zs
    ensures AllDigits(Pow(2, w), zs[..])
    ensures Val(Pow(2, w), zs[..]) == Pow(Pow(2, w), s1) * (Pow(2, s2) * Val(Pow(2, w), xs[..n]))
  {
    hide Carried, Val, Pow, Bitwise;
    var B, D := Pow(2, w), Pow(2, s2);
    PowPositive(2, w);
    PowPositive(2, s2);
    ghost var x := xs[..n];
    for i := 0 to s1
      invariant forall k :: 0 <= k < i ==> zs[k] == 0
    {
      zs[i] := 0;
    }
    var i, num: int := 0, 0;
    CarryStart(B);
    assert zs[s1..s1] == [] && x[..0] == [];
    while i < n
      invariant 0 <= i <= n && 0 <= num < D && xs[..n] == x
      invariant forall k :: 0 <= k < s1 ==> zs[k] == 0
      invariant Carried(B, zs[s1..s1 + i], num, D * Val(B, x[..i]))
    {
      ghost var s := zs[s1..s1 + i];
      ShlColumn(B, D, x, i, s, num);
      assert x[i] == xs[i];
      OrDisjoint(num, xs[i], s2);
      num := Bitwise(OrOp, xs[i] * D, num);
      zs[s1 + i] := Lo(B, num);
      num := Hi(B, num);
      i := i + 1;
      assert zs[s1..s1 + i] == s + [zs[s1 + i - 1]];
    }
    ghost var s := zs[s1..s1 + n];
    assert x[..n] == x;
    HalfRadix(w, s2);
    SmallDigit(B, num);
    zs[s1 + n] := Lo(B, num);
    ghost var zeros := zs[..s1];
    assert zs[..] == zeros + (s + [num]);
    ShiftedUp(B, zeros, s, num, D * Val(B, x));
  }

  /** Zero digits below a number with its carry on top: the number times a power of the radix. */
  lemma ShiftedUp(B: nat, zeros: seq<nat>, s: seq<nat>, num: nat, total: int)
    requires num < B && Carried(B, s, num, total) && forall i :: 0 <= i < |zeros| ==> zeros[i] == 0
    ensures AllDigits(B, zeros + (s + [num])) && Val(B, zeros + (s + [num])) == Pow(B, |zeros|) * total
  {
    hide Carried, Val, Pow;
    CarryEnd(B, s, num, total);
    CarryDone(B, s + [num], total);
    ValZeros(B, zeros);
    ValConcat(B, zeros, s + [num]);
  }

  lemma SplitShiftParts(w: nat, q: nat, r: nat)
    ensures Pow(Pow(2, w), q) * Pow(2, r) == Pow(2, w * q + r)
  {
    PowOfPow(2, w, q);
    PowAdd(2, w * q, r);
  }

  /** Shifting by whole digits and then by bits is shifting by the sum. */
  lemma SplitShift(w: nat, shift: nat)
    requires 1 <= w
    ensures Pow(Pow(2, w), shift / w) * Pow(2, shift % w) == Pow(2, shift)
  {
    hide Pow;
    SplitShiftParts(w, shift / w, shift % w);
    assert w * (shift / w) + shift % w == shift by { DivModSpec(shift, w); }
  }

  lemma SignedProduct(sign: bool, m: nat, p: nat)
    ensures (if sign then m * p else -(m * p)) == (if sign then m else -(m as int)) * p
  {
  }

  /** rb_big_lshift by a shift that is not negative: multiplication by 2^shift. */
  method LShift(x: Bignum, shift: nat) returns (z: Bignum)
    requires x.Valid()
    ensures z.Valid() && fresh(z) && fresh(z.digits) && z.SameBuild(x)
    ensures z.Value() == x.Value() * Pow(2, shift)
  {
    hide Val, Pow;
    var s1, s2 := shift / x.w, shift % x.w;
    z := new Bignum(x.w, x.dpl, x.len + s1 + 1, x.sign);
    LShiftDigits(x.w, x.digits, x.len, s1, s2, z.digits);
    assert z.digits[..z.len] == z.digits[..];
    SplitShift(x.w, shift);
    MulAssoc(Pow(x.Radix(), s1), Pow(2, s2), x.Mag());
    SignedProduct(x.sign, x.Mag(), Pow(2, shift));
  }

  // ---------- rb_big_rshift ----------

  lemma DropArithmetic(low: nat, p: nat, high: int, x: int)
    requires low < p && x == low + p * high
    ensures x / p == high
  {
    DivModUnique(x, p, high, low);
  }

  lemma ReadingSplit(B: nat, s: seq<nat>, neg: bool, n: nat)
    requires n <= |s|
    ensures Reading(B, s, neg) == Val(B, s[..n]) + Pow(B, n) * Reading(B, s[n..], neg)
  {
    hide Val, Pow;
    ValSplit(B, s, n);
    PowAdd(B, n, |s| - n);
    MulDist(Pow(B, n), Val(B, s[n..]), Pow(B, |s| - n));
    assert |s[n..]| == |s| - n;
  }

  /** Dropping low digits of a pattern is floor division by their weight. */
  lemma ReadingDrop(B: nat, s: seq<nat>, neg: bool, n: nat)
    requires 1 <= B && AllDigits(B, s) && n <= |s|
    ensures 0 < Pow(B, n) && Reading(B, s, neg) / Pow(B, n) == Reading(B, s[n..], neg)
  {
    hide Val, Pow, Reading;
    PowPositive(B, n);
    ValBound(B, s[..n]);
    ReadingSplit(B, s, neg, n);
    DropArithmetic(Val(B, s[..n]), Pow(B, n), Reading(B, s[n..], neg), Reading(B, s, neg));
  }

  lemma ShiftQuotient(x: int, D: nat, p: int, v: int)
    requires 1 <= D && v == x + p * D
    ensures v / D == x / D + p
  {
    DivModSpec(x, D);
    MulDist(D, x / D, p);
    DivModUnique(v, D, x / D + p, x % D);
  }

  /** All ones, cut down to the bits that move in. */
  lemma OnesMovedIn(w: nat, dd: nat)
    requires dd < w
    ensures 1 <= Pow(2, w) && 0 < Pow(2, dd) && (Pow(2, w) - 1) % Pow(2, dd) == Pow(2, dd) - 1
  {
    hide Pow;
    PowPositive(2, dd);
    PowPositive(2, w);
    PowAdd(2, w - dd, dd);
    OnesMod(Pow(2, w), Pow(2, dd), Pow(2, w - dd));
  }

  lemma OnesMod(B: nat, D: nat, E: nat)
    requires 1 <= D && 1 <= B == E * D
    ensures (B - 1) % D == D - 1
  {
    MulDist(D, E, 1);
    DivModUnique(B - 1, D, E - 1, D - 1);
  }

  /** The shifted pattern, with the sign moving in from the left, stands for the floored quotient. */
  lemma ShiftedReading(w: nat, dd: nat, s: seq<nat>, neg: bool, z: seq<nat>)
    requires dd < w && |z| == |s| && 0 < Pow(2, dd) && 1 <= Pow(2, w)
    requires Val(Pow(2, w), z) == From(Pow(2, w), s, Fill(Pow(2, w), neg) % Pow(2, dd), 0) / Pow(2, dd)
    ensures Reading(Pow(2, w), z, neg) == Reading(Pow(2, w), s, neg) / Pow(2, dd)
  {
    var B, D := Pow(2, w), Pow(2, dd);
    if neg {
      OnesMovedIn(w, dd);
      FromOnes(B, s, D);
      ShiftQuotient(Reading(B, s, true), D, Pow(B, |s|), From(B, s, D - 1, 0));
    } else {
      DivModUnique(0, D, 0, 0);
      NothingAbove(B, s);
    }
  }

  lemma FromOnes(B: nat, s: seq<nat>, D: nat)
    requires 1 <= D
    ensures From(B, s, D - 1, 0) == Reading(B, s, true) + Pow(B, |s|) * D
  {
    assert s[0..] == s;
    MulDist(Pow(B, |s|), D, 1);
  }

  /** A negative number shifted right stays negative and does not grow. */
  lemma NegativeQuotient(x: int, D: nat)
    requires x < 0 && 1 <= D
    ensures x <= x / D < 0
  {
    DivModSpec(x, D);
    if x / D < x {
      MulLe(x / D + 1, x, D);
      assert (x / D + 1) * D == x / D * D + D by { MulDist(D, x / D, 1); }
      NegativeScale(x, D);
    }
    if 0 <= x / D { MulLe(0, x / D, D); }
  }

  lemma NegativeScale(x: int, D: nat)
    requires x < 0 && 1 <= D
    ensures x * D <= x
  {
  }

  /** A pattern with its top bit set, shifted right, is never all zero. */
  lemma TopStays(B: nat, x: seq<nat>, s1: nat, D: nat, z: seq<nat>)
    requires 2 <= B && B % 2 == 0 && AllDigits(B, x) && s1 < |x| && 1 <= D && |z| == |x| - s1
    requires Pow(B, |x|) <= 2 * Val(B, x) && Reading(B, z, true) == Reading(B, x[s1..], true) / D
    ensures 0 < Val(B, z)
  {
    var t := x[s1..];
    TopBit(B, x);
    TopBit(B, t);
    ValBound(B, t);
    PowPositive(B, |t|);
    NegativeQuotient(Reading(B, t, true), D);
  }

  /** The digit loop of rb_big_rshift over a pattern, s1 digits and s2 bits down. */
  method RShiftDigits(w: nat, xs: array<nat>, n: nat, neg: bool, s1: nat, s2: nat, zs: array<nat>)
    requires 1 <= w && s2 < w && s1 <= n <= xs.Length && zs.Length == n - s1 && xs != zs
    requires AllDigits(Pow(2, w), xs[..n])
    modifies zs
    ensures AllDigits(Pow(2, w), zs[..]) && 0 < Pow(2, w * s1 + s2)
    ensures Reading(Pow(2, w), zs[..], neg) == Reading(Pow(2, w), xs[..n], neg) / Pow(2, w * s1 + s2)
    ensures neg && s1 < n && Pow(Pow(2, w), n) <= 2 * Val(Pow(2, w), xs[..n]) ==> 0 < Val(Pow(2, w), zs[..])
  {
    hide Val, Pow, From, Reading;
    var B := Pow(2, w);
    PowPositive(2, w);
    PowPositive(2, s2);
    ghost var x := xs[..n];
    assert xs[s1..n] == x[s1..];
    ReadingDrop(B, x, neg, s1);
    ShrDigits(w, s2, xs, s1, zs.Length, zs, Fill(B, neg));
    assert zs[..zs.Length] == zs[..];
    ShiftedReading(w, s2, x[s1..], neg, zs[..]);
    if neg && s1 < n && Pow(B, n) <= 2 * Val(B, x) {
      EvenRadix(w);
      TopStays(B, x, s1, Pow(2, s2), zs[..]);
    }
    DivDiv(Reading(B, x, neg), Pow(B, s1), Pow(2, s2));
    SplitShiftParts(w, s1, s2);
  }

  /** When the pattern is exhausted and its sign with it. */
  ghost predicate LostSign(x: Bignum, shift: nat)
    requires x.Valid()
    reads x, x.digits
  {
    x.Value() < 0 && shift / x.w == x.len && 2 * x.Mag() <= Pow(x.Radix(), x.len)
  }

  /** Beyond all digits only the sign is left. */
  lemma ShiftedOut(w: nat, v: int, n: nat, shift: nat)
    requires 1 <= w && -(Pow(Pow(2, w), n) as int) < v < Pow(Pow(2, w), n) && n <= shift / w
    ensures 0 < Pow(2, shift) && v / Pow(2, shift) == if v < 0 then -1 else 0
  {
    hide Pow;
    PowPositive(2, shift);
    PowOfPow(2, w, n);
    DivModSpec(shift, w);
    MulLe(n, shift / w, w);
    PowExpLe(2, w * n, shift);
    if v < 0 {
      DivModUnique(v, Pow(2, shift), -1, v + Pow(2, shift));
    } else {
      DivModUnique(v, Pow(2, shift), 0, v);
    }
  }

  /** The pattern of x has the digits of x, and one more exactly when its top bit would be clear. */
  lemma PatternLength(x: Bignum, a: seq<nat>)
    requires x.Trimmed() && IsPattern(x.w, a, x.Value())
    ensures |a| == if x.Value() < 0 then PatternLen(x.Radix(), x.Mag(), x.len) else x.len
  {
    EvenRadix(x.w);
    DigitCountOf(x.Radix(), x.digits[..x.len]);
  }

  lemma EmptyPattern(B: nat, s: seq<nat>, neg: bool)
    requires s == []
    ensures Val(B, s) == 0 && Reading(B, s, false) == 0
  {
  }

  /** The pattern of x, shifted into a new buffer, which has no digit when all of them are shifted out. */
  method ShiftPattern(x: Bignum, shift: nat) returns (z: Bignum)
    requires x.Trimmed() && shift / x.w <= x.len
    ensures z.Valid() && fresh(z) && fresh(z.digits) && z.SameBuild(x) && z.sign == x.sign && 0 < Pow(2, shift)
    ensures Reading(z.Radix(), z.digits[..z.len], !x.sign) == x.Value() / Pow(2, shift)
    ensures !x.sign && 0 < z.len ==> 0 < z.Mag()
    ensures if x.sign then 0 <= x.Value() else z.len == 0 <==> LostSign(x, shift)
  {
    hide Val, Pow, Reading, OperandLen, Fill;
    var s1, s2 := shift / x.w, shift % x.w;
    assert x.w * s1 + s2 == shift by { DivModSpec(shift, x.w); }
    var p := Pattern(x);
    PatternLength(x, p.digits[..p.len]);
    z := new Bignum(x.w, x.dpl, p.len - s1, x.sign);
    RShiftDigits(x.w, p.digits, p.len, !x.sign, s1, s2, z.digits);
    assert z.digits[..z.len] == z.digits[..];
  }

  /** Shift the pattern of x, then complement a negative result back. */
  method RShiftPattern(x: Bignum, shift: nat) returns (z: Bignum)
    requires x.Trimmed() && shift / x.w <= x.len
    ensures z.Valid() && fresh(z) && fresh(z.digits) && z.SameBuild(x) && 0 < Pow(2, shift)
    ensures z.Value() == if LostSign(x, shift) then 0 else x.Value() / Pow(2, shift)
  {
    hide Val, Pow, Reading;
    z := ShiftPattern(x, shift);
    if z.len == 0 {
      // get2comp has no digit to work on; bignorm turns the empty buffer into zero
      EmptyPattern(x.Radix(), z.digits[..z.len], !x.sign);
    } else {
      Uncomplement(z);
    }
  }

  /** rb_big_rshift by a shift that is not negative: floor division by 2^shift, unless the sign is lost. */
  method RShift(x: Bignum, shift: nat) returns (r: Integer)
    requires x.Trimmed()
    ensures ValidOperand(x.w, x.dpl, r) && 0 < Pow(2, shift)
    ensures IntegerValue(r) == x.Value() / Pow(2, shift) <==> !LostSign(x, shift)
  {
    hide Val, Pow, Fixable;
    x.NotZero();
    ValBound(x.Radix(), x.digits[..x.len]);
    PowPositive(2, shift);
    if x.len <= shift / x.w { ShiftedOut(x.w, x.Value(), x.len, shift); }
    if shift / x.w > x.len {
      FixableSmall(x.w, x.dpl);
      if x.sign { return Fix(0); } else { return Fix(-1); }
    }
    var z := RShiftPattern(x, shift);
    r := z.Norm();
  }

  /** x << n >> n is x: what was shifted left by n has digits left when shifted back. */
  lemma ShiftBack(y: Bignum, x: int, n: nat)
    requires y.Trimmed() && x != 0 && y.Value() == x * Pow(2, n)
    ensures !LostSign(y, n) && 0 < Pow(2, n) && y.Value() / Pow(2, n) == x
  {
    hide Val, Pow;
    PowPositive(2, n);
    DivModUnique(y.Value(), Pow(2, n), x, 0);
    assert Pow(2, n) <= y.Mag() by {
      if 0 < x { MulLe(1, x, Pow(2, n)); } else { MulLe(x, -1, Pow(2, n)); }
    }
    PowOfPow(2, y.w, n / y.w);
    DivModSpec(n, y.w);
    PowExpLe(2, y.w * (n / y.w), n);
  }

  /** rb_big_lshift for any shift: a negative one goes to rb_big_rshift. */
  method Shift(x: Bignum, shift: int) returns (r: Integer)
    requires x.Trimmed()
    ensures ValidOperand(x.w, x.dpl, r)
    ensures 0 <= shift ==> IntegerValue(r) == x.Value() * Pow(2, shift)
    ensures shift < 0 ==> 0 < Pow(2, -shift)
    ensures shift < 0 ==> (IntegerValue(r) == x.Value() / Pow(2, -shift) <==> !LostSign(x, -shift))
  {
    hide Val, Pow, Fixable, LostSign;
    if shift < 0 {
      r := RShift(x, -shift);
    } else {
      var z := LShift(x, shift);
      r := z.Norm();
    }
  }

  // ---------- rb_big_aref ----------

  /** Bit j of digit i of a pattern is bit w * i + j of the number. */
  lemma {:induction false} PatternBit(w: nat, s: seq<nat>, neg: bool, i: nat, j: nat)
    requires 1 <= w && AllDigits(Pow(2, w), s) && i < |s| && j < w
    ensures Bit(Reading(Pow(2, w), s, neg), w * i + j) <==> Bit(s[i], j)
  {
    hide Bit, Pow, Reading;
    var B := Pow(2, w);
    PowPositive(2, w);
    ReadingStep(B, s, neg);
    if i == 0 {
      DigitBits(w, s[0], Reading(B, s[1..], neg), j);
      assert w * 0 + j == j;
    } else {
      MulDist(w, i - 1, 1);
      DigitBits(w, s[0], Reading(B, s[1..], neg), w * i + j);
      PatternBit(w, s[1..], neg, i - 1, j);
    }
  }

  lemma BitBeyond(w: nat, v: int, n: nat, k: nat)
    requires 1 <= w && -(Pow(Pow(2, w), n) as int) < v < Pow(Pow(2, w), n) && n <= k / w
    ensures Bit(v, k) <==> v < 0
  {
    ShiftedOut(w, v, n, k);
  }

  /** Bit s2 of digit s1 of the pattern. */
  method ArefDigit(x: Bignum, s1: nat, s2: nat) returns (b: bool)
    requires x.Trimmed() && s1 < x.len && s2 < x.w
    ensures b <==> Bit(x.Value(), x.w * s1 + s2)
  {
    hide Val, Pow, Bit, Reading, OperandLen;
    var p := Pattern(x);
    PatternLength(x, p.digits[..p.len]);
    PatternBit(x.w, p.digits[..p.len], x.Value() < 0, s1, s2);
    b := Bit(p.digits[..p.len][s1], s2);
  }

  /** rb_big_aref for a Fixnum index: bit k in infinite two's complement; no bit at a negative index. */
  method ArefFix(x: Bignum, k: int) returns (b: bool)
    requires x.Trimmed()
    ensures b <==> 0 <= k && Bit(x.Value(), k)
  {
    hide Val, Pow, Bit;
    if k < 0 { return false; }
    var s1, s2 := k / x.w, k % x.w;
    if s1 >= x.len {
      x.NotZero();
      ValBound(x.Radix(), x.digits[..x.len]);
      BitBeyond(x.w, x.Value(), x.len, k);
      return !x.sign;
    }
    DivModSpec(k, x.w);
    b := ArefDigit(x, s1, s2);
  }

  lemma BeyondDigits(w: nat, n: nat, k: nat)
    requires 1 <= w && w * n <= k
    ensures n <= k / w
  {
    DivModSpec(k, w);
    if k / w < n { MulLe(k / w + 1, n, w); MulDist(w, k / w, 1); }
  }

  /** The sign of a canonical Bignum. */
  lemma SignOf(x: Bignum)
    requires x.Trimmed()
    ensures x.sign <==> 0 <= x.Value()
  {
    hide Val, Pow;
    x.NotZero();
  }

  lemma SignBeyond(x: Bignum, k: nat)
    requires x.Trimmed() && x.w * x.len <= k
    ensures Bit(x.Value(), k) <==> x.Value() < 0
  {
    hide Val, Pow, Bit;
    BeyondDigits(x.w, x.len, k);
    ValBound(x.Radix(), x.digits[..x.len]);
    BitBeyond(x.w, x.Value(), x.len, k);
  }

  /**
   * rb_big_aref. A Bignum is taken for an index beyond all digits, or for a negative one, unseen; that is
   * right unless x has more bits than a Fixnum can count.
   */
  method Aref(x: Bignum, y: Integer) returns (b: bool)
    requires x.Trimmed() && ValidOperand(x.w, x.dpl, y)
    ensures y.Big? ==> (b <==> 0 <= IntegerValue(y) && x.Value() < 0)
    ensures y.Fix? || IntegerValue(y) < 0 || x.w * x.len <= IntegerValue(y) ==>
              (b <==> 0 <= IntegerValue(y) && Bit(x.Value(), IntegerValue(y)))
  {
    hide Val, Pow, Bit, Fixable;
    if y.Fix? {
      b := ArefFix(x, y.n);
      return;
    }
    b := y.big.sign && !x.sign;
    SignOf(x);
    SignOf(y.big);
    if x.w * x.len <= IntegerValue(y) { SignBeyond(x, IntegerValue(y)); }
  }

  // ---------- inputs on which the source goes wrong ----------

  /** With 32-bit digits: ~(2^64 - 1) loses its carry, ~-(2^64 - 1) keeps an uncomplemented digit. */
  lemma InvertFails(x: Bignum)
    requires x.Trimmed() && x.w == 32 && x.len == 2 && x.Mag() == 0xFFFF_FFFF_FFFF_FFFF
    ensures !InvertsRight(x)
  {
    Pow32();
    assert Pow(0x1_0000_0000, 2) == 0x1_0000_0000_0000_0000;
  }

  /** With 32-bit digits: -2^63 >> 64 yields 0, not -1. */
  lemma SignIsLost(x: Bignum)
    requires x.Trimmed() && x.w == 32 && x.len == 2 && x.Value() == -0x8000_0000_0000_0000
    ensures LostSign(x, 64)
  {
    Pow32();
    assert Pow(0x1_0000_0000, 2) == 0x1_0000_0000_0000_0000;
  }
}
