/** Bitwise operators on Bignums through in-place two's complement. */
module BignumBits {
  import opened Arith
  import opened Digits
  import opened Bits
  import opened TwosComplement
  import opened Bignums
  import opened BignumAdd
  import opened BignumMul

  // ---------- get2comp ----------

  method ComplementDigits(B: nat, ds: array<nat>, n: nat)
    requires 1 <= B && n <= ds.Length && AllDigits(B, ds[..n])
    modifies ds
    ensures ds[..n] == Complement(B, old(ds[..n])) && forall i :: n <= i < ds.Length ==> ds[i] == old(ds[i])
  {
    ghost var s := ds[..n];
    var i := n;
    while i > 0
      invariant 0 <= i <= n
      invariant forall k :: 0 <= k < i ==> ds[k] == s[k]
      invariant forall k :: i <= k < n ==> ds[k] == B - 1 - s[k]
      invariant forall k :: n <= k < ds.Length ==> ds[k] == old(ds[k])
    {
      i := i - 1;
      assert s[i] < B;
      ds[i] := B - 1 - ds[i];
    }
  }

  /** Add one to the n digits of ds; the carry out of the top is dropped, num says if there was one. */
  method AddOne(B: nat, ds: array<nat>, n: nat) returns (ghost num: int)
    requires 2 <= B && n <= ds.Length && AllDigits(B, ds[..n])
    modifies ds
    ensures 0 <= num <= 1 && AllDigits(B, ds[..n]) && forall i :: n <= i < ds.Length ==> ds[i] == old(ds[i])
    ensures Val(B, ds[..n]) + Pow(B, n) * num == Val(B, old(ds[..n])) + 1
  {
    hide Carried, Val, Pow;
    ghost var y := ds[..n];
    var i, carry: int := 0, 1;
    SplitStart(B, 1);
    CarryStart(B);
    assert ds[..0] == [] && y[..0] == [];
    while i < n
      invariant 0 <= i <= n && 0 <= carry <= 1 && ds[i..n] == y[i..]
      invariant forall k :: n <= k < ds.Length ==> ds[k] == old(ds[k])
      invariant Carried(B, ds[..i], carry, 1 + Val(B, y[..i]))
    {
      ghost var s := ds[..i];
      assert ds[i] == ds[i..n][0] == y[i];
      CarryColumn(B, 1, y, i, s, carry);
      carry := carry + ds[i];
      ds[i] := Lo(B, carry);
      carry := Hi(B, carry);
      i := i + 1;
      assert ds[..i] == s + [ds[i - 1]];
      assert ds[i..n] == y[i..];
    }
    assert y[..n] == y;
    num := carry;
    AddOneEnd(B, ds[..n], num, Val(B, y) + 1);
  }

  lemma AddOneEnd(B: nat, s: seq<nat>, num: int, total: int)
    requires Carried(B, s, num, total)
    ensures AllDigits(B, s) && Val(B, s) + Pow(B, |s|) * num == total
  {
  }

  /** The two's complement of n digits worth mag: B^n - mag, but zero when there is nothing to negate. */
  lemma NegatedValue(B: nat, n: nat, mag: nat, comp: nat, v: nat, num: int)
    requires comp == Pow(B, n) - 1 - mag && v + Pow(B, n) * num == comp + 1 && 0 <= num <= 1 && v < Pow(B, n)
    ensures v == if mag == 0 then 0 else Pow(B, n) - mag
  {
  }

  method NegateDigits(B: nat, ds: array<nat>, n: nat)
    requires 2 <= B && n <= ds.Length && AllDigits(B, ds[..n])
    modifies ds
    ensures AllDigits(B, ds[..n])
    ensures var mag := Val(B, old(ds[..n])); Val(B, ds[..n]) == if mag == 0 then 0 else Pow(B, n) - mag
  {
    hide Val, Pow;
    ghost var s := ds[..n];
    ComplementValue(B, s);
    ComplementDigits(B, ds, n);
    ghost var num := AddOne(B, ds, n);
    ValBound(B, ds[..n]);
    NegatedValue(B, n, Val(B, s), Val(B, Complement(B, s)), Val(B, ds[..n]), num);
  }

  /** How many digits the two's complement of a magnitude takes when its top bit must be set. */
  ghost function PatternLen(B: nat, mag: nat, n: nat): nat {
    if 2 * mag <= Pow(B, n) then n else n + 1
  }

  lemma EvenRadix(w: nat)
    requires 1 <= w
    ensures 2 <= Pow(2, w) && Pow(2, w) % 2 == 0
  {
    PowPositive(2, w - 1);
  }

  lemma OnesOnTop(B: nat, s: seq<nat>, mag: nat)
    requires 2 <= B && mag <= Pow(B, |s|) && Val(B, s) == Pow(B, |s|) - mag
    ensures Val(B, s + [B - 1]) == Pow(B, |s| + 1) - mag
    ensures Pow(B, |s| + 1) <= 2 * Val(B, s + [B - 1])
  {
    ValSnoc(B, s, B - 1);
    MulDist(Pow(B, |s|), B, 1);
    MulLe(2, B, Pow(B, |s|));
  }

  /** get2comp. With carry set, a digit of ones is added on top when the top bit would be clear. */
  method Get2comp(x: Bignum, carry: bool)
    requires x.Valid() && 1 <= x.len
    modifies x, x.digits
    ensures x.Valid() && x.sign == old(x.sign) && (x.digits == old(x.digits) || fresh(x.digits))
    ensures !carry ==> x.len == old(x.len)
    ensures carry && 0 < old(x.Mag()) ==> x.len == PatternLen(x.Radix(), old(x.Mag()), old(x.len))
    ensures carry && 0 < old(x.Mag()) ==> Pow(x.Radix(), x.len) <= 2 * x.Mag()
    ensures 0 < old(x.Mag()) ==> x.Mag() == Pow(x.Radix(), x.len) - old(x.Mag())
    ensures old(x.Mag()) == 0 && !carry ==> x.Mag() == 0
    ensures AllDigits(x.Radix(), old(x.digits)[..old(x.len)])
    ensures old(x.len) <= x.len <= old(x.len) + 1 && (x.digits == old(x.digits) <==> x.len == old(x.len))
    ensures 0 < old(x.Mag()) ==> Val(x.Radix(), x.digits[..old(x.len)]) == Pow(x.Radix(), old(x.len)) - old(x.Mag())
    ensures x.len == old(x.len) + 1 ==> x.digits[..x.len] == x.digits[..old(x.len)] + [x.Radix() - 1]
  {
    hide Val, Pow;
    var B := x.Radix();
    EvenRadix(x.w);
    NegateDigits(B, x.digits, x.len);
    if !carry { return; }
    ghost var s := x.digits[..x.len];
    ghost var mag := old(x.Mag());
    TopBit(B, s);
    assert s[x.len - 1] == x.digits[x.len - 1];
    if x.digits[x.len - 1] < B / 2 {
      if 0 < mag {
        ValBound(B, old(x.digits[..x.len]));
        OnesOnTop(B, s, mag);
      }
      Extend(x, B - 1);
      assert x.digits[..x.len] == s + [B - 1];
      assert x.digits[..old(x.len)] == x.digits[..x.len][..old(x.len)] == s;
      assert old(x.digits)[..old(x.len)] == s;
    }
  }

  /** REALLOC_N to one more digit, which is set to top. */
  method Extend(x: Bignum, top: nat)
    requires x.Valid() && top < x.Radix()
    modifies x
    ensures x.Valid() && x.sign == old(x.sign) && fresh(x.digits)
    ensures x.len == old(x.len) + 1 && x.digits[..x.len] == old(x.digits[..x.len]) + [top]
  {
    var ds := new nat[x.len + 1](_ => 0);
    forall i | 0 <= i < x.len { ds[i] := x.digits[i]; }
    ds[x.len] := top;
    assert ds[..x.len + 1] == x.digits[..x.len] + [top];
    x.digits := ds;
    x.len := x.len + 1;
  }

  // ---------- and, or, xor ----------

  /** Digits of an operand's pattern: those of the magnitude, and one more where the top bit needs it. */
  ghost function OperandLen(w: nat, v: int): nat
    requires 1 <= w
  {
    EvenRadix(w);
    var B := Pow(2, w);
    if v < 0 then PatternLen(B, -v, DigitCount(B, -v)) else DigitCount(B, v)
  }

  /** a is the pattern of x, as get2comp leaves it. */
  ghost predicate IsPattern(w: nat, a: seq<nat>, x: int) {
    && 1 <= w && 1 <= |a| && AllDigits(Pow(2, w), a)
    && Reading(Pow(2, w), a, x < 0) == x && |a| == OperandLen(w, x)
    && (x < 0 ==> Pow(Pow(2, w), |a|) <= 2 * Val(Pow(2, w), a))
  }

  /** An operand as the digit loops see it: a negative number as its two's complement pattern. */
  method Pattern(x: Bignum) returns (p: Bignum)
    requires x.Trimmed()
    ensures p.Valid() && p.SameBuild(x) && p.sign == x.sign && (x.Value() < 0 <==> !x.sign)
    ensures p == x || (fresh(p) && fresh(p.digits))
    ensures 1 <= p.len && IsPattern(p.w, p.digits[..p.len], x.Value())
  {
    hide Val, Pow;
    p := x;
    x.NotZero();
    EvenRadix(x.w);
    DigitCountOf(x.Radix(), x.digits[..x.len]);
    if !x.sign {
      p := x.Clone();
      Get2comp(p, true);
    }
  }

  /** What the source writes above the shorter operand's digits. */
  function TailDigit(B: nat, op: Op, sign: bool, d: nat): nat
    requires d < B
  {
    match op
    case AndOp => if sign then 0 else d
    case OrOp => if sign then d else B - 1
    case XorOp => if sign then d else B - 1 - d
  }

  lemma {:induction false} BitwiseZero(op: Op, d: nat)
    ensures Bitwise(op, 0, d) == if op.AndOp? then 0 else d
  {
    if d != 0 { BitwiseZero(op, d / 2); }
  }

  lemma {:induction false} BitwiseOnes(op: Op, w: nat, d: nat)
    requires d < Pow(2, w)
    ensures 1 <= Pow(2, w)
    ensures Bitwise(op, Pow(2, w) - 1, d) ==
            match op case AndOp => d case OrOp => Pow(2, w) - 1 case XorOp => Pow(2, w) - 1 - d
  {
    PowPositive(2, w);
    if w != 0 {
      BitwiseOnes(op, w - 1, d / 2);
      assert (Pow(2, w) - 1) / 2 == Pow(2, w - 1) - 1 && (Pow(2, w) - 1) % 2 == 1;
    }
  }

  lemma TailIsFill(w: nat, op: Op, sign: bool, d: nat)
    requires d < Pow(2, w)
    ensures 1 <= Pow(2, w) && TailDigit(Pow(2, w), op, sign, d) == Bitwise(op, Fill(Pow(2, w), !sign), d)
  {
    BitwiseOnes(op, w, d);
    BitwiseZero(op, d);
  }

  /** The digit loops shared by rb_big_and, rb_big_or and rb_big_xor; a is the shorter pattern. */
  method CombineDigits(w: nat, op: Op, a: array<nat>, l1: nat, sign: bool, b: array<nat>, l2: nat, zs: array<nat>)
    requires l1 <= l2 == zs.Length && l1 <= a.Length && l2 <= b.Length && zs != a && zs != b && 1 <= w
    requires AllDigits(Pow(2, w), a[..l1]) && AllDigits(Pow(2, w), b[..l2])
    modifies zs
    ensures AllDigits(Pow(2, w), zs[..]) && Combined(Pow(2, w), op, a[..l1], !sign, b[..l2], zs[..])
  {
    hide Pow, Bitwise, TailDigit;
    ghost var s, t := a[..l1], b[..l2];
    PowPositive(2, w);
    var i := 0;
    while i < l1
      invariant 0 <= i <= l1 && a[..l1] == s && b[..l2] == t && AllDigits(Pow(2, w), zs[..i])
      invariant forall k :: 0 <= k < i ==> zs[k] == Bitwise(op, s[k], t[k])
    {
      assert a[i] == s[i] && b[i] == t[i];
      BitwiseIsDigit(op, a[i], b[i], w);
      zs[i] := Bitwise(op, a[i], b[i]);
      i := i + 1;
    }
    while i < l2
      invariant l1 <= i <= l2 && b[..l2] == t && AllDigits(Pow(2, w), zs[..i]) && a[..l1] == s
      invariant forall k :: 0 <= k < l1 ==> zs[k] == Bitwise(op, s[k], t[k])
      invariant forall k :: l1 <= k < i ==> zs[k] == Bitwise(op, Fill(Pow(2, w), !sign), t[k])
    {
      assert b[i] == t[i];
      TailIsFill(w, op, sign, b[i]);
      BitwiseIsDigit(op, Fill(Pow(2, w), !sign), b[i], w);
      zs[i] := TailDigit(Pow(2, w), op, sign, b[i]);
      i := i + 1;
    }
    assert zs[..l2] == zs[..];
  }

  /** The pattern of the result, before a negative one is complemented back. */
  method Combine(op: Op, x: Bignum, y: Bignum) returns (z: Bignum)
    requires x.Valid() && y.Valid() && x.SameBuild(y)
    ensures z.Valid() && fresh(z) && fresh(z.digits) && z.SameBuild(x)
    ensures z.len == if x.len > y.len then x.len else y.len
    ensures !z.sign <==> Apply(op, !x.sign, !y.sign)
    ensures if x.len > y.len
            then Combined(x.Radix(), op, y.digits[..y.len], !y.sign, x.digits[..x.len], z.digits[..z.len])
            else Combined(x.Radix(), op, x.digits[..x.len], !x.sign, y.digits[..y.len], z.digits[..z.len])
  {
    hide Val, Pow, Bitwise;
    var short, long := x, y;
    if x.len > y.len { short, long := y, x; }
    var sign := match op case AndOp => x.sign || y.sign case OrOp => x.sign && y.sign case XorOp => x.sign == y.sign;
    z := new Bignum(x.w, x.dpl, long.len, sign);
    CombineDigits(x.w, op, short.digits, short.len, short.sign, long.digits, long.len, z.digits);
    assert z.digits[..z.len] == z.digits[..];
  }

  /** Bit by bit, v is x op y. */
  ghost predicate IsBitwise(op: Op, x: int, y: int, v: int) {
    forall k: nat :: Bit(v, k) <==> Apply(op, Bit(x, k), Bit(y, k))
  }

  lemma CombinedIsBitwise(w: nat, op: Op, a: seq<nat>, na: bool, b: seq<nat>, nb: bool, z: seq<nat>)
    requires 1 <= w && AllDigits(Pow(2, w), a) && AllDigits(Pow(2, w), b)
    requires if |a| > |b| then Combined(Pow(2, w), op, b, nb, a, z) else Combined(Pow(2, w), op, a, na, b, z)
    ensures IsBitwise(op, Reading(Pow(2, w), a, na), Reading(Pow(2, w), b, nb),
                      Reading(Pow(2, w), z, Apply(op, na, nb)))
  {
    forall k: nat
      ensures Bit(Reading(Pow(2, w), z, Apply(op, na, nb)), k)
          <==> Apply(op, Bit(Reading(Pow(2, w), a, na), k), Bit(Reading(Pow(2, w), b, nb), k))
    {
      if |a| > |b| {
        CombinedBits(w, op, b, nb, a, na, z, k);
      } else {
        CombinedBits(w, op, a, na, b, nb, z, k);
      }
    }
  }

  /** The bits fix the number. */
  lemma BitwiseUnique(op: Op, x: int, y: int, u: int, v: int)
    requires IsBitwise(op, x, y, u) && IsBitwise(op, x, y, v)
    ensures u == v
  {
    forall k: nat ensures Bit(u, k) <==> Bit(v, k) { }
    SameBits(u, v);
  }

  /**
   * The case get2comp cannot represent: the result is minus a power of the radix, all of whose
   * digits in the pattern are zero. x and y are then that power apart.
   */
  ghost predicate LostCarry(w: nat, op: Op, x: int, y: int)
    requires 1 <= w
  {
    var lx, ly := OperandLen(w, x), OperandLen(w, y);
    && op.XorOp? && (x < 0) != (y < 0)
    && (if x < 0 then y - x else x - y) == Pow(Pow(2, w), if lx > ly then lx else ly)
  }

  /** For & and | a negative result always keeps a nonzero top digit: some operand's top bit is set in it. */
  lemma TopDigitKept(w: nat, op: Op, a: seq<nat>, na: bool, b: seq<nat>, nb: bool, z: seq<nat>)
    requires 1 <= w && 1 <= |b| && AllDigits(Pow(2, w), a) && AllDigits(Pow(2, w), b) && !op.XorOp?
    requires Combined(Pow(2, w), op, a, na, b, z) && Apply(op, na, nb)
    requires na && a != [] ==> Pow(2, w) <= 2 * a[|a| - 1]
    requires nb ==> Pow(2, w) <= 2 * b[|b| - 1]
    ensures 0 < Val(Pow(2, w), z)
  {
    var n := |b| - 1;
    var ha := if |a| == |b| then a[n] else Fill(Pow(2, w), na);
    EvenRadix(w);
    TopBitKept(w, op, ha, na, b[n], nb);
    assert z[n] != 0;
    ValTop(Pow(2, w), z);
    PowPositive(Pow(2, w), n);
  }

  lemma TopBitKept(w: nat, op: Op, a: nat, na: bool, b: nat, nb: bool)
    requires 1 <= w && !op.XorOp? && Apply(op, na, nb) && a < Pow(2, w) && b < Pow(2, w)
    requires (na ==> Pow(2, w) <= 2 * a) && (nb ==> Pow(2, w) <= 2 * b)
    ensures Bitwise(op, a, b) != 0
  {
    BitwiseBit(op, a, b, w - 1);
    if na { TopBitSet(w, a); }
    if nb { TopBitSet(w, b); }
    BitSign(0, 0, w - 1);
    assert Pow(2, 0) == 1;
  }

  lemma TopBitSet(w: nat, d: nat)
    requires 1 <= w && d < Pow(2, w) <= 2 * d
    ensures Bit(d, w - 1)
  {
    PowPositive(2, w - 1);
    DivModUnique(d, Pow(2, w - 1), 1, d - Pow(2, w - 1));
  }

  /** The top digit of a pattern whose value is in the upper half. */
  lemma UpperHalf(B: nat, s: seq<nat>)
    requires 2 <= B && B % 2 == 0 && s != [] && AllDigits(B, s) && Pow(B, |s|) <= 2 * Val(B, s)
    ensures B <= 2 * s[|s| - 1]
  {
    TopBit(B, s);
  }

  /** When the result pattern of a negative number is all zero: only for ^, and only in the lost-carry case. */
  lemma PatternIsZero(w: nat, op: Op, a: seq<nat>, na: bool, b: seq<nat>, nb: bool, z: seq<nat>)
    requires 1 <= w && 1 <= |a| && 1 <= |b| && AllDigits(Pow(2, w), a) && AllDigits(Pow(2, w), b)
    requires Combined(Pow(2, w), op, a, na, b, z) && Apply(op, na, nb)
    requires na ==> Pow(Pow(2, w), |a|) <= 2 * Val(Pow(2, w), a)
    requires nb ==> Pow(Pow(2, w), |b|) <= 2 * Val(Pow(2, w), b)
    ensures Val(Pow(2, w), z) == 0 <==> (op.XorOp? && Difference(Pow(2, w), a, na, b) == Pow(Pow(2, w), |b|))
  {
    hide Pow, Val, Bitwise;
    EvenRadix(w);
    if op.XorOp? {
      XorCancels(Pow(2, w), a, na, b, z);
    } else {
      if na { UpperHalf(Pow(2, w), a); }
      if nb { UpperHalf(Pow(2, w), b); }
      TopDigitKept(w, op, a, na, b, nb, z);
    }
  }

  /** Complement a negative result back; a pattern of zeros stays zero. */
  method Uncomplement(z: Bignum)
    requires z.Valid() && 1 <= z.len
    modifies z, z.digits
    ensures z.Valid() && z.sign == old(z.sign) && (z.digits == old(z.digits) || fresh(z.digits))
    ensures z.Value() == if !z.sign && old(z.Mag()) == 0 then 0 else Reading(z.Radix(), old(z.digits[..z.len]), !z.sign)
  {
    hide Val, Pow;
    PowPositive(z.Radix(), z.len);
    if !z.sign { Get2comp(z, false); }
  }

  /** A number with the right bits is the right number, so a lost carry shows. */
  lemma RightIffKept(op: Op, x: int, y: int, v: int, z: int, lost: bool)
    requires IsBitwise(op, x, y, v) && z == (if lost then 0 else v) && (lost ==> v != 0)
    ensures IsBitwise(op, x, y, z) <==> !lost
  {
    if lost && IsBitwise(op, x, y, z) { BitwiseUnique(op, x, y, z, v); }
  }

  /** The combined pattern is zero exactly in the lost-carry case. */
  lemma ZeroPattern(w: nat, op: Op, a: seq<nat>, na: bool, b: seq<nat>, nb: bool, z: seq<nat>)
    requires 1 <= w && 1 <= |a| && 1 <= |b| && AllDigits(Pow(2, w), a) && AllDigits(Pow(2, w), b)
    requires if |a| > |b| then Combined(Pow(2, w), op, b, nb, a, z) else Combined(Pow(2, w), op, a, na, b, z)
    requires na ==> Pow(Pow(2, w), |a|) <= 2 * Val(Pow(2, w), a)
    requires nb ==> Pow(Pow(2, w), |b|) <= 2 * Val(Pow(2, w), b)
    requires |a| == OperandLen(w, Reading(Pow(2, w), a, na)) && |b| == OperandLen(w, Reading(Pow(2, w), b, nb))
    requires Reading(Pow(2, w), a, na) < 0 <==> na
    requires Reading(Pow(2, w), b, nb) < 0 <==> nb
    ensures (Apply(op, na, nb) && Val(Pow(2, w), z) == 0)
       <==> LostCarry(w, op, Reading(Pow(2, w), a, na), Reading(Pow(2, w), b, nb))
  {
    hide Val, Pow, Bitwise, Combined, Reading, OperandLen;
    if Apply(op, na, nb) {
      if |a| > |b| {
        PatternIsZero(w, op, b, nb, a, na, z);
      } else {
        PatternIsZero(w, op, a, na, b, nb, z);
      }
    }
  }

  lemma CombinedResult(w: nat, op: Op, a: seq<nat>, x: int, b: seq<nat>, y: int, z: seq<nat>, neg: bool)
    requires IsPattern(w, a, x) && IsPattern(w, b, y) && (neg <==> Apply(op, x < 0, y < 0))
    requires if |a| > |b| then Combined(Pow(2, w), op, b, y < 0, a, z) else Combined(Pow(2, w), op, a, x < 0, b, z)
    ensures IsBitwise(op, x, y, Reading(Pow(2, w), z, neg))
    ensures neg && Val(Pow(2, w), z) == 0 <==> LostCarry(w, op, x, y)
    ensures neg && Val(Pow(2, w), z) == 0 ==> Reading(Pow(2, w), z, neg) != 0
  {
    hide Val, Pow, Bitwise, IsBitwise, LostCarry, OperandLen, Reading, Combined;
    CombinedIsBitwise(w, op, a, x < 0, b, y < 0, z);
    ZeroPattern(w, op, a, x < 0, b, y < 0, z);
    PowPositive(2, w);
    if neg && Val(Pow(2, w), z) == 0 { ReadingZero(Pow(2, w), z, neg); }
  }

  /** The combined pattern, complemented back: right unless the carry was lost. */
  lemma RightUnlessLost(w: nat, op: Op, a: seq<nat>, x: int, b: seq<nat>, y: int, c: seq<nat>, neg: bool, z: int)
    requires IsPattern(w, a, x) && IsPattern(w, b, y) && (neg <==> Apply(op, x < 0, y < 0))
    requires if |a| > |b| then Combined(Pow(2, w), op, b, y < 0, a, c) else Combined(Pow(2, w), op, a, x < 0, b, c)
    requires z == if neg && Val(Pow(2, w), c) == 0 then 0 else Reading(Pow(2, w), c, neg)
    ensures IsBitwise(op, x, y, z) <==> !LostCarry(w, op, x, y)
  {
    hide Val, Pow, Bitwise, IsBitwise, LostCarry, OperandLen, Reading, Combined, IsPattern;
    CombinedResult(w, op, a, x, b, y, c, neg);
    RightIffKept(op, x, y, Reading(Pow(2, w), c, neg), z, neg && Val(Pow(2, w), c) == 0);
  }

  /** The operators on two Bignums. */
  method BitOpBig(op: Op, xx: Bignum, yy: Bignum) returns (z: Bignum)
    requires xx.Trimmed() && yy.Trimmed() && xx.SameBuild(yy)
    ensures z.Valid() && z.SameBuild(xx) && fresh(z) && fresh(z.digits)
    ensures IsBitwise(op, xx.Value(), yy.Value(), z.Value()) <==> !LostCarry(xx.w, op, xx.Value(), yy.Value())
  {
    hide Val, Pow, Bitwise, IsBitwise, LostCarry, OperandLen, Reading, Combined, IsPattern;
    var y := Pattern(yy);
    var x := Pattern(xx);
    z := Combine(op, x, y);
    ghost var c := z.digits[..z.len];
    ghost var a, b := x.digits[..x.len], y.digits[..y.len];
    Uncomplement(z);
    RightUnlessLost(xx.w, op, a, xx.Value(), b, yy.Value(), c, !z.sign, z.Value());
  }

  lemma ReadingZero(B: nat, s: seq<nat>, neg: bool)
    requires 1 <= B && neg && Val(B, s) == 0
    ensures Reading(B, s, neg) != 0
  {
    PowPositive(B, |s|);
  }

  /**
   * rb_big_and, rb_big_or, rb_big_xor: the result is right at every bit position exactly when no
   * carry is lost, which never happens for & and |.
   */
  method BitOp(op: Op, xx: Bignum, yy: Integer) returns (r: Integer)
    requires xx.Trimmed() && ValidOperand(xx.w, xx.dpl, yy)
    ensures ValidOperand(xx.w, xx.dpl, r)
    ensures IsBitwise(op, xx.Value(), IntegerValue(yy), IntegerValue(r))
       <==> !LostCarry(xx.w, op, xx.Value(), IntegerValue(yy))
  {
    hide Val, Pow, Bitwise, IsBitwise, LostCarry;
    var y := ToBig(xx.w, xx.dpl, yy);
    var z := BitOpBig(op, xx, y);
    r := z.Norm();
  }

  /** With 32-bit digits, (2^63 + 1) ^ -(2^63 - 1) is -2^64, whose pattern is two zero digits. */
  lemma CarryIsLost()
    ensures LostCarry(32, XorOp, 0x8000_0000_0000_0001, -0x7FFF_FFFF_FFFF_FFFF)
  {
    Pow32();
    assert DigitCount(0x1_0000_0000, 0x8000_0000_0000_0001) == 2;
    assert DigitCount(0x1_0000_0000, 0x7FFF_FFFF_FFFF_FFFF) == 2;
    assert Pow(0x1_0000_0000, 2) == 0x1_0000_0000_0000_0000;
  }

  lemma Pow32()
    ensures Pow(2, 32) == 0x1_0000_0000
  {
    PowAdd(2, 16, 16);
    assert Pow(2, 8) == 256;
    PowAdd(2, 8, 8);
  }
}
