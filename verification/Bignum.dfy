/** The Bignum object: sign and magnitude over a little-endian digit buffer. */
module Bignums {
  import opened Arith
  import opened Digits

  /** An Integer: an immediate Fixnum, or a reference to a Bignum. */
  datatype Integer = Fix(n: int) | Big(big: Bignum)

  /** The word sizes a build fixes: BITSPERDIG and DIGSPERLONG. */
  ghost predicate Build(w: nat, dpl: nat) {
    1 <= w && 1 <= dpl && 4 <= w * dpl
  }

  /** Values a tagged Fixnum can hold, for a long of the given number of digits. */
  ghost predicate Fixable(w: nat, dpl: nat, v: int) {
    var quarter := Pow(2, w * dpl) / 4;
    -quarter <= v < quarter
  }

  class Bignum {
    const w: nat    // BITSPERDIG
    const dpl: nat  // DIGSPERLONG
    var sign: bool  // true for values >= 0
    var len: nat
    var digits: array<nat>

    function Radix(): (r: nat)
      ensures 1 <= r
    {
      PowPositive(2, w);
      Pow(2, w)
    }

    ghost predicate Valid()
      reads this, digits
    {
      && Build(w, dpl)
      && len <= digits.Length
      && AllDigits(Radix(), digits[..len])
    }

    ghost function Mag(): nat
      requires Valid()
      reads this, digits
    {
      Val(Radix(), digits[..len])
    }

    ghost function Value(): int
      requires Valid()
      reads this, digits
    {
      var m: int := Mag();
      if sign then m else -m
    }

    /** No leading zero digit, except for a lone zero; zero is never negative. */
    ghost predicate Trimmed()
      reads this, digits
    {
      && Valid() && 1 <= len
      && (len == 1 || digits[len - 1] != 0)
      && (len == 1 && digits[0] == 0 ==> sign)
    }

    ghost predicate SameBuild(that: Bignum) {
      w == that.w && dpl == that.dpl
    }

    /** bignew: the digits are not initialised by the caller yet. */
    constructor (w: nat, dpl: nat, len: nat, sign: bool)
      requires Build(w, dpl)
      ensures Valid() && fresh(this) && fresh(digits)
      ensures this.w == w && this.dpl == dpl && this.len == len && this.sign == sign
      ensures digits.Length == len && forall i :: 0 <= i < len ==> digits[i] == 0
    {
      this.w := w;
      this.dpl := dpl;
      this.len := len;
      this.sign := sign;
      digits := new nat[len](_ => 0);
    }

    method Clone() returns (z: Bignum)
      requires Valid()
      ensures z.Valid() && fresh(z) && fresh(z.digits) && z.SameBuild(this)
      ensures z.sign == sign && z.len == len && z.digits[..z.len] == digits[..len]
      ensures z.digits.Length == len
    {
      z := new Bignum(w, dpl, len, sign);
      forall i | 0 <= i < len { z.digits[i] := digits[i]; }
      assert z.digits[..len] == digits[..len];
    }

    lemma OneDigit()
      requires Valid() && 1 <= len
      ensures len == 1 ==> Mag() == digits[0]
    {
      if len == 1 {
        assert digits[..len] == [digits[0]];
        ValSingle(Radix(), digits[0]);
      }
    }

    /** A trimmed magnitude below the radix is a single digit. */
    lemma TrimmedDigit()
      requires Valid() && 1 <= len && (len == 1 || digits[len - 1] != 0) && Mag() < Radix()
      ensures len == 1 && digits[0] == Mag()
    {
      if len != 1 {
        ValTop(Radix(), digits[..len]);
        assert Pow(Radix(), 1) == Radix() * Pow(Radix(), 0) == Radix();
        PowOrder(Radix(), len - 1, 1);
      }
      OneDigit();
    }

    /** BIGZEROP on an object that is a single digit whenever it is zero. */
    lemma NotZero()
      requires Valid() && 1 <= len && (len == 1 || digits[len - 1] != 0 || 0 < Mag())
      ensures len == 1 && digits[0] == 0 <==> Mag() == 0
    {
      OneDigit();
      if len != 1 && digits[len - 1] != 0 {
        ValTop(Radix(), digits[..len]);
        PowPositive(Radix(), len - 1);
      }
    }

    /** Drop leading zero digits. */
    method Trim()
      requires Valid()
      modifies this`len
      ensures Valid() && len <= old(len) && Mag() == old(Mag())
      ensures len == 0 || digits[len - 1] != 0
    {
      var n := len;
      while n > 0 && digits[n - 1] == 0
        invariant 0 <= n <= len
        invariant forall i :: n <= i < len ==> digits[i] == 0
      {
        n := n - 1;
      }
      ValPad(Radix(), digits[..len], n);
      assert digits[..len][..n] == digits[..n];
      len := n;
    }

    /** The digits read into an unsigned long, from the top down. */
    method ToUlong() returns (num: nat)
      requires Valid()
      ensures num == Mag()
    {
      num := 0;
      var n := len;
      assert digits[..len][n..] == [];
      while n > 0
        invariant 0 <= n <= len
        invariant num == Val(Radix(), digits[..len][n..])
      {
        n := n - 1;
        ValDrop(Radix(), digits[..len], n);
        num := num * Radix() + digits[n];
      }
      assert digits[..len][0..] == digits[..len];
    }

    /** bignorm: trim, and turn the object into a Fixnum exactly when its value fits one. */
    method Norm() returns (r: Integer)
      requires Valid()
      modifies this`len
      ensures Valid() && len <= old(len) && Value() == old(Value())
      ensures r.Fix? <==> Fixable(w, dpl, Value())
      ensures r.Fix? ==> r.n == Value()
      ensures r.Big? ==> r.big == this && Trimmed()
    {
      Trim();
      TrimmedSize();
      if len <= dpl {
        var u: int := ToUlong();
        var word: int := Pow(2, w * dpl);
        // u read back as a signed long
        var num: int := if u < word / 2 then u else u - word;
        if num >= 0 {
          if sign {
            if num <= word / 4 - 1 { return Fix(num); }
          } else if -num >= -(word / 4) {
            return Fix(-num);
          }
        }
      }
      r := Big(this);
    }

    /** rb_uint2big: the digits of an unsigned long, trimmed but for a last zero. */
    constructor FromUlong(w: nat, dpl: nat, n: nat)
      requires Build(w, dpl) && n < Pow(2, w * dpl)
      ensures Trimmed() && fresh(this) && fresh(digits) && this.w == w && this.dpl == dpl
      ensures sign && Value() == n
    {
      this.w := w;
      this.dpl := dpl;
      sign := true;
      len := dpl;
      digits := new nat[dpl](_ => 0);
      new;
      PowOfPow(2, w, dpl);
      SplitDigits(Radix(), n, digits);
      ghost var s := digits[..];
      var i := dpl - 1;
      while i > 0 && digits[i] == 0
        invariant 0 <= i < dpl && digits[..] == s
        invariant forall k :: i < k < dpl ==> s[k] == 0
      {
        i := i - 1;
      }
      len := i + 1;
      ValPad(Radix(), s, i + 1);
      assert digits[..len] == s[..i + 1];
    }

    /** rb_int2big. */
    static method FromLong(w: nat, dpl: nat, n: int) returns (b: Bignum)
      requires Build(w, dpl)
      requires -(Pow(2, w * dpl) as int) < n < Pow(2, w * dpl)
      ensures b.Trimmed() && fresh(b) && fresh(b.digits) && b.w == w && b.dpl == dpl
      ensures b.Value() == n
    {
      if n < 0 {
        b := new Bignum.FromUlong(w, dpl, -n);
        b.OneDigit();
        b.sign := false;
      } else {
        b := new Bignum.FromUlong(w, dpl, n);
      }
    }

    lemma TrimmedSize()
      requires Valid() && (len == 0 || digits[len - 1] != 0)
      ensures len <= dpl ==> Mag() < Pow(2, w * dpl)
      ensures dpl < len ==> Pow(2, w * dpl) <= Mag()
      ensures Pow(2, w * dpl) == 4 * (Pow(2, w * dpl) / 4)
      ensures len == 0 ==> Mag() == 0
    {
      var B, s := Radix(), digits[..len];
      TrimmedBounds(B, s, dpl);
      PowOfPow(2, w, dpl);
      QuarterWord(w * dpl);
    }
  }

  /** The low digits of n, least significant first; nothing is left when n fits the buffer. */
  method SplitDigits(B: nat, n: nat, ds: array<nat>)
    requires 1 <= B && n < Pow(B, ds.Length)
    modifies ds
    ensures AllDigits(B, ds[..]) && Val(B, ds[..]) == n
  {
    hide Carried, Pow, Val;
    var num: int, i := n, 0;
    assert Carried(B, ds[..0], n, n) by { SplitStart(B, n); }
    while i < ds.Length
      invariant 0 <= i <= ds.Length && 0 <= num
      invariant Carried(B, ds[..i], num, n)
    {
      ghost var s := ds[..i];
      assert Carried(B, s + [Lo(B, num)], Hi(B, num), n) by { SplitStep(B, s, num, n); }
      ds[i] := Lo(B, num);
      HiIsDigit(B, num, num + 1);
      num := Hi(B, num);
      i := i + 1;
      assert ds[..i] == s + [ds[i - 1]];
    }
    assert ds[..i] == ds[..];
    SplitEnd(B, ds[..], num, n);
    CarryDone(B, ds[..], n);
  }

  lemma SplitStart(B: nat, n: nat)
    ensures Carried(B, [], n, n)
  {
  }

  lemma SplitStep(B: nat, s: seq<nat>, num: int, n: int)
    requires 1 <= B && Carried(B, s, num, n)
    ensures Carried(B, s + [Lo(B, num)], Hi(B, num), n)
  {
    CarryStep(B, s, num, n, 0);
    assert Pow(B, |s|) * 0 == 0;
  }

  lemma SplitEnd(B: nat, s: seq<nat>, num: nat, n: nat)
    requires 1 <= B && Carried(B, s, num, n) && n < Pow(B, |s|)
    ensures num == 0
  {
    if 0 < num { MulLe(1, num, Pow(B, |s|)); }
  }

  /** An operand of the given build: a Fixnum in range, or a trimmed Bignum. */
  ghost predicate ValidOperand(w: nat, dpl: nat, v: Integer)
    reads if v.Big? then {v.big, v.big.digits} else {}
  {
    match v
    case Fix(n) => Fixable(w, dpl, n)
    case Big(b) => b.Trimmed() && b.w == w && b.dpl == dpl
  }

  ghost function IntegerValue(v: Integer): int
    requires v.Big? ==> v.big.Valid()
    reads if v.Big? then {v.big, v.big.digits} else {}
  {
    match v
    case Fix(n) => n
    case Big(b) => b.Value()
  }

  lemma FixableFits(w: nat, dpl: nat, n: int)
    requires Fixable(w, dpl, n)
    ensures -(Pow(2, w * dpl) as int) < n < Pow(2, w * dpl)
  {
    PowPositive(2, w * dpl);
  }

  lemma FixableSmall(w: nat, dpl: nat)
    requires Build(w, dpl)
    ensures Fixable(w, dpl, 0) && Fixable(w, dpl, -1) && Fixable(w, dpl, 1)
  {
    PowExpLe(2, 3, w * dpl);
    assert Pow(2, 1) == 2 && Pow(2, 2) == 4 && Pow(2, 3) == 8;
  }

  /** An operand as a Bignum: a Fixnum goes through rb_int2big. */
  method ToBig(w: nat, dpl: nat, v: Integer) returns (b: Bignum)
    requires Build(w, dpl) && ValidOperand(w, dpl, v)
    ensures b.Trimmed() && b.w == w && b.dpl == dpl && b.Value() == IntegerValue(v)
    ensures v.Big? ==> b == v.big
    ensures v.Fix? ==> fresh(b) && fresh(b.digits)
  {
    match v
    case Fix(n) =>
      FixableFits(w, dpl, n);
      b := Bignum.FromLong(w, dpl, n);
    case Big(x) =>
      b := x;
  }

  lemma TrimmedBounds(B: nat, s: seq<nat>, n: nat)
    requires 1 <= B && AllDigits(B, s) && (s == [] || s[|s| - 1] != 0)
    ensures |s| <= n ==> Val(B, s) < Pow(B, n)
    ensures n < |s| ==> Pow(B, n) <= Val(B, s)
  {
    ValBound(B, s);
    if |s| <= n {
      PowExpLe(B, |s|, n);
    } else {
      ValTop(B, s);
      PowExpLe(B, n, |s| - 1);
    }
  }

  lemma QuarterWord(bits: nat)
    requires 2 <= bits
    ensures Pow(2, bits) == 4 * (Pow(2, bits) / 4)
  {
    assert Pow(2, bits) == 2 * Pow(2, bits - 1) && Pow(2, bits - 1) == 2 * Pow(2, bits - 2);
  }
}
