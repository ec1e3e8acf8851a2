/** Digit patterns read as two's complement numbers, and their bits. */
module TwosComplement {
  import opened Arith
  import opened Digits
  import opened Bits

  /** A pattern stands for its value, less one unit beyond the top when the number is negative. */
  ghost function Reading(B: nat, s: seq<nat>, neg: bool): int {
    if neg then Val(B, s) - Pow(B, |s|) else Val(B, s)
  }

  /** The digit that fills the places above a pattern. */
  function Fill(B: nat, neg: bool): nat
    requires 1 <= B
  {
    if neg then B - 1 else 0
  }

  function Head(B: nat, s: seq<nat>, neg: bool): nat
    requires 1 <= B
  {
    if s == [] then Fill(B, neg) else s[0]
  }

  function Rest(s: seq<nat>): seq<nat> {
    if s == [] then s else s[1..]
  }

  lemma ReadingStep(B: nat, s: seq<nat>, neg: bool)
    requires 1 <= B
    ensures Reading(B, s, neg) == Head(B, s, neg) + B * Reading(B, Rest(s), neg)
  {
    if s == [] {
      assert Pow(B, 0) == 1;
    } else {
      MulDist(B, Val(B, s[1..]), Pow(B, |s| - 1));
    }
  }

  /** Bits of a number in terms of its low digit and the digits above it. */
  lemma DigitBits(w: nat, d: nat, high: int, k: nat)
    requires d < Pow(2, w)
    ensures Bit(d + Pow(2, w) * high, k) <==> if k < w then Bit(d, k) else Bit(high, k - w)
  {
    if k < w {
      BitLow(d, high, w, k);
    } else {
      BitHigh(d + Pow(2, w) * high, w, k - w);
      DivModUnique(d + Pow(2, w) * high, Pow(2, w), high, d);
    }
  }

  /** z is a op b digit by digit, with the shorter a continued by its fill digit. */
  ghost predicate Combined(B: nat, op: Op, a: seq<nat>, na: bool, b: seq<nat>, z: seq<nat>) {
    && 1 <= B && |a| <= |b| == |z|
    && (forall i :: 0 <= i < |a| ==> z[i] == Bitwise(op, a[i], b[i]))
    && (forall i :: |a| <= i < |b| ==> z[i] == Bitwise(op, Fill(B, na), b[i]))
  }

  /** Combining patterns digit by digit combines the numbers bit by bit, at every position. */
  lemma {:induction false} CombinedBits(w: nat, op: Op, a: seq<nat>, na: bool, b: seq<nat>, nb: bool, z: seq<nat>,
        k: nat)
    requires 1 <= w && Combined(Pow(2, w), op, a, na, b, z)
    requires AllDigits(Pow(2, w), a) && AllDigits(Pow(2, w), b)
    ensures Bit(Reading(Pow(2, w), z, Apply(op, na, nb)), k)
        <==> Apply(op, Bit(Reading(Pow(2, w), a, na), k), Bit(Reading(Pow(2, w), b, nb), k))
    decreases |b|
  {
    hide Bit, Pow, Reading, Bitwise;
    var B, nz := Pow(2, w), Apply(op, na, nb);
    if b == [] {
      EmptyReading(B, na, k);
      EmptyReading(B, nb, k);
      EmptyReading(B, nz, k);
    } else {
      var ha := Head(B, a, na);
      assert z[0] == Bitwise(op, ha, b[0]);
      ReadingStep(B, a, na);
      ReadingStep(B, b, nb);
      ReadingStep(B, z, nz);
      BitwiseIsDigit(op, ha, b[0], w);
      DigitBits(w, ha, Reading(B, Rest(a), na), k);
      DigitBits(w, b[0], Reading(B, b[1..], nb), k);
      DigitBits(w, z[0], Reading(B, z[1..], nz), k);
      if k < w {
        BitwiseBit(op, ha, b[0], k);
      } else {
        CombinedBits(w, op, Rest(a), na, b[1..], nb, z[1..], k - w);
      }
    }
  }

  lemma EmptyReading(B: nat, neg: bool, k: nat)
    ensures Bit(Reading(B, [], neg), k) <==> neg
  {
    assert Pow(B, 0) == 1 && Pow(2, 0) == 1;
    BitSign(0, 0, k);
  }

  // ---------- the negation of a pattern ----------

  ghost function Complement(B: nat, s: seq<nat>): seq<nat>
    requires AllDigits(B, s)
  {
    seq(|s|, i requires 0 <= i < |s| => (B - 1 - s[i]) as nat)
  }

  lemma {:induction false} ComplementValue(B: nat, s: seq<nat>)
    requires 1 <= B && AllDigits(B, s)
    ensures Val(B, Complement(B, s)) == Pow(B, |s|) - 1 - Val(B, s)
    ensures AllDigits(B, Complement(B, s))
  {
    if s != [] {
      ComplementValue(B, s[1..]);
      assert Complement(B, s)[1..] == Complement(B, s[1..]);
      MulDist(B, Pow(B, |s| - 1) - 1, Val(B, s[1..]));
      MulDist(B, Pow(B, |s| - 1), 1);
    }
  }

  /** The top bit of a pattern, as the size of its value. */
  lemma TopBit(B: nat, s: seq<nat>)
    requires 2 <= B && B % 2 == 0 && s != [] && AllDigits(B, s)
    ensures s[|s| - 1] < B / 2 <==> 2 * Val(B, s) < Pow(B, |s|)
  {
    var n := |s| - 1;
    var p, t := Pow(B, n), s[n];
    assert s[..n + 1] == s;
    ValTake(B, s, n);
    ValBound(B, s[..n]);
    assert Pow(B, |s|) == B * p;
    TopBitArithmetic(B / 2, p, t, Val(B, s[..n]));
    assert B * p == 2 * ((B / 2) * p) by { MulAssoc(2, B / 2, p); }
  }

  lemma TopBitArithmetic(h: nat, p: nat, t: nat, low: nat)
    requires low < p
    ensures t < h <==> low + p * t < h * p
  {
    if t < h {
      MulLe(t + 1, h, p);
      MulDist(p, t, 1);
    } else {
      MulLe(h, t, p);
    }
  }

  // ---------- patterns of a common length ----------

  ghost function Padded(B: nat, s: seq<nat>, neg: bool, n: nat): seq<nat>
    requires 1 <= B && |s| <= n
    decreases n
  {
    if |s| == n then s else Padded(B, s, neg, n - 1) + [Fill(B, neg)]
  }

  lemma {:induction false} PaddedDigits(B: nat, s: seq<nat>, neg: bool, n: nat)
    requires 1 <= B && |s| <= n
    ensures |Padded(B, s, neg, n)| == n
    ensures forall i :: 0 <= i < n ==> Padded(B, s, neg, n)[i] == if i < |s| then s[i] else Fill(B, neg)
    decreases n
  {
    if |s| != n { PaddedDigits(B, s, neg, n - 1); }
  }

  lemma {:induction false} PaddedReading(B: nat, s: seq<nat>, neg: bool, n: nat)
    requires 1 <= B && |s| <= n
    ensures Reading(B, Padded(B, s, neg, n), neg) == Reading(B, s, neg)
    decreases n
  {
    if |s| != n {
      var p := Padded(B, s, neg, n - 1);
      PaddedReading(B, s, neg, n - 1);
      FillStep(B, p, neg);
    }
  }

  lemma FillStep(B: nat, p: seq<nat>, neg: bool)
    requires 1 <= B
    ensures Reading(B, p + [Fill(B, neg)], neg) == Reading(B, p, neg)
  {
    ValSnoc(B, p, Fill(B, neg));
    MulDist(Pow(B, |p|), B, 1);
  }

  lemma {:induction false} XorZero(a: nat, b: nat)
    ensures Bitwise(XorOp, a, b) == 0 <==> a == b
  {
    if a != 0 || b != 0 { XorZero(a / 2, b / 2); }
  }

  lemma {:induction false} ZeroDigits(B: nat, s: seq<nat>)
    requires 1 <= B
    ensures Val(B, s) == 0 <==> forall i :: 0 <= i < |s| ==> s[i] == 0
  {
    if s != [] {
      ZeroDigits(B, s[1..]);
      MulLe(0, Val(B, s[1..]), B);
      if Val(B, s[1..]) != 0 { MulLe(1, Val(B, s[1..]), B); }
      assert forall i :: 0 < i < |s| ==> s[i] == s[1..][i - 1];
    }
  }

  /** The non-negative of two numbers of opposite sign, less the negative one. */
  ghost function Difference(B: nat, a: seq<nat>, na: bool, b: seq<nat>): int {
    if na then Reading(B, b, false) - Reading(B, a, true) else Reading(B, a, false) - Reading(B, b, true)
  }

  /** Patterns of opposite sign cancel exactly when the numbers are a power of the radix apart. */
  lemma XorCancels(B: nat, a: seq<nat>, na: bool, b: seq<nat>, z: seq<nat>)
    requires 1 <= B && AllDigits(B, a) && AllDigits(B, b) && Combined(B, XorOp, a, na, b, z)
    ensures Val(B, z) == 0 <==> Difference(B, a, na, b) == Pow(B, |b|)
  {
    var p := Padded(B, a, na, |b|);
    PaddedReading(B, a, na, |b|);
    PaddedDigits(B, a, na, |b|);
    ZeroDigits(B, z);
    forall i | 0 <= i < |b| ensures z[i] == 0 <==> p[i] == b[i] { XorZero(p[i], b[i]); }
    if Val(B, p) == Val(B, b) { ValUnique(B, p, b); }
    assert Val(B, z) == 0 <==> p == b;
  }
}
