/** The one-digit quotient estimate of bigdivrem, as a statement about integers. */
module TrialDigit {
  import opened Arith

  /** The estimate from the top two digits a, b of the window and the top digit t of the divisor. */
  function Trial(B: nat, a: nat, b: nat, t: nat): nat
    requires 0 < t && 0 < B
  {
    if a == t then B - 1 else (a * B + b) / t
  }

  /**
   * A divisor y with top digit t over weight p, and a window v with top digits a, b over the same
   * weight, whose quotient is a single digit.
   */
  ghost predicate Window(B: nat, p: nat, y: nat, t: nat, v: nat, a: nat, b: nat) {
    && 2 <= B && 1 <= p && 1 <= t < B && b < B && 1 <= y
    && t * p <= y < (t + 1) * p
    && (a * B + b) * p <= v < (a * B + b + 1) * p
    && v < B * y
  }

  lemma TopDigitAtMost(B: nat, p: nat, y: nat, t: nat, v: nat, a: nat, b: nat)
    requires Window(B, p, y, t, v, a, b)
    ensures a <= t
  {
    if t < a {
      MulLe(t + 1, a, B);
      MulLe((t + 1) * B, a * B + b, p);
      MulLe(y, (t + 1) * p, B);
      MulAssoc(B, t + 1, p);
    }
  }

  /** The estimate is a digit, and its product with t stays within the two top digits. */
  lemma TrialIsDigit(B: nat, p: nat, y: nat, t: nat, v: nat, a: nat, b: nat)
    requires Window(B, p, y, t, v, a, b)
    ensures Trial(B, a, b, t) < B
    ensures Trial(B, a, b, t) * t <= a * B + b
    ensures a != t ==> a * B + b < (Trial(B, a, b, t) + 1) * t
  {
    TopDigitAtMost(B, p, y, t, v, a, b);
    if a == t {
      MulLe(B - 1, B, t);
    } else {
      QuotientIsDigit(B, a, b, t);
    }
  }

  lemma QuotientIsDigit(B: nat, a: nat, b: nat, t: nat)
    requires a < t && b < B
    ensures (a * B + b) / t < B
    ensures (a * B + b) / t * t <= a * B + b < ((a * B + b) / t + 1) * t
  {
    var two := a * B + b;
    MulLe(a + 1, t, B);
    assert (a + 1) * B == a * B + B;
    DivModSpec(two, t);
    DivBounds(two, t, 0, B);
    assert (two / t + 1) * t == two / t * t + t;
  }

  /** The estimate is never below the true digit. */
  lemma TrialNotBelow(B: nat, p: nat, y: nat, t: nat, v: nat, a: nat, b: nat)
    requires Window(B, p, y, t, v, a, b)
    ensures v < (Trial(B, a, b, t) + 1) * y
  {
    var q, two := Trial(B, a, b, t), a * B + b;
    if a != t {
      TrialIsDigit(B, p, y, t, v, a, b);
      MulLe(two + 1, (q + 1) * t, p);
      MulLe(t * p, y, q + 1);
      MulAssoc(q + 1, t, p);
    }
  }

  /** One digit subtracted too much at most: the product exceeds the window by less than B * p. */
  lemma TrialProduct(B: nat, p: nat, y: nat, t: nat, v: nat, a: nat, b: nat)
    requires Window(B, p, y, t, v, a, b)
    ensures Trial(B, a, b, t) * y < v + B * p
  {
    var q, two := Trial(B, a, b, t), a * B + b;
    TrialIsDigit(B, p, y, t, v, a, b);
    var low := y - t * p;
    assert q * y == q * (t * p) + q * low by { MulDist(q, t * p, low); }
    assert q * (t * p) <= v by {
      MulAssoc(q, t, p);
      MulLe(q * t, two, p);
    }
    assert low < p by { MulDist(p, t, 1); }
    assert q * low < B * p by {
      MulLe(low, p, q);
      MulLt(q, B, p);
    }
  }

  /** With a normalised divisor the estimate is the true digit d, or one or two more. */
  lemma TrialAtMostTwoAbove(B: nat, p: nat, y: nat, t: nat, v: nat, a: nat, b: nat, d: nat)
    requires Window(B, p, y, t, v, a, b) && B <= 2 * t
    requires d * y <= v < (d + 1) * y
    ensures d <= Trial(B, a, b, t) <= d + 2
  {
    hide Trial;
    TrialNotBelow(B, p, y, t, v, a, b);
    TrialIsDigit(B, p, y, t, v, a, b);
    AtMostTwo(B, p, y, t, v, a * B + b, Trial(B, a, b, t), d);
  }

  lemma AtMostTwo(B: nat, p: nat, y: nat, t: nat, v: nat, two: nat, q: nat, d: nat)
    requires d * y <= v < (d + 1) * y && v < (q + 1) * y && q * t <= two && q < B <= 2 * t
    requires two * p <= v && t * p <= y < (t + 1) * p && 1 <= p && 0 < y
    ensures d <= q <= d + 2
  {
    if q < d { MulLe(q + 1, d, y); }
    if d + 3 <= q { TooLarge(B, p, y, t, v, two, q, d); }
  }

  lemma TooLarge(B: nat, p: nat, y: nat, t: nat, v: nat, two: nat, q: nat, d: nat)
    requires d + 3 <= q && B <= 2 * t && 1 <= p && q * t <= two && two * p <= v < (d + 1) * y
    requires t * p <= y < (t + 1) * p
    ensures B < d + 3
  {
    assert (d + 3) * (t * p) <= v by {
      MulLe(d + 3, q, t);
      MulLe((d + 3) * t, two, p);
      MulAssoc(d + 3, t, p);
    }
    assert (d + 3) * (y - p) <= (d + 3) * (t * p) by {
      MulDist(p, t, 1);
      MulLe(y - p, t * p, d + 3);
    }
    assert 2 * y < (d + 3) * p by {
      MulDist(d + 3, y, p);
      MulDist(y, d + 1, 2);
    }
    assert B * p <= 2 * y by {
      MulLe(B, 2 * t, p);
      MulAssoc(2, t, p);
    }
    if d + 3 <= B { MulLe(d + 3, B, p); }
  }
}
