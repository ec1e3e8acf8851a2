/** Characters of a numeral, and strtoul as the C standard describes it. */
module NumberText {
  import opened Arith
  import opened Numerals

  predicate IsSpace(c: char) {
    c == ' ' || 9 as char <= c <= 13 as char
  }

  function At(s: string, p: nat): char {
    if p < |s| then s[p] else '\0'
  }

  /** Where the blanks in front end; underscores count as blanks unless the string is checked. */
  function BlankEnd(s: string, p: nat, badcheck: bool): (q: nat)
    requires p <= |s|
    ensures p <= q <= |s|
    decreases |s| - p
  {
    if p < |s| && (IsSpace(s[p]) || (!badcheck && s[p] == '_')) then BlankEnd(s, p + 1, badcheck) else p
  }

  method SkipBlanks(str: string, p0: nat, badcheck: bool) returns (p: nat)
    requires p0 <= |str|
    ensures p == BlankEnd(str, p0, badcheck)
  {
    p := p0;
    while p < |str| && (IsSpace(str[p]) || (!badcheck && str[p] == '_'))
      invariant p <= |str| && BlankEnd(str, p, badcheck) == BlankEnd(str, p0, badcheck)
    {
      p := p + 1;
    }
  }

  lemma {:induction false} OnlyBlanks(s: string, p: nat)
    requires p <= |s|
    ensures BlankEnd(s, p, true) == |s| <==> forall i :: p <= i < |s| ==> IsSpace(s[i])
    decreases |s| - p
  {
    if p < |s| { OnlyBlanks(s, p + 1); }
  }

  // ---------- strtoul ----------

  predicate IsDigit(base: nat, c: char) {
    0 <= CharDigit(c) < base
  }

  /** Where a run of digits ends. */
  function RunEnd(base: nat, s: string, p: nat): (q: nat)
    requires p <= |s|
    ensures p <= q <= |s| && forall i :: p <= i < q ==> IsDigit(base, s[i])
    ensures q < |s| ==> !IsDigit(base, s[q])
    decreases |s| - p
  {
    if p < |s| && IsDigit(base, s[p]) then RunEnd(base, s, p + 1) else p
  }

  /** The number a run of digits stands for, read on from acc. */
  ghost function RunValue(base: nat, s: string, p: nat, acc: nat): nat
    requires p <= |s|
    decreases |s| - p
  {
    if p < |s| && IsDigit(base, s[p]) then RunValue(base, s, p + 1, Push(base, acc, CharDigit(s[p]))) else acc
  }

  /** Where strtoul starts to read digits: behind blanks, one sign, and 0x for radix 16 before a digit. */
  function DigitsAt(base: nat, s: string, p: nat): (q: nat)
    requires p <= |s|
    ensures p <= q <= |s|
  {
    var a := BlankEnd(s, p, true);
    var b := if At(s, a) == '+' || At(s, a) == '-' then a + 1 else a;
    if base == 16 && At(s, b) == '0' && (At(s, b + 1) == 'x' || At(s, b + 1) == 'X') && IsDigit(16, At(s, b + 2))
    then b + 2 else b
  }

  /** Where strtoul stops; where it started, if there is no digit. */
  function StopsAt(base: nat, s: string, p: nat): (q: nat)
    requires p <= |s|
    ensures p <= q <= |s|
  {
    var c := DigitsAt(base, s, p);
    if RunEnd(base, s, c) == c then p else RunEnd(base, s, c)
  }

  /** -v in a word with that many values; a number that does not fit there is an overflow. */
  function Negated(word: nat, v: nat): nat {
    if 0 < v < word then word - v else 0
  }

  /** The unsigned number strtoul returns, for words with that many values, when there is no overflow. */
  ghost function Unsigned(word: nat, base: nat, s: string, p: nat): nat
    requires p <= |s| && 0 < word
  {
    var v := RunValue(base, s, DigitsAt(base, s, p), 0);
    if At(s, BlankEnd(s, p, true)) == '-' then Negated(word, v) else v
  }

  /** n digits stand for a number below base^n. */
  lemma {:induction false} RunBound(base: nat, s: string, p: nat, acc: nat, k: nat)
    requires 2 <= base && p <= |s| && acc < Pow(base, k)
    ensures RunValue(base, s, p, acc) < Pow(base, k + (|s| - p))
    decreases |s| - p
  {
    hide Push;
    if p < |s| && IsDigit(base, s[p]) {
      PushBound(base, acc, CharDigit(s[p]), k);
      RunBound(base, s, p + 1, Push(base, acc, CharDigit(s[p])), k + 1);
    } else {
      PowExpLe(base, k, k + (|s| - p));
    }
  }

  lemma PushBound(base: nat, acc: nat, d: nat, n: nat)
    requires 2 <= base && acc < Pow(base, n) && d < base
    ensures Push(base, acc, d) < Pow(base, n + 1)
  {
    MulLe(acc + 1, Pow(base, n), base);
    MulDist(base, acc, 1);
  }

  /** A string short enough for a word cannot overflow. */
  lemma NoOverflow(word: nat, base: nat, s: string, p: nat)
    requires 2 <= base && p <= |s| && Pow(base, |s| - p) <= word
    ensures 0 < word && Unsigned(word, base, s, p) < word
    ensures RunValue(base, s, DigitsAt(base, s, p), 0) < word
  {
    hide Pow, Push, RunValue, DigitsAt;
    var c := DigitsAt(base, s, p);
    assert Pow(base, 0) == 1 by { PowNothing(base); }
    RunBound(base, s, c, 0, 0);
    PowExpLe(base, |s| - c, |s| - p);
  }

  lemma PowNothing(base: nat)
    ensures Pow(base, 0) == 1
  {
  }

  /** Blanks, sign and prefix. */
  method SkipToDigits(base: nat, str: string, p0: nat) returns (p: nat, minus: bool)
    requires p0 <= |str|
    ensures p == DigitsAt(base, str, p0) && minus == (At(str, BlankEnd(str, p0, true)) == '-')
  {
    hide IsDigit, BlankEnd;
    p := SkipBlanks(str, p0, true);
    minus := false;
    if At(str, p) == '+' {
      p := p + 1;
    } else if At(str, p) == '-' {
      p := p + 1;
      minus := true;
    }
    if base == 16 && At(str, p) == '0' && (At(str, p + 1) == 'x' || At(str, p + 1) == 'X') {
      if IsDigit(16, At(str, p + 2)) { p := p + 2; }
    }
  }

  method ReadRun(base: nat, str: string, start: nat) returns (val: nat, p: nat)
    requires start <= |str|
    ensures p == RunEnd(base, str, start) && val == RunValue(base, str, start, 0)
  {
    p, val := start, 0;
    while p < |str| && IsDigit(base, str[p])
      invariant start <= p <= |str| && RunEnd(base, str, p) == RunEnd(base, str, start)
      invariant RunValue(base, str, p, val) == RunValue(base, str, start, 0)
    {
      val, p := Push(base, val, CharDigit(str[p])), p + 1;
    }
  }

  /** strtoul, for a string that does not overflow. */
  method Strtoul(word: nat, base: nat, str: string, p0: nat) returns (val: nat, end: nat)
    requires 2 <= base && p0 <= |str| && Pow(base, |str| - p0) <= word
    ensures 0 < word && val == Unsigned(word, base, str, p0) && end == StopsAt(base, str, p0)
  {
    hide Pow, RunValue, DigitsAt, BlankEnd, RunEnd;
    NoOverflow(word, base, str, p0);
    var start, minus := SkipToDigits(base, str, p0);
    var p;
    val, p := ReadRun(base, str, start);
    end := if p == start then p0 else p;
    if minus && val != 0 { val := word - val; }
  }
}
