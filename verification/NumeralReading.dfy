/** What rb_cstr_to_inum reads, told from the characters alone: radix prefixes, underscores, blanks and signs. */
module NumeralReading {
  import opened Arith
  import opened Numerals
  import opened NumberText
  import opened BignumToString
  import opened BignumFromString

  // ---------- numerals ----------

  /** Digits of the base and underscores. */
  predicate Numeral(base: nat, t: string) {
    forall i :: 0 <= i < |t| ==> t[i] == '_' || IsDigit(base, t[i])
  }

  /** The values of the digits, underscores left out. */
  function DigitsOf(base: nat, t: string): seq<nat>
    requires Numeral(base, t)
  {
    if t == [] then []
    else if t[0] == '_' then DigitsOf(base, t[1..])
    else [CharDigit(t[0])] + DigitsOf(base, t[1..])
  }

  predicate Doubled(t: string) {
    exists i :: 0 < i < |t| && t[i - 1] == '_' && t[i] == '_'
  }

  /** An underscore in front, behind, or next to another one. */
  predicate Misplaced(t: string) {
    t != [] && (t[0] == '_' || t[|t| - 1] == '_' || Doubled(t))
  }

  predicate Blank(t: string) {
    forall i :: 0 <= i < |t| ==> IsSpace(t[i])
  }

  /** The part of s from p to e is a numeral, and what is behind it cannot go on with it. */
  predicate NumeralAt(base: nat, s: string, p: nat, e: nat) {
    && 2 <= base <= 36 && p <= e <= |s| && Numeral(base, s[p..e])
    && (e < |s| ==> s[e] != '_' && CharDigit(s[e]) == -1)
  }

  lemma NumeralNext(base: nat, s: string, p: nat, e: nat)
    requires NumeralAt(base, s, p, e) && p < e
    ensures NumeralAt(base, s, p + 1, e) && s[p..e] == [s[p]] + s[p + 1..e]
    ensures s[p] == '_' || IsDigit(base, s[p])
    ensures s[p] == '_' ==> DigitsOf(base, s[p..e]) == DigitsOf(base, s[p + 1..e])
    ensures s[p] != '_' ==> DigitsOf(base, s[p..e]) == [CharDigit(s[p])] + DigitsOf(base, s[p + 1..e])
  {
    var t, u := s[p..e], s[p + 1..e];
    assert t[0] == s[p] && t[1..] == u;
    forall i | 0 <= i < |u| ensures u[i] == '_' || IsDigit(base, u[i]) {
      assert u[i] == t[i + 1];
    }
  }

  lemma HornerNext(base: nat, d: nat, ds: seq<nat>, acc: nat)
    ensures Horner(base, [d] + ds, acc) == Horner(base, ds, Push(base, acc, d))
  {
    assert ([d] + ds)[1..] == ds;
  }

  lemma DoubledNext(s: string, p: nat, e: nat)
    requires p < e <= |s|
    ensures Doubled(s[p..e]) <==> (p + 1 < e && s[p] == '_' && s[p + 1] == '_') || Doubled(s[p + 1..e])
  {
    var t, u := s[p..e], s[p + 1..e];
    assert forall i :: 0 <= i < |u| ==> u[i] == t[i + 1];
    if i :| 0 < i < |u| && u[i - 1] == '_' && u[i] == '_' { assert t[i] == '_' && t[i + 1] == '_'; }
    if i :| 0 < i < |t| && t[i - 1] == '_' && t[i] == '_' {
      if i > 1 { assert u[i - 2] == '_' && u[i - 1] == '_'; }
    }
    if p + 1 < e && s[p] == '_' && s[p + 1] == '_' { assert t[0] == '_' && t[1] == '_'; }
  }

  // ---------- the loop over the characters ----------

  /** Underscores are passed over; when they are checked, not two in a row. */
  lemma {:induction false} ScanNumeral(base: nat, s: string, p: nat, e: nat, acc: nat, nondigit: bool, badcheck: bool)
    requires NumeralAt(base, s, p, e)
    ensures ScanFrom(base, s, p, acc, nondigit, badcheck)
         == if badcheck && ((nondigit && p < e && s[p] == '_') || Doubled(s[p..e])) then DoubleUnderscore
            else Stop(Horner(base, DigitsOf(base, s[p..e]), acc), e)
    decreases e - p
  {
    hide Push, Horner, Doubled, Numeral, DigitsOf;
    if p == e {
      NothingLeft(base, s, p, acc);
    } else {
      NumeralNext(base, s, p, e);
      DoubledNext(s, p, e);
      if s[p] == '_' {
        ScanNumeral(base, s, p + 1, e, acc, badcheck, badcheck);
      } else {
        HornerNext(base, CharDigit(s[p]), DigitsOf(base, s[p + 1..e]), acc);
        ScanNumeral(base, s, p + 1, e, Push(base, acc, CharDigit(s[p])), false, badcheck);
      }
    }
  }

  lemma NothingLeft(base: nat, s: string, p: nat, acc: nat)
    requires p <= |s|
    ensures s[p..p] == [] && Numeral(base, s[p..p]) && !Doubled(s[p..p])
    ensures Horner(base, DigitsOf(base, s[p..p]), acc) == acc
  {
  }

  lemma LastOf(s: string, p: nat, e: nat)
    requires p < e <= |s|
    ensures s[p..e][0] == s[p] && s[p..e][|s[p..e]| - 1] == s[e - 1] && s[p..e] != []
  {
  }

  lemma RestBlank(s: string, e: nat)
    requires e <= |s|
    ensures Blank(s[e..]) <==> forall i :: e <= i < |s| ==> IsSpace(s[i])
  {
    if Blank(s[e..]) {
      forall i | e <= i < |s| ensures IsSpace(s[i]) { assert s[i] == s[e..][i - e]; }
    }
  }

  /**
   * A checked numeral is malformed exactly for an underscore in front, behind or next to another one, or for
   * anything but blanks behind the numeral.
   */
  lemma MalformedIff(base: nat, s: string, p: nat, e: nat)
    requires NumeralAt(base, s, p, e) && p < e
    ensures Malformed(base, s, p) <==> Misplaced(s[p..e]) || !Blank(s[e..])
  {
    hide ScanFrom, Horner, DigitsOf, Doubled, Numeral, Blank;
    ScanNumeral(base, s, p, e, 0, false, true);
    LastOf(s, p, e);
    RestBlank(s, e);
    hide NumeralAt;
    assert s[e - 1] == '_' && e <= 1 ==> p == 0 && s[p] == '_';
  }

  // ---------- strtoul ----------

  /** strtoul stops at the first underscore, or reads all there is. */
  lemma {:induction false} RunNumeral(base: nat, s: string, p: nat, e: nat, acc: nat)
    requires NumeralAt(base, s, p, e)
    ensures var q := RunEnd(base, s, p);
            q <= e && (q < e ==> s[q] == '_') && (q == e ==> !Doubled(s[p..e]) && (p < e ==> s[e - 1] != '_'))
            && (q == e ==> RunValue(base, s, p, acc) == Horner(base, DigitsOf(base, s[p..e]), acc))
    ensures p < e && s[p] != '_' ==> p < RunEnd(base, s, p)
    decreases e - p
  {
    hide Push, Horner, Doubled, Numeral, DigitsOf;
    if p == e {
      NothingLeft(base, s, p, acc);
    } else {
      NumeralNext(base, s, p, e);
      DoubledNext(s, p, e);
      if s[p] != '_' {
        HornerNext(base, CharDigit(s[p]), DigitsOf(base, s[p + 1..e]), acc);
        RunNumeral(base, s, p + 1, e, Push(base, acc, CharDigit(s[p])));
      }
    }
  }

  /** Digits and underscores are neither blanks nor signs, nor letters of a prefix of the base. */
  lemma NumeralChar(base: nat, c: char)
    requires 2 <= base <= 36 && (c == '_' || IsDigit(base, c))
    ensures !IsSpace(c) && c != '+' && c != '-'
    ensures (base == 16 ==> c != 'x' && c != 'X') && (base == 2 ==> c != 'b' && c != 'B')
    ensures (base == 8 ==> c != 'o' && c != 'O') && (base == 10 ==> c != 'd' && c != 'D')
  {
  }

  lemma OtherChar(c: char)
    requires c != '_' && CharDigit(c) == -1
    ensures c != '0' && c !in "xXbBoOdD"
  {
  }

  /** The character behind a digit or underscore of a numeral is no letter of a prefix. */
  lemma SecondChar(base: nat, s: string, p: nat, e: nat)
    requires NumeralAt(base, s, p, e) && p < e
    ensures var c := At(s, p + 1);
            && (base == 16 ==> c != 'x' && c != 'X') && (base == 2 ==> c != 'b' && c != 'B')
            && (base == 8 ==> c != 'o' && c != 'O') && (base == 10 ==> c != 'd' && c != 'D')
            && (base == 8 && s[p] == '0' ==> c !in "xXbBoOdD")
  {
    hide Numeral, DigitsOf, CharDigit;
    NumeralNext(base, s, p, e);
    if p + 1 < e {
      NumeralNext(base, s, p + 1, e);
      NumeralChar(base, s[p + 1]);
      if base == 8 { OctalChar(s[p + 1]); }
    } else if e < |s| {
      OtherChar(s[e]);
    }
  }

  lemma OctalChar(c: char)
    requires c == '_' || IsDigit(8, c)
    ensures c !in "xXbBoOdD"
  {
  }

  lemma NumeralStart(base: nat, s: string, p: nat, e: nat)
    requires NumeralAt(base, s, p, e) && p < e
    ensures !IsSpace(s[p]) && s[p] != '+' && s[p] != '-' && BlankEnd(s, p, true) == p
    ensures DigitsAt(base, s, p) == p && !HasPrefix(base, s, p)
    ensures At(s, e) != '0' && At(s, e) != '_'
  {
    hide Numeral, DigitsOf, CharDigit, IsSpace;
    NumeralNext(base, s, p, e);
    NumeralChar(base, s[p]);
    SecondChar(base, s, p, e);
    if e < |s| { OtherChar(s[e]); }
    hide NumeralAt, IsDigit;
  }

  lemma {:induction false} BlanksEnd(s: string, p: nat, b: nat, badcheck: bool)
    requires p <= b < |s| && forall i :: p <= i < b ==> IsSpace(s[i])
    requires !IsSpace(s[b]) && (badcheck || s[b] != '_')
    ensures BlankEnd(s, p, badcheck) == b
    decreases b - p
  {
    if p < b { BlanksEnd(s, p + 1, b, badcheck); }
  }

  /** strtoul reads blanks, a sign and digits; a minus sign gives the negated number in a word. */
  lemma StrtoulReads(word: nat, base: nat, s: string, p: nat, b: nat, q: nat, e: nat)
    requires NumeralAt(base, s, q, e) && p <= b <= q < e && forall i :: q <= i < e ==> s[i] != '_'
    requires forall i :: p <= i < b ==> IsSpace(s[i])
    requires q == b || (q == b + 1 && (s[b] == '+' || s[b] == '-'))
    requires Horner(base, DigitsOf(base, s[q..e]), 0) < word
    ensures StopsAt(base, s, p) == e
    ensures var v := Horner(base, DigitsOf(base, s[q..e]), 0);
            Unsigned(word, base, s, p) == if q == b + 1 && s[b] == '-' && v != 0 then word - v else v
  {
    hide Numeral, DigitsOf, Horner, CharDigit;
    NumeralStart(base, s, q, e);
    RunNumeral(base, s, q, e, 0);
    assert q == b + 1 ==> !IsSpace(s[b]);
    BlanksEnd(s, p, b, true);
    StartsAt(base, s, p, b, q);
    hide DigitsAt, BlankEnd, RunEnd, RunValue;
  }

  lemma StartsAt(base: nat, s: string, p: nat, b: nat, q: nat)
    requires p <= b <= q < |s| && BlankEnd(s, p, true) == b && BlankEnd(s, q, true) == q && DigitsAt(base, s, q) == q
    requires s[q] != '+' && s[q] != '-' && (q == b || (q == b + 1 && (s[b] == '+' || s[b] == '-')))
    ensures DigitsAt(base, s, p) == q
  {
    hide BlankEnd, IsDigit;
  }

  // ---------- the number ----------

  /** What a numeral with something behind it means. Only Integer() minds underscores and what is behind. */
  ghost function NumeralMeans(base: nat, t: string, rest: string, minus: bool, badcheck: bool): Reading
    requires Numeral(base, t)
  {
    if badcheck && (Misplaced(t) || !Blank(rest)) then NoNumber
    else Value(if minus then -(Horner(base, DigitsOf(base, t), 0) as int) else Horner(base, DigitsOf(base, t), 0))
  }

  lemma ShortMeans(bits: nat, base: nat, s: string, d: nat, e: nat, minus: bool, badcheck: bool)
    requires NumeralAt(base, s, d, e) && d < e && s[d] != '_' && At(s, StopsAt(base, s, d)) != '_'
    ensures ShortNumber(bits, base, s, d, minus, badcheck) == NumeralMeans(base, s[d..e], s[e..], minus, badcheck)
  {
    NumeralStart(base, s, d, e);
    RunNumeral(base, s, d, e, 0);
    LastOf(s, d, e);
    RestBlank(s, e);
    OnlyBlanks(s, e);
    hide NumeralAt, Numeral, DigitsOf, Horner, RunValue, RunEnd, DigitsAt, BlankEnd, Doubled, Blank, Pow;
  }

  lemma LongMeans(base: nat, s: string, d: nat, e: nat, minus: bool, badcheck: bool)
    requires NumeralAt(base, s, d, e) && d < e
    ensures LongNumber(base, s, d, minus, badcheck) == NumeralMeans(base, s[d..e], s[e..], minus, badcheck)
  {
    MalformedIff(base, s, d, e);
    ScanNumeral(base, s, d, e, 0, false, badcheck);
    LastOf(s, d, e);
    hide NumeralAt, Numeral, DigitsOf, Horner, ScanFrom, Doubled, Blank, Malformed;
  }

  lemma MeansAt(bits: nat, base: nat, s: string, d: nat, e: nat, minus: bool, badcheck: bool)
    requires NumeralAt(base, s, d, e) && d < e
    ensures (if Short(bits, base, s, d) then ShortNumber(bits, base, s, d, minus, badcheck)
             else LongNumber(base, s, d, minus, badcheck))
         == NumeralMeans(base, s[d..e], s[e..], minus, badcheck)
  {
    hide ShortNumber, LongNumber, NumeralMeans, Numeral;
    LongMeans(base, s, d, e, minus, badcheck);
    if At(s, StopsAt(base, s, d)) != '_' {
      FirstUnderscore(base, s, d, e);
      ShortMeans(bits, base, s, d, e, minus, badcheck);
    }
  }

  lemma FirstUnderscore(base: nat, s: string, d: nat, e: nat)
    requires NumeralAt(base, s, d, e) && d < e
    ensures s[d] == '_' ==> StopsAt(base, s, d) == d
  {
    NumeralStart(base, s, d, e);
    hide DigitsAt, Numeral;
  }

  /** Zeros in front are skipped. */
  lemma {:induction false} ZerosSkipped(base: nat, s: string, p: nat, e: nat, minus: bool, badcheck: bool)
    requires NumeralAt(base, s, p, e) && p < e
    ensures LastZero(s, p) < e && NumeralAt(base, s, LastZero(s, p), e)
    ensures NumeralMeans(base, s[LastZero(s, p)..e], s[e..], minus, badcheck)
         == NumeralMeans(base, s[p..e], s[e..], minus, badcheck)
    decreases e - p
  {
    NumeralStart(base, s, p, e);
    if At(s, p) == '0' && At(s, p + 1) == '0' {
      NumeralNext(base, s, p, e);
      HornerNext(base, 0, DigitsOf(base, s[p + 1..e]), 0);
      assert Push(base, 0, 0) == 0;
      ZerosSkipped(base, s, p + 1, e, minus, badcheck);
      hide NumeralAt, Numeral, DigitsOf, Horner, Doubled, Blank, Push;
      DoubledNext(s, p, e);
      LastOf(s, p, e);
      LastOf(s, p + 1, e);
    }
  }

  // ---------- the whole string ----------

  /** The radix a prefix stands for. */
  predicate PrefixOf(prefix: string, base: nat) {
    || (base == 16 && (prefix == "0x" || prefix == "0X")) || (base == 2 && (prefix == "0b" || prefix == "0B"))
    || (base == 8 && (prefix == "0o" || prefix == "0O")) || (base == 10 && (prefix == "0d" || prefix == "0D"))
  }

  /**
   * The numeral t is read in this base: as asked for, or, when nothing is asked for, as its prefix says, in
   * base 8 after a plain zero, and else in base 10 or the one named by a negative radix.
   */
  predicate ReadIn(radix: int, base: nat, prefix: string, t: string) {
    || ((radix == base || radix <= 0) && PrefixOf(prefix, base))
    || (prefix == "" && radix == base)
    || (prefix == "" && radix <= 0 && t != [] && base == if t[0] == '0' then 8 else if radix < -1 then -radix else 10)
  }

  /** Blanks, a sign, a prefix, a numeral, and something that does not go on with it. */
  predicate Parts(base: nat, blanks: string, sign: string, prefix: string, t: string, rest: string) {
    && 2 <= base <= 36 && Blank(blanks) && (sign == "" || sign == "+" || sign == "-")
    && (prefix == "" || PrefixOf(prefix, base)) && t != [] && Numeral(base, t)
    && (rest == [] || (rest[0] != '_' && CharDigit(rest[0]) == -1))
  }

  lemma Layout(base: nat, blanks: string, sign: string, prefix: string, t: string, rest: string)
    requires Parts(base, blanks, sign, prefix, t, rest)
    ensures var s, b := blanks + sign + prefix + t + rest, |blanks|;
            var p := b + |sign|;
            var q := p + |prefix|;
            && |s| == q + |t| + |rest| && NumeralAt(base, s, q, q + |t|) && s[q..q + |t|] == t && s[q + |t|..] == rest
            && (forall i :: 0 <= i < b ==> s[i] == blanks[i]) && (sign != "" ==> s[b] == sign[0])
            && (forall i :: 0 <= i < |prefix| ==> s[p + i] == prefix[i]) && s[q] == t[0]
  {
    var s, q := blanks + sign + prefix + t + rest, |blanks| + |sign| + |prefix|;
    assert s[q..q + |t|] == t && s[q + |t|..] == rest;
    if rest != [] { assert s[q + |t|] == rest[0]; }
  }

  /** Prefix and radix are recognized. */
  lemma RadixFound(radix: int, base: nat, s: string, p: nat, prefix: string, t: string, e: nat)
    requires 2 <= base <= 36 && ReadIn(radix, base, prefix, t) && p + |prefix| < |s| && t != []
    requires NumeralAt(base, s, p + |prefix|, e) && p + |prefix| < e && s[p + |prefix|] == t[0]
    requires forall i :: 0 <= i < |prefix| ==> s[p + i] == prefix[i]
    ensures RadixOf(radix, s, p) == base && DigitsStart(base, s, p) == LastZero(s, p + |prefix|)
    ensures s[p] != '+' && s[p] != '-' && !IsSpace(s[p])
  {
    hide Numeral, LastZero, CharDigit, DigitsAt;
    var q := p + |prefix|;
    NumeralStart(base, s, q, e);
    SecondChar(base, s, q, e);
    hide NumeralAt;
    if prefix != "" { assert s[p + 0] == prefix[0] && s[p + 1] == prefix[1]; }
  }

  lemma AtPlaces(bits: nat, radix: int, base: nat, s: string, b: nat, p: nat, badcheck: bool)
    requires b == BlankEnd(s, 0, badcheck) && p == (if At(s, b) == '+' || At(s, b) == '-' then b + 1 else b) <= |s|
    requires At(s, p) != '+' && At(s, p) != '-' && RadixOf(radix, s, p) == base && 2 <= base <= 36
    ensures ReadNumber(bits, radix, s, badcheck)
         == if Short(bits, base, s, DigitsStart(base, s, p))
            then ShortNumber(bits, base, s, DigitsStart(base, s, p), At(s, b) == '-', badcheck)
            else LongNumber(base, s, DigitsStart(base, s, p), At(s, b) == '-', badcheck)
  {
    hide BlankEnd, RadixOf, DigitsStart, Short, ShortNumber, LongNumber;
  }

  lemma SignAt(base: nat, blanks: string, sign: string, prefix: string, t: string, rest: string, badcheck: bool)
    requires Parts(base, blanks, sign, prefix, t, rest) && (badcheck || sign != "" || prefix != "" || t[0] != '_')
    requires var s, p := blanks + sign + prefix + t + rest, |blanks| + |sign|;
             p < |s| && s[p] != '+' && s[p] != '-' && !IsSpace(s[p])
    ensures var s, b, p := blanks + sign + prefix + t + rest, |blanks|, |blanks| + |sign|;
            && BlankEnd(s, 0, badcheck) == b && (At(s, b) == '-' <==> sign == "-")
            && p == if At(s, b) == '+' || At(s, b) == '-' then b + 1 else b
  {
    hide Numeral, Blank, NumeralAt;
    var s, b := blanks + sign + prefix + t + rest, |blanks|;
    Layout(base, blanks, sign, prefix, t, rest);
    BlanksAre(blanks, s);
    assert prefix != "" ==> s[b + |sign| + 0] == prefix[0];
    BlanksEnd(s, 0, b, badcheck);
  }

  /**
   * Blanks, sign and prefix do not get in the way, underscores and leading zeros add nothing, and it makes
   * no difference whether strtoul or the loop reads the digits. Integer() rejects misplaced underscores and
   * anything but blanks behind the numeral, and nothing else of this form.
   */
  lemma ReadsNumeral(bits: nat, radix: int, base: nat, blanks: string, sign: string, prefix: string, t: string,
        rest: string, badcheck: bool)
    requires Parts(base, blanks, sign, prefix, t, rest) && ReadIn(radix, base, prefix, t)
    requires badcheck || sign != "" || prefix != "" || t[0] != '_'
    ensures ReadNumber(bits, radix, blanks + sign + prefix + t + rest, badcheck)
         == if badcheck && (Misplaced(t) || !Blank(rest)) then NoNumber
            else Value(if sign == "-" then -(Horner(base, DigitsOf(base, t), 0) as int)
                       else Horner(base, DigitsOf(base, t), 0))
  {
    hide Numeral, Doubled, Blank, DigitsOf, Horner, DigitsStart, RadixOf, Short, ShortNumber, LongNumber;
    hide ReadNumber, BlankEnd, LastZero, Misplaced, ReadIn, PrefixOf;
    var s, b := blanks + sign + prefix + t + rest, |blanks|;
    var p := b + |sign|;
    var q, e := p + |prefix|, p + |prefix| + |t|;
    Layout(base, blanks, sign, prefix, t, rest);
    RadixFound(radix, base, s, p, prefix, t, e);
    SignAt(base, blanks, sign, prefix, t, rest, badcheck);
    AtPlaces(bits, radix, base, s, b, p, badcheck);
    hide Parts, NumeralAt;
    ZerosSkipped(base, s, q, e, sign == "-", badcheck);
    MeansAt(bits, base, s, DigitsStart(base, s, p), e, sign == "-", badcheck);
  }

  lemma BlanksAre(blanks: string, s: string)
    requires Blank(blanks) && |blanks| <= |s| && forall i :: 0 <= i < |blanks| ==> s[i] == blanks[i]
    ensures forall i :: 0 <= i < |blanks| ==> IsSpace(s[i])
  {
  }

  // ---------- what makes no difference ----------

  /** A numeral without its underscores. */
  function Plain(t: string): string {
    if t == [] then [] else (if t[0] == '_' then [] else [t[0]]) + Plain(t[1..])
  }

  lemma NumeralRest(base: nat, t: string)
    requires Numeral(base, t) && t != []
    ensures Numeral(base, t[1..]) && (t[0] == '_' || IsDigit(base, t[0]))
  {
    var u := t[1..];
    forall i | 0 <= i < |u| ensures u[i] == '_' || IsDigit(base, u[i]) { assert u[i] == t[i + 1]; }
  }

  lemma NumeralMore(base: nat, c: char, t: string)
    requires Numeral(base, t) && IsDigit(base, c) && c != '_'
    ensures Numeral(base, [c] + t) && DigitsOf(base, [c] + t) == [CharDigit(c)] + DigitsOf(base, t)
  {
    assert ([c] + t)[1..] == t;
  }

  lemma {:induction false} PlainDigits(base: nat, t: string)
    requires Numeral(base, t)
    ensures Numeral(base, Plain(t)) && DigitsOf(base, Plain(t)) == DigitsOf(base, t)
    ensures forall i :: 0 <= i < |Plain(t)| ==> Plain(t)[i] != '_'
    ensures t != [] && t[0] != '_' ==> Plain(t) != [] && Plain(t)[0] == t[0]
  {
    if t != [] {
      NumeralRest(base, t);
      PlainDigits(base, t[1..]);
      if t[0] != '_' { NumeralMore(base, t[0], Plain(t[1..])); } else { assert [] + Plain(t[1..]) == Plain(t[1..]); }
    }
  }

  /** A numeral with single underscores between its digits reads as the numeral without them. */
  lemma UnderscoresDoNotCount(bits: nat, radix: int, base: nat, blanks: string, sign: string, prefix: string,
        t: string, rest: string, badcheck: bool)
    requires Parts(base, blanks, sign, prefix, t, rest) && ReadIn(radix, base, prefix, t) && !Misplaced(t)
    ensures ReadNumber(bits, radix, blanks + sign + prefix + t + rest, badcheck)
         == ReadNumber(bits, radix, blanks + sign + prefix + Plain(t) + rest, badcheck)
  {
    hide Numeral, Blank, DigitsOf, Horner, ReadNumber, Plain;
    PlainDigits(base, t);
    assert !Misplaced(Plain(t));
    hide Doubled;
    ReadsNumeral(bits, radix, base, blanks, sign, prefix, t, rest, badcheck);
    ReadsNumeral(bits, radix, base, blanks, sign, prefix, Plain(t), rest, badcheck);
  }

  lemma {:induction false} ZerosInFront(base: nat, zeros: string, t: string)
    requires 2 <= base <= 36 && Numeral(base, t) && forall i :: 0 <= i < |zeros| ==> zeros[i] == '0'
    ensures Numeral(base, zeros + t)
    ensures Horner(base, DigitsOf(base, zeros + t), 0) == Horner(base, DigitsOf(base, t), 0)
  {
    if zeros == [] {
      assert zeros + t == t;
    } else {
      var more := zeros[1..];
      forall i | 0 <= i < |more| ensures more[i] == '0' { assert more[i] == zeros[i + 1]; }
      assert zeros + t == ['0'] + (more + t);
      ZerosInFront(base, more, t);
      NumeralMore(base, '0', more + t);
      HornerNext(base, 0, DigitsOf(base, more + t), 0);
      assert Push(base, 0, 0) == 0;
    }
  }

  lemma ZerosInPlace(zeros: string, t: string)
    requires t != [] && t[0] != '_' && forall i :: 0 <= i < |zeros| ==> zeros[i] == '0'
    ensures Misplaced(zeros + t) <==> Misplaced(t)
    ensures (zeros + t)[0] == if zeros == [] then t[0] else '0'
  {
    var u := zeros + t;
    assert forall i :: |zeros| <= i < |u| ==> u[i] == t[i - |zeros|];
    assert forall i :: 0 <= i < |t| ==> t[i] == u[i + |zeros|];
    if Doubled(t) {
      var i :| 0 < i < |t| && t[i - 1] == '_' && t[i] == '_';
      assert u[i + |zeros| - 1] == '_' && u[i + |zeros|] == '_';
    }
    if i :| 0 < i < |u| && u[i - 1] == '_' && u[i] == '_' {
      assert i - |zeros| > 0;
      assert t[i - |zeros| - 1] == '_' && t[i - |zeros|] == '_';
    }
  }

  /** Blanks in front, a plus sign, and leading zeros behind a prefix change nothing. */
  lemma LeadingIgnored(bits: nat, radix: int, base: nat, blanks: string, plus: string, prefix: string, zeros: string,
        t: string, rest: string, badcheck: bool)
    requires Parts(base, blanks, plus, prefix, t, rest) && plus != "-" && t[0] != '_'
    requires ReadIn(radix, base, prefix, t) && forall i :: 0 <= i < |zeros| ==> zeros[i] == '0'
    requires zeros != "" && prefix == "" ==> radix == base || t[0] == '0'
    ensures ReadNumber(bits, radix, blanks + plus + prefix + (zeros + t) + rest, badcheck)
         == ReadNumber(bits, radix, "" + "" + prefix + t + rest, badcheck)
  {
    hide Numeral, DigitsOf, Horner, ReadNumber, Doubled;
    ZerosInFront(base, zeros, t);
    ZerosInPlace(zeros, t);
    hide Misplaced;
    assert Blank("");
    hide Blank;
    ReadsNumeral(bits, radix, base, blanks, plus, prefix, zeros + t, rest, badcheck);
    ReadsNumeral(bits, radix, base, "", "", prefix, t, rest, badcheck);
  }

  /** A printed number, "0" for zero. */
  ghost function Printed(base: nat, v: nat): string
    requires 2 <= base <= 36
  {
    if v == 0 then "0" else Text(base, v)
  }

  lemma TextDigits(base: nat, v: nat)
    requires 2 <= base <= 36
    ensures Numeral(base, Text(base, v)) && DigitsOf(base, Text(base, v)) == Num(base, v)
    ensures forall i :: 0 <= i < |Text(base, v)| ==> Text(base, v)[i] != '_'
  {
    NumDigits(base, v);
    SpelledDigits(base, Text(base, v), Num(base, v));
  }

  lemma {:induction false} SpelledDigits(base: nat, t: string, ds: seq<nat>)
    requires 2 <= base <= 36 && |t| == |ds|
    requires forall i :: 0 <= i < |ds| ==> ds[i] < base && t[i] == DIGITMAP[ds[i]]
    ensures Numeral(base, t) && DigitsOf(base, t) == ds
    ensures forall i :: 0 <= i < |t| ==> t[i] != '_'
  {
    if t != [] {
      DigitMap(ds[0]);
      SpelledDigits(base, t[1..], ds[1..]);
      assert t == [t[0]] + t[1..];
      NumeralMore(base, t[0], t[1..]);
      forall i | 0 <= i < |t| ensures t[i] != '_' { DigitMap(ds[i]); }
    }
  }

  lemma PrintedMeans(base: nat, v: nat)
    requires 2 <= base <= 36
    ensures var t := Printed(base, v);
            && t != [] && Numeral(base, t) && !Misplaced(t) && t[0] != '_' && (v != 0 <==> t[0] != '0')
            && Horner(base, DigitsOf(base, t), 0) == v
  {
    var t := Printed(base, v);
    if v == 0 {
      NumeralMore(base, '0', "");
      assert "0" == ['0'] + "";
      HornerNext(base, 0, [], 0);
    } else {
      TextDigits(base, v);
      TextHead(base, v);
      hide Text, Num;
      HornerNum(base, v);
    }
  }

  /** With no radix asked for, a printed number is read back behind its radix prefix. */
  lemma PrefixReadsBack(bits: nat, base: nat, prefix: string, v: nat, badcheck: bool)
    requires PrefixOf(prefix, base)
    ensures ReadNumber(bits, 0, prefix + Printed(base, v), badcheck) == Value(v)
  {
    hide Numeral, DigitsOf, Horner, ReadNumber, Doubled, Printed;
    PrintedMeans(base, v);
    hide Misplaced;
    assert Blank("");
    hide Blank;
    ReadsNumeral(bits, 0, base, "", "", prefix, Printed(base, v), "", badcheck);
    assert "" + "" + prefix + Printed(base, v) + "" == prefix + Printed(base, v);
  }

  /** An octal number is read back behind a plain zero, a decimal one as it is. */
  lemma PlainReadsBack(bits: nat, v: nat, badcheck: bool)
    ensures ReadNumber(bits, 0, "0" + Printed(8, v), badcheck) == Value(v)
    ensures ReadNumber(bits, 0, Printed(10, v), badcheck) == Value(v)
  {
    hide Numeral, DigitsOf, Horner, ReadNumber, Doubled, Printed;
    PrintedMeans(8, v);
    PrintedMeans(10, v);
    ZerosInFront(8, "0", Printed(8, v));
    ZerosInPlace("0", Printed(8, v));
    hide Misplaced;
    assert Blank("");
    hide Blank;
    ReadsNumeral(bits, 0, 8, "", "", "", "0" + Printed(8, v), "", badcheck);
    assert "" + "" + "" + ("0" + Printed(8, v)) + "" == "0" + Printed(8, v);
    if v == 0 {
      ZeroIsZero(bits, badcheck);
    } else {
      ReadsNumeral(bits, 0, 10, "", "", "", Printed(10, v), "", badcheck);
      assert "" + "" + "" + Printed(10, v) + "" == Printed(10, v);
    }
  }

  lemma ZeroIsZero(bits: nat, badcheck: bool)
    ensures ReadNumber(bits, 0, Printed(10, 0), badcheck) == Value(0)
  {
    hide Numeral, DigitsOf, Horner, ReadNumber, Doubled;
    PrintedMeans(8, 0);
    hide Misplaced;
    assert Blank("");
    hide Blank;
    ReadsNumeral(bits, 0, 8, "", "", "", "0", "", badcheck);
    assert "" + "" + "" + "0" + "" == "0";
  }

  /** A second sign is no number; a radix below 2 or above 36 is an error. */
  lemma NotRead(bits: nat, radix: int, blanks: string, s1: string, s2: string, rest: string, badcheck: bool)
    requires Blank(blanks) && (s1 == "+" || s1 == "-")
    ensures s2 == "+" || s2 == "-" ==>
              ReadNumber(bits, radix, blanks + s1 + s2 + rest, badcheck) == if badcheck then NoNumber else Value(0)
    ensures s2 == "" && (radix == 1 || 36 < radix) && (rest == "" || (rest[0] != '+' && rest[0] != '-')) ==>
              ReadNumber(bits, radix, blanks + s1 + s2 + rest, badcheck) == NoRadix
  {
    var s, b := blanks + s1 + s2 + rest, |blanks|;
    assert s[b] == s1[0];
    BlanksAre(blanks, s);
    BlanksEnd(s, 0, b, badcheck);
    hide BlankEnd, DigitsStart, Short, ShortNumber, LongNumber, Blank;
    if s2 != "" {
      assert s[b + 1] == s2[0];
    } else if rest != "" {
      assert s[b + 1] == rest[0];
    }
  }
}
