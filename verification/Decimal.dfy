/** Decimal numbers as the stream operators print them and strtol reads them. */
module Decimal {

  const LONG_MAX: int := 0x7fff_ffff_ffff_ffff
  const LONG_MIN: int := -0x8000_0000_0000_0000

  predicate IsDigit(c: char) {
    '0' <= c <= '9'
  }

  predicate AllDigits(s: string) {
    forall i :: 0 <= i < |s| ==> IsDigit(s[i])
  }

  function DigitOf(d: nat): (c: char)
    requires d < 10
    ensures IsDigit(c) && DigitValue(c) == d
  {
    '0' + d as char
  }

  function DigitValue(c: char): nat
    requires IsDigit(c)
  {
    c as int - '0' as int
  }

  function Print(n: nat): (s: string)
    ensures AllDigits(s) && s != ""
  {
    if n < 10 then [DigitOf(n)] else Print(n / 10) + [DigitOf(n % 10)]
  }

  // The number a string of digits stands for.
  function Value(s: string): nat
    requires AllDigits(s)
  {
    if s == "" then 0 else 10 * Value(s[..|s| - 1]) + DigitValue(s[|s| - 1])
  }

  // Length of the longest prefix made of digits.
  function DigitRun(s: string): (k: nat)
    ensures k <= |s| && AllDigits(s[..k]) && (k < |s| ==> !IsDigit(s[k]))
  {
    if s == "" || !IsDigit(s[0]) then 0
    else
      var k := 1 + DigitRun(s[1..]);
      assert forall i :: 0 < i < k ==> s[i] == s[1..][i - 1];
      k
  }

  predicate IsSpace(c: char) {
    c == ' ' || '\t' <= c <= '\r'
  }

  function SkipSpace(s: string): string {
    if s != "" && IsSpace(s[0]) then SkipSpace(s[1..]) else s
  }

  function Clamp(n: int): int {
    if n > LONG_MAX then LONG_MAX else if n < LONG_MIN then LONG_MIN else n
  }

  // strtol with base 10: blanks, a sign, digits, and whatever follows; zero when
  // there are no digits.
  function StrToL(s: string): int {
    var t := SkipSpace(s);
    var negative := t != "" && t[0] == '-';
    var u := if t != "" && (t[0] == '-' || t[0] == '+') then t[1..] else t;
    var n: int := Value(u[..DigitRun(u)]);
    Clamp(if negative then -n else n)
  }

  lemma {:induction false} ValueOfPrint(n: nat)
    ensures Value(Print(n)) == n
  {
    if n >= 10 {
      ValueOfPrint(n / 10);
      assert Print(n)[..|Print(n)| - 1] == Print(n / 10);
    } else {
      assert Value(Print(n)) == 10 * Value("") + n;
    }
  }

  lemma {:induction false} PrintInjective(m: nat, n: nat)
    requires Print(m) == Print(n)
    ensures m == n
  {
    ValueOfPrint(m);
    ValueOfPrint(n);
  }

  function Power10(k: nat): (p: nat)
    ensures p > 0
  {
    if k == 0 then 1 else 10 * Power10(k - 1)
  }

  // A number below 10^k takes at most k digits.
  lemma {:induction false} PrintLength(n: nat, k: nat)
    requires k > 0 && n < Power10(k)
    ensures |Print(n)| <= k
  {
    if n >= 10 {
      PrintLength(n / 10, k - 1);
    }
  }

  lemma {:induction false} DigitRunOf(digits: string, rest: string)
    requires AllDigits(digits) && (rest == "" || !IsDigit(rest[0]))
    ensures DigitRun(digits + rest) == |digits|
  {
    if digits == "" {
      assert digits + rest == rest;
    } else {
      DigitRunOf(digits[1..], rest);
      assert (digits + rest)[1..] == digits[1..] + rest;
    }
  }

  // strtol reads back what was printed, up to the largest long.
  lemma {:induction false} StrToLOfPrint(n: nat)
    requires n <= LONG_MAX
    ensures StrToL(Print(n)) == n
  {
    var s := Print(n);
    assert IsDigit(s[0]);
    DigitRunOf(s, "");
    assert s + "" == s && s[..|s|] == s;
    ValueOfPrint(n);
  }

  // ---- Numerals -----------------------------------------------------------------------

  // The characters that count as digits and as blanks.
  lemma {:induction false} DigitsAndBlanks(c: char)
    ensures IsDigit(c) <==> c in "0123456789"
    ensures IsSpace(c) <==> c in " \t\n\r\U{000B}\U{000C}"
  {
    if IsDigit(c) {
      assert c == "0123456789"[DigitValue(c)];
    }
  }

  // What the digits are worth, and the places.
  lemma {:induction false} PlaceValue(s: string, d: nat)
    requires AllDigits(s) && d < 10
    ensures var c := "0123456789"[d];
      AllDigits(s + [c]) && Value(s + [c]) == 10 * Value(s) + d && Value("") == 0
  {
    var c := "0123456789"[d];
    assert (s + [c])[..|s|] == s;
  }

  // Digits with no zero in front, unless there is but one.
  predicate Numeral(s: string) {
    s != "" && AllDigits(s) && (|s| > 1 ==> s[0] != '0')
  }

  lemma {:induction false} PrintIsNumeral(n: nat)
    ensures Numeral(Print(n)) && (n > 0 ==> Print(n)[0] != '0')
  {
    if n < 10 {
    } else {
      PrintIsNumeral(n / 10);
    }
  }

  lemma {:induction false} NumeralIsPrinted(s: string)
    requires Numeral(s)
    ensures Print(Value(s)) == s
  {
    var n := |s| - 1;
    if n == 0 {
      assert s[..0] == "" && s == [s[0]];
      assert Value(s) == DigitValue(s[0]);
      assert DigitOf(DigitValue(s[0])) == s[0];
    } else {
      assert s[..n][0] == s[0];
      NumeralIsPrinted(s[..n]);
      PositiveValue(s[..n]);
      assert Value(s) / 10 == Value(s[..n]) && Value(s) % 10 == DigitValue(s[n]);
      assert DigitOf(DigitValue(s[n])) == s[n];
      assert s == s[..n] + [s[n]];
    }
  }

  lemma {:induction false} PositiveValue(s: string)
    requires s != "" && AllDigits(s) && s[0] != '0'
    ensures Value(s) > 0
  {
    var n := |s| - 1;
    if n == 0 {
      assert Value(s) == 10 * Value(s[..0]) + DigitValue(s[0]);
    } else {
      assert s[..n][0] == s[0];
      PositiveValue(s[..n]);
    }
  }

  // A number is printed as the one numeral that stands for it.
  lemma {:induction false} PrintExactly(n: nat, s: string)
    ensures s == Print(n) <==> Numeral(s) && Value(s) == n
  {
    hide Print, Value;
    PrintIsNumeral(n);
    ValueOfPrint(n);
    if Numeral(s) { NumeralIsPrinted(s); }
  }

  // Of digits of one length only one sequence stands for a number.
  lemma {:induction false} SameWidthSameDigits(s: string, t: string)
    requires AllDigits(s) && AllDigits(t) && |s| == |t| && Value(s) == Value(t)
    ensures s == t
  {
    if s == "" {
    } else {
      var n := |s| - 1;
      SameWidthSameDigits(s[..n], t[..n]);
      assert s == s[..n] + [s[n]] && t == t[..n] + [t[n]];
    }
  }

  // ---- What strtol makes of any text ----------------------------------------------------

  predicate AllSpace(s: string) {
    forall i :: 0 <= i < |s| ==> IsSpace(s[i])
  }

  predicate IsSign(s: string) {
    s == "" || s == "+" || s == "-"
  }

  lemma {:induction false} SkipBlanks(blanks: string, rest: string)
    requires AllSpace(blanks) && (rest == "" || !IsSpace(rest[0]))
    ensures SkipSpace(blanks + rest) == rest
  {
    if blanks == "" {
      assert blanks + rest == rest;
    } else {
      SkipBlanks(blanks[1..], rest);
      assert (blanks + rest)[1..] == blanks[1..] + rest;
    }
  }

  // A text is blanks, perhaps a sign, digits, and a rest that goes on with none of them.
  ghost predicate NumberThen(sign: string, digits: string, rest: string) {
    && IsSign(sign) && AllDigits(digits) && (rest == "" || !IsDigit(rest[0]))
    && (sign == "" && digits == "" && rest != "" ==> !IsSpace(rest[0]) && rest[0] != '+' && rest[0] != '-')
  }

  lemma {:induction false} TextAfterSign(sign: string, digits: string, rest: string)
    requires NumberThen(sign, digits, rest)
    ensures var t := sign + digits + rest;
      && (t == "" || !IsSpace(t[0]))
      && (if t != "" && (t[0] == '-' || t[0] == '+') then t[1..] else t) == digits + rest
      && (t != "" && t[0] == '-' <==> sign == "-")
  {
    var t := sign + digits + rest;
    if sign != "" {
      assert t[0] == sign[0] && t[1..] == digits + rest;
    } else if digits != "" {
      assert t == digits + rest && t[0] == digits[0] && IsDigit(digits[0]);
    } else {
      assert t == rest == digits + rest;
    }
  }

  // The digits count with their sign, as far as a long goes; the rest does not.
  lemma {:induction false} StrToLReads(blanks: string, sign: string, digits: string, rest: string)
    requires AllSpace(blanks) && NumberThen(sign, digits, rest)
    ensures var m: int := Value(digits);
      var n := if sign == "-" then -m else m;
      StrToL(blanks + (sign + digits + rest)) ==
      if n > 9223372036854775807 then 9223372036854775807
      else if n < -9223372036854775808 then -9223372036854775808
      else n
  {
    hide Value, DigitRun, SkipSpace;
    TextAfterSign(sign, digits, rest);
    SkipBlanks(blanks, sign + digits + rest);
    DigitRunOf(digits, rest);
    assert (digits + rest)[..|digits|] == digits;
  }
}
