/** Result files: `writeVecToFile` and `readFileToVec`. */
module Files {
  import opened Basics
  import opened Decimal

  const BILLION: nat := 1_000_000_000

  // ---- One number on a line --------------------------------------------------------------

  // x in units of the ninth decimal, rounded to the nearest, ties to even.
  function Round9(x: real): int {
    var scaled := x * 1000000000.0;
    var f := scaled.Floor;
    var rest := scaled - f as real;
    if rest < 0.5 || (rest == 0.5 && f % 2 == 0) then f else f + 1
  }

  // The number that the units stand for.
  function Nanos(n: int): real {
    n as real / 1000000000.0
  }

  function Magnitude(n: int): nat {
    if n < 0 then -n else n
  }

  function Zeros(k: nat): string {
    if k == 0 then "" else "0" + Zeros(k - 1)
  }

  // At least nine digits.
  function Pad9(n: nat): string {
    var digits := Print(n);
    if |digits| < 9 then Zeros(9 - |digits|) + digits else digits
  }

  // std::fixed with std::setprecision(9); a negative number keeps its sign even when
  // it is rounded to zero.
  function PrintFixed(x: real): string {
    var n := Magnitude(Round9(x));
    (if x < 0.0 then "-" else "") + Print(n / BILLION) + "." + Pad9(n % BILLION)
  }

  // A double read from a line: blanks, a sign, digits, a point and digits.  None when
  // there is no digit.  (No exponent: the writer never uses one.)
  function ReadFixed(line: string): Option<real> {
    var t := SkipSpace(line);
    var u := if t != "" && (t[0] == '-' || t[0] == '+') then t[1..] else t;
    match ReadUnsigned(u)
    case None => None
    case Some(value) => Some(if t != "" && t[0] == '-' then -value else value)
  }

  function ReadUnsigned(u: string): Option<real> {
    var whole := DigitRun(u);
    var rest := u[whole..];
    var fraction := if rest != "" && rest[0] == '.' then DigitRun(rest[1..]) else 0;
    if whole == 0 && fraction == 0 then None
    else if fraction == 0 then Some(Value(u[..whole]) as real)
    else Some(Value(u[..whole]) as real + Value(rest[1..][..fraction]) as real / Power10(fraction) as real)
  }

  // ---- Lines -----------------------------------------------------------------------------

  function Lines(vec: seq<real>): string {
    if vec == [] then "" else Lines(vec[..|vec| - 1]) + (PrintFixed(vec[|vec| - 1]) + "\n")
  }

  lemma {:induction false} LinesStep(vec: seq<real>, i: nat)
    requires i < |vec|
    ensures Lines(vec[..i + 1]) == Lines(vec[..i]) + (PrintFixed(vec[i]) + "\n")
  {
    assert vec[..i + 1][..i] == vec[..i];
  }

  // Position of the first newline, or the length.
  function LineEnd(text: string): (k: nat)
    ensures k <= |text| && (k < |text| ==> text[k] == '\n') && '\n' !in text[..k]
  {
    if text == "" || text[0] == '\n' then 0 else 1 + LineEnd(text[1..])
  }

  // The numbers that the lines of a text yield, skipping those that hold none.
  function Numbers(text: string): seq<real>
    decreases |text|
  {
    if text == "" then [] else NumberOn(text[..LineEnd(text)]) + Numbers(AfterLine(text))
  }

  function NumberOn(line: string): seq<real> {
    match ReadFixed(line)
    case Some(x) => [x]
    case None => []
  }

  function AfterLine(text: string): (rest: string)
    ensures text != "" ==> |rest| < |text|
  {
    var k := LineEnd(text);
    if k < |text| then text[k + 1..] else ""
  }

  // The vector that readFileToVec appends to.
  class Samples {
    var items: seq<real>

    constructor ()
      ensures items == []
    {
      items := [];
    }
  }

  function Content(files: map<string, string>, name: string): string {
    if name in files then files[name] else ""
  }

  class FileSystem {
    var files: map<string, string>

    // Opens for appending, which creates the file.  `canOpen` is the outcome of that.
    method WriteVecToFile(name: string, vec: seq<real>, canOpen: bool) returns (code: int)
      modifies this
      ensures !canOpen ==> code == -1 && files == old(files)
      ensures canOpen ==> code == 0 && files == old(files)[name := Content(old(files), name) + Lines(vec)]
    {
      hide PrintFixed;
      if !canOpen { return -1; }
      var text := Content(files, name);
      ghost var before := text;
      for i := 0 to |vec|
        invariant text == before + Lines(vec[..i])
        invariant files == old(files)
      {
        LinesStep(vec, i);
        text := text + (PrintFixed(vec[i]) + "\n");
      }
      assert vec[..|vec|] == vec;
      assert text == before + Lines(vec);
      files := files[name := text];
      return 0;
    }

    method ReadFileToVec(name: string, vec: Samples) returns (code: int)
      modifies vec
      ensures name !in files ==> code == -1 && vec.items == old(vec.items)
      ensures name in files ==> code == 0 && vec.items == old(vec.items) + Numbers(files[name])
    {
      hide ReadFixed, LineEnd, Numbers;
      if name !in files { return -1; }
      var text := files[name];
      ghost var all := vec.items + Numbers(text);
      while text != ""
        invariant vec.items + Numbers(text) == all
        decreases |text|
      {
        NumbersUnfold(text);
        ghost var got, rest := vec.items, Numbers(AfterLine(text));
        var line := text[..LineEnd(text)];
        assert got + (NumberOn(line) + rest) == (got + NumberOn(line)) + rest;
        match ReadFixed(line) {
          case Some(x) => vec.items := vec.items + [x];
          case None => assert got + NumberOn(line) == got;
        }
        text := AfterLine(text);
      }
      NoNumbers();
      return 0;
    }
  }

  lemma {:induction false} NumbersUnfold(text: string)
    requires text != ""
    ensures Numbers(text) == NumberOn(text[..LineEnd(text)]) + Numbers(AfterLine(text))
  {
  }

  // ---- What is read is what was written, to nine decimals ---------------------------------

  // Rounding is to the nearest, and to the even one of two that are equally near.
  lemma {:induction false} RoundError(x: real)
    ensures -0.0000000005 <= Nanos(Round9(x)) - x <= 0.0000000005
    ensures x < 0.0 ==> Round9(x) <= 0
    ensures x >= 0.0 ==> Round9(x) >= 0
    ensures Nanos(Round9(x)) - x == 0.0000000005 || x - Nanos(Round9(x)) == 0.0000000005 ==> Round9(x) % 2 == 0
  {
  }

  lemma {:induction false} ZerosAreDigits(k: nat)
    ensures AllDigits(Zeros(k)) && |Zeros(k)| == k
  {
    if k == 0 {
    } else {
      ZerosAreDigits(k - 1);
    }
  }

  lemma {:induction false} ValueOfPadded(k: nat, digits: string)
    requires AllDigits(digits)
    ensures AllDigits(Zeros(k) + digits) && Value(Zeros(k) + digits) == Value(digits)
    decreases |digits|, k
  {
    ZerosAreDigits(k);
    if digits == "" {
      assert Zeros(k) + "" == Zeros(k);
      ValueOfZeros(k);
    } else {
      var n := |digits| - 1;
      ValueOfPadded(k, digits[..n]);
      assert (Zeros(k) + digits)[..k + n] == Zeros(k) + digits[..n];
    }
  }

  lemma {:induction false} ValueOfZeros(k: nat)
    ensures AllDigits(Zeros(k)) && Value(Zeros(k)) == 0
  {
    ZerosAreDigits(k);
    if k == 0 {
    } else {
      ValueOfZeros(k - 1);
      ZerosEnd(k);
    }
  }

  lemma {:induction false} ZerosEnd(k: nat)
    requires k > 0
    ensures Zeros(k) == Zeros(k - 1) + "0"
  {
    if k > 1 { ZerosEnd(k - 1); }
  }

  lemma {:induction false} BillionIsPower()
    ensures Power10(9) == BILLION
  {
    assert Power10(5) == 100000;
  }

  lemma {:induction false} NineDigits(n: nat)
    requires n < BILLION
    ensures AllDigits(Pad9(n)) && |Pad9(n)| == 9 && Value(Pad9(n)) == n
  {
    hide Print, Power10, Value;
    BillionIsPower();
    PrintLength(n, 9);
    ValueOfPrint(n);
    ZerosAreDigits(9 - |Print(n)|);
    ValueOfPadded(9 - |Print(n)|, Print(n));
  }

  // What is read from digits, a point and nine digits ...
  lemma {:induction false} ReadParts(whole: string, fraction: string)
    requires AllDigits(whole) && AllDigits(fraction) && whole != "" && |fraction| == 9
    ensures ReadUnsigned(whole + "." + fraction) ==
            Some(Value(whole) as real + Value(fraction) as real / Power10(9) as real)
  {
    hide Value, Power10, DigitRun;
    var u := whole + "." + fraction;
    assert u == whole + ("." + fraction);
    DigitRunOf(whole, "." + fraction);
    DigitRunOf(fraction, "");
    assert fraction + "" == fraction && ("." + fraction)[1..] == fraction && fraction[..9] == fraction;
    assert u[..|whole|] == whole && u[|whole|..] == "." + fraction;
  }

  // ... with or without a minus in front.
  lemma {:induction false} ReadSigned(u: string, negative: bool)
    requires u != "" && IsDigit(u[0]) && ReadUnsigned(u).Some?
    ensures ReadFixed((if negative then "-" else "") + u) ==
            Some(if negative then -ReadUnsigned(u).value else ReadUnsigned(u).value)
  {
    hide ReadUnsigned, IsSpace;
    var line := (if negative then "-" else "") + u;
    if negative { assert line[1..] == u; } else { assert line == u; }
    NotSpace(line[0]);
  }

  lemma {:induction false} NotSpace(c: char)
    requires c == '-' || IsDigit(c)
    ensures !IsSpace(c)
  {
  }

  // Reading a written number gives the number rounded to nine decimals.
  lemma {:induction false} ReadPrinted(x: real)
    ensures ReadFixed(PrintFixed(x)) == Some(Nanos(Round9(x)))
    ensures '\n' !in PrintFixed(x)
  {
    hide Print, Pad9, Round9, ReadFixed, ReadUnsigned, Power10, Value;
    var n := Magnitude(Round9(x));
    var whole, fraction := Print(n / BILLION), Pad9(n % BILLION);
    NineDigits(n % BILLION);
    ValueOfPrint(n / BILLION);
    ReadParts(whole, fraction);
    assert (whole + "." + fraction)[0] == whole[0];
    ReadSigned(whole + "." + fraction, x < 0.0);
    assert PrintFixed(x) == (if x < 0.0 then "-" else "") + (whole + "." + fraction);
    BillionIsPower();
    PutTogether(n);
    RoundError(x);
    DigitsHaveNoNewline(whole);
    DigitsHaveNoNewline(fraction);
  }

  lemma {:induction false} DigitsHaveNoNewline(s: string)
    requires AllDigits(s)
    ensures '\n' !in s
  {
    assert forall i :: 0 <= i < |s| ==> IsDigit(s[i]);
  }

  lemma {:induction false} PutTogether(n: nat)
    ensures (n / BILLION) as real + (n % BILLION) as real / BILLION as real == Nanos(n)
  {
    assert n == (n / BILLION) * BILLION + n % BILLION;
  }

  // ---- Whole files --------------------------------------------------------------------------

  function Rounded(vec: seq<real>): (r: seq<real>)
    ensures |r| == |vec|
    ensures forall i :: 0 <= i < |vec| ==> r[i] == Nanos(Round9(vec[i]))
  {
    if vec == [] then [] else Rounded(vec[..|vec| - 1]) + [Nanos(Round9(vec[|vec| - 1]))]
  }

  // A text that a writer may append to without running into an unfinished line.
  predicate WholeLines(text: string) {
    text == "" || text[|text| - 1] == '\n'
  }

  lemma {:induction false} LineEndOf(line: string, rest: string)
    requires '\n' !in line
    ensures LineEnd(line + "\n" + rest) == |line|
  {
    var text := line + "\n" + rest;
    if line == "" {
    } else {
      assert line[0] in line && line[0] != '\n';
      LineEndOf(line[1..], rest);
      assert text[1..] == line[1..] + "\n" + rest;
    }
  }

  lemma {:induction false} NumbersStep(line: string, rest: string)
    requires '\n' !in line
    ensures Numbers(line + "\n" + rest) == NumberOn(line) + Numbers(rest)
  {
    hide NumberOn, LineEnd;
    var text := line + "\n" + rest;
    LineEndOf(line, rest);
    assert text[..|line|] == line && text[|line| + 1..] == rest;
  }

  lemma {:induction false} NoNumbers()
    ensures Numbers("") == [] && Lines([]) == "" && Rounded([]) == []
  {
  }

  // The first line of whole lines, and the rest.
  lemma {:induction false} FirstLine(text: string) returns (line: string, rest: string)
    requires WholeLines(text) && text != ""
    ensures text == line + "\n" + rest && '\n' !in line && WholeLines(rest)
  {
    var k := LineEnd(text);
    assert text[..|text|] == text && text[|text| - 1] in text;
    line, rest := text[..k], text[k + 1..];
  }

  // Whole lines are read one after the other.
  lemma {:induction false} NumbersConcat(text: string, more: string)
    requires WholeLines(text)
    ensures Numbers(text + more) == Numbers(text) + Numbers(more)
    decreases |text|
  {
    hide Numbers, WholeLines;
    if text == "" {
      assert text + more == more;
      NoNumbers();
    } else {
      var line, rest := FirstLine(text);
      NumbersConcat(rest, more);
      assert text + more == line + "\n" + (rest + more);
      NumbersStep(line, rest);
      NumbersStep(line, rest + more);
    }
  }

  lemma {:induction false} LinesAreWhole(vec: seq<real>)
    ensures WholeLines(Lines(vec))
  {
  }

  // Writing a vector and reading it back rounds every element to nine decimals and
  // changes nothing else.
  lemma {:induction false} NumbersOfLines(vec: seq<real>)
    ensures Numbers(Lines(vec)) == Rounded(vec)
  {
    hide PrintFixed, Numbers, Round9, Nanos;
    NoNumbers();
    if vec == [] {
    } else {
      var n := |vec| - 1;
      NumbersOfLines(vec[..n]);
      LinesAreWhole(vec[..n]);
      NumbersConcat(Lines(vec[..n]), PrintFixed(vec[n]) + "\n");
      NumberOfLine(vec[n]);
    }
  }

  lemma {:induction false} NumberOfLine(x: real)
    ensures Numbers(PrintFixed(x) + "\n") == [Nanos(Round9(x))]
  {
    hide PrintFixed, Numbers, Round9, Nanos, ReadFixed;
    ReadPrinted(x);
    NoNumbers();
    NumbersStep(PrintFixed(x), "");
    assert PrintFixed(x) + "\n" + "" == PrintFixed(x) + "\n";
  }

  // The same for a file that held something before.
  lemma {:induction false} AppendedIsRead(before: string, vec: seq<real>)
    requires WholeLines(before)
    ensures Numbers(before + Lines(vec)) == Numbers(before) + Rounded(vec)
    ensures WholeLines(before + Lines(vec))
  {
    NumbersConcat(before, Lines(vec));
    NumbersOfLines(vec);
    LinesAreWhole(vec);
    if Lines(vec) == "" { assert before + Lines(vec) == before; }
  }

  // ---- The text that is written ----------------------------------------------------------

  // A minus or nothing, a numeral, a point and nine digits.
  ghost predicate FixedParts(text: string, negative: bool, whole: string, fraction: string) {
    && text == (if negative then "-" else "") + whole + "." + fraction
    && Numeral(whole) && AllDigits(fraction) && |fraction| == 9
  }

  lemma {:induction false} PrintedParts(x: real) returns (whole: string, fraction: string)
    ensures FixedParts(PrintFixed(x), x < 0.0, whole, fraction)
    ensures Value(whole) * 1000000000 + Value(fraction) == Magnitude(Round9(x))
  {
    hide Print, Pad9, Round9, Value;
    var n := Magnitude(Round9(x));
    whole, fraction := Print(n / BILLION), Pad9(n % BILLION);
    PrintExactly(n / BILLION, whole);
    NineDigits(n % BILLION);
  }

  lemma {:induction false} PartsAreUnique(a: string, b: string, c: string, d: string)
    requires Numeral(a) && Numeral(b) && AllDigits(c) && AllDigits(d) && |c| == |d| == 9
    requires Value(a) * 1000000000 + Value(c) == Value(b) * 1000000000 + Value(d)
    ensures a == b && c == d
  {
    hide Print, Value;
    NineDigitValue(c);
    NineDigitValue(d);
    PrintExactly(Value(a), a);
    PrintExactly(Value(a), b);
    SameWidthSameDigits(c, d);
  }

  lemma {:induction false} NineDigitValue(s: string)
    requires AllDigits(s) && |s| == 9
    ensures Value(s) < 1000000000
  {
    hide Power10;
    ValueBelow(s);
    BillionIsPower();
  }

  lemma {:induction false} ValueBelow(s: string)
    requires AllDigits(s)
    ensures Value(s) < Power10(|s|)
  {
    if s == "" {
    } else {
      ValueBelow(s[..|s| - 1]);
    }
  }

  // The text of a number: a minus exactly when it is negative, then its units of the
  // ninth decimal as a numeral, a point and nine digits.  There is no other such text.
  lemma {:induction false} PrintedExactly(x: real, text: string)
    ensures text == PrintFixed(x) <==>
            exists whole, fraction :: FixedParts(text, x < 0.0, whole, fraction)
                                      && Value(whole) * 1000000000 + Value(fraction) == Magnitude(Round9(x))
  {
    hide Print, Value, PrintFixed, Round9, Magnitude;
    var whole, fraction := PrintedParts(x);
    if a, b :| FixedParts(text, x < 0.0, a, b) && Value(a) * 1000000000 + Value(b) == Magnitude(Round9(x)) {
      PartsAreUnique(whole, a, fraction, b);
    }
  }

  // What writing lines is: each number with a newline behind it.
  lemma {:induction false} LinesAre(a: seq<real>, b: seq<real>, x: real)
    ensures Lines([]) == "" && Lines([x]) == PrintFixed(x) + "\n"
    ensures Lines(a + b) == Lines(a) + Lines(b)
    decreases |b|
  {
    hide PrintFixed;
    assert [x][..0] == [];
    assert Lines([x]) == "" + (PrintFixed(x) + "\n");
    if b == [] {
      assert a + b == a;
    } else {
      var n := |b| - 1;
      LinesAre(a, b[..n], x);
      assert (a + b)[..|a| + n] == a + b[..n];
      LinesRegroup(Lines(a), Lines(b[..n]), PrintFixed(b[n]) + "\n");
    }
  }

  lemma {:induction false} LinesRegroup(a: string, b: string, c: string)
    ensures (a + b) + c == a + (b + c)
  {
  }

  // ---- Any text that is read -----------------------------------------------------------------

  // The value of a number with a point somewhere.
  function PointValue(whole: string, fraction: string): real
    requires AllDigits(whole) && AllDigits(fraction)
  {
    Value(whole) as real + Value(fraction) as real / Power10(|fraction|) as real
  }

  lemma {:induction false} UnsignedReads(whole: string, fraction: string, rest: string)
    requires AllDigits(whole) && AllDigits(fraction) && (rest == "" || !IsDigit(rest[0]))
    ensures ReadUnsigned(whole + ("." + fraction + rest)) ==
            if whole == "" && fraction == "" then None else Some(PointValue(whole, fraction))
  {
    hide DigitRun, Power10, Value;
    var tail := "." + fraction + rest;
    var u := whole + tail;
    assert !IsDigit(tail[0]) && tail[1..] == fraction + rest;
    DigitRunOf(whole, tail);
    DigitRunOf(fraction, rest);
    assert u[..|whole|] == whole && u[|whole|..] == tail && (fraction + rest)[..|fraction|] == fraction;
    if fraction == "" { NothingAfterPoint(); }
  }

  lemma {:induction false} NothingAfterPoint()
    ensures Value("") as real / Power10(0) as real == 0.0
  {
  }

  lemma {:induction false} UnsignedReadsWhole(whole: string, rest: string)
    requires AllDigits(whole) && (rest == "" || (!IsDigit(rest[0]) && rest[0] != '.'))
    ensures ReadUnsigned(whole + rest) == if whole == "" then None else Some(Value(whole) as real)
  {
    hide DigitRun, Power10, Value;
    DigitRunOf(whole, rest);
    assert (whole + rest)[..|whole|] == whole && (whole + rest)[|whole|..] == rest;
  }

  // A line holds a number exactly when, after blanks and perhaps a sign, there is a digit
  // before or after a point; a minus makes it negative, and what follows does not count.
  lemma {:induction false} ReadFixedReads(blanks: string, sign: string, whole: string, fraction: string, rest: string)
    requires AllSpace(blanks) && IsSign(sign) && AllDigits(whole) && AllDigits(fraction)
    requires rest == "" || !IsDigit(rest[0])
    ensures ReadFixed(blanks + (sign + whole + ("." + fraction + rest))) ==
            if whole == "" && fraction == "" then None
            else Some(if sign == "-" then -PointValue(whole, fraction) else PointValue(whole, fraction))
  {
    hide ReadUnsigned, SkipSpace, PointValue;
    var tail := "." + fraction + rest;
    TextAfterSign(sign, whole, tail);
    SkipBlanks(blanks, sign + whole + tail);
    UnsignedReads(whole, fraction, rest);
  }

  lemma {:induction false} ReadFixedReadsWhole(blanks: string, sign: string, whole: string, rest: string)
    requires AllSpace(blanks) && NumberThen(sign, whole, rest) && (rest == "" || rest[0] != '.')
    ensures ReadFixed(blanks + (sign + whole + rest)) ==
            if whole == "" then None
            else Some(if sign == "-" then -(Value(whole) as real) else Value(whole) as real)
  {
    hide ReadUnsigned, SkipSpace, Value;
    TextAfterSign(sign, whole, rest);
    SkipBlanks(blanks, sign + whole + rest);
    UnsignedReadsWhole(whole, rest);
  }

  // Every line counts, the last one also without its newline; a line without a number
  // is passed over.
  lemma {:induction false} NumbersByLine(line: string, rest: string)
    requires '\n' !in line
    ensures Numbers(line + "\n" + rest) ==
            (match ReadFixed(line) case Some(x) => [x] case None => []) + Numbers(rest)
    ensures Numbers(line) == match ReadFixed(line) case Some(x) => [x] case None => []
  {
    hide ReadFixed, LineEnd;
    NumbersStep(line, rest);
    if line == "" {
      NoNumberInNothing();
    } else {
      LineWithoutEnd(line);
      NoNumbers();
      assert line[..|line|] == line;
    }
  }

  lemma {:induction false} NoNumberInNothing()
    ensures ReadFixed("") == None
  {
  }

  lemma {:induction false} LineWithoutEnd(line: string)
    requires '\n' !in line
    ensures LineEnd(line) == |line|
  {
    if line == "" {
    } else {
      assert line[0] in line;
      LineWithoutEnd(line[1..]);
    }
  }
}
