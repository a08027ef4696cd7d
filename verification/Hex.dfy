/** Serialised URIs as hexadecimal text, and the order the publisher keeps them in. */
module Hex {
  import opened Decimal
  import opened TextOrder

  type byte = x: int | 0 <= x < 256

  function HexDigitOf(d: int): (c: char)
    requires 0 <= d < 16
    ensures IsHexDigit(c) && HexDigitValue(c) == d && Lower([c]) == [c]
  {
    if d < 10 then '0' + d as char else 'a' + (d - 10) as char
  }

  predicate IsHexDigit(c: char) {
    '0' <= c <= '9' || 'a' <= c <= 'f' || 'A' <= c <= 'F'
  }

  function HexDigitValue(c: char): (d: int)
    requires IsHexDigit(c)
    ensures 0 <= d < 16
  {
    if c <= '9' then c as int - '0' as int
    else if c <= 'F' then c as int - 'A' as int + 10
    else c as int - 'a' as int + 10
  }

  // Two digits a byte, lower case, zero filled.
  function EncodeByte(b: byte): string {
    [HexDigitOf(b / 16), HexDigitOf(b % 16)]
  }

  function Encode(v: seq<byte>): string {
    if v == [] then "" else EncodeByte(v[0]) + Encode(v[1..])
  }

  method ConvertToHex(v: seq<byte>) returns (text: string)
    ensures text == Encode(v)
  {
    text := "";
    for i := 0 to |v|
      invariant text + Encode(v[i..]) == Encode(v)
    {
      ghost var before := text;
      text := text + EncodeByte(v[i]);
      assert before + (EncodeByte(v[i]) + Encode(v[i..][1..])) == text + Encode(v[i + 1..]);
    }
    assert text + "" == text;
  }

  // ---- Reading -----------------------------------------------------------------------

  function HexRun(s: string): (k: nat)
    ensures k <= |s| && AllHexDigits(s[..k]) && (k < |s| ==> !IsHexDigit(s[k]))
  {
    if s == "" || !IsHexDigit(s[0]) then 0
    else
      var k := 1 + HexRun(s[1..]);
      assert forall i :: 0 < i < k ==> s[i] == s[1..][i - 1];
      k
  }

  predicate AllHexDigits(s: string) {
    forall i :: 0 <= i < |s| ==> IsHexDigit(s[i])
  }

  function HexValue(s: string): nat
    requires AllHexDigits(s)
  {
    if s == "" then 0 else 16 * HexValue(s[..|s| - 1]) + HexDigitValue(s[|s| - 1])
  }

  // An int read from a stream in hexadecimal: blanks, a sign, 0x, digits.  A failed
  // read leaves zero.
  function ReadHex(s: string): int {
    var t := SkipSpace(s);
    var u := if t != "" && (t[0] == '-' || t[0] == '+') then t[1..] else t;
    var w := if |u| >= 2 && u[0] == '0' && (u[1] == 'x' || u[1] == 'X') then u[2..] else u;
    var n: int := HexValue(w[..HexRun(w)]);
    if t != "" && t[0] == '-' then -n else n
  }

  function ReadByte(s: string): byte {
    ReadHex(s) % 256
  }

  // Nothing is read from a pair of blanks, so the source would use an int that it has
  // not initialised.
  ghost predicate NoBlankPairs(s: string)
    decreases |s|
  {
    s != "" ==> SkipSpace(Head(s)) != "" && NoBlankPairs(Tail(s))
  }

  // The first two characters, or the one that is left; and the rest.
  function Head(s: string): string {
    if |s| < 2 then s else s[..2]
  }

  function Tail(s: string): (r: string)
    ensures s != "" ==> |r| < |s|
  {
    if |s| < 2 then "" else s[2..]
  }

  function Decode(s: string): seq<byte>
    decreases |s|
  {
    if s == "" then [] else [ReadByte(Head(s))] + Decode(Tail(s))
  }

  // substr(i, 2) and what it leaves.
  lemma {:induction false} HeadTailAt(s: string, i: nat)
    requires i < |s|
    ensures Head(s[i..]) == if i + 2 <= |s| then s[i..i + 2] else s[i..]
    ensures Tail(s[i..]) == if i + 2 <= |s| then s[i + 2..] else ""
  {
    if i + 2 <= |s| {
      assert s[i..][..2] == s[i..i + 2] && s[i..][2..] == s[i + 2..];
    }
  }

  method ConvertFromHex(s: string) returns (v: seq<byte>)
    requires NoBlankPairs(s)
    ensures v == Decode(s)
  {
    hide ReadByte, NoBlankPairs, Head, Tail;
    v := [];
    var i := 0;
    ghost var rest := s;
    while i < |s|
      invariant i <= |s| + 1
      invariant rest == if i <= |s| then s[i..] else ""
      invariant v + Decode(rest) == Decode(s)
      decreases |s| + 2 - i
    {
      HeadTailAt(s, i);
      var pair := if i + 2 <= |s| then s[i..i + 2] else s[i..];
      v := v + [ReadByte(pair)];
      rest := Tail(rest);
      i := i + 2;
    }
  }

  // ---- Round trips --------------------------------------------------------------------

  lemma {:induction false} ReadHexPair(p: string)
    requires |p| == 2 && AllHexDigits(p)
    ensures ReadHex(p) == 16 * HexDigitValue(p[0]) + HexDigitValue(p[1])
    ensures SkipSpace(p) == p
  {
    assert IsHexDigit(p[0]) && IsHexDigit(p[1]);
    assert p[1..][1..] == "";
    assert HexRun(p[1..]) == 1;
    assert HexRun(p) == 2;
    assert p[..2] == p;
    assert p[..1] == [p[0]];
    assert HexValue(p[..1]) == 16 * HexValue("") + HexDigitValue(p[0]);
  }

  lemma {:induction false} ReadEncoded(b: byte)
    ensures ReadByte(EncodeByte(b)) == b && SkipSpace(EncodeByte(b)) != ""
  {
    hide ReadHex, HexDigitOf, HexDigitValue, SkipSpace;
    assert AllHexDigits(EncodeByte(b));
    ReadHexPair(EncodeByte(b));
  }

  lemma {:induction false} HeadTailOfPair(p: string, rest: string)
    requires |p| == 2
    ensures Head(p + rest) == p && Tail(p + rest) == rest
  {
    assert (p + rest)[..2] == p && (p + rest)[2..] == rest;
  }

  lemma {:induction false} TwoDigitsEach(b: byte)
    ensures |EncodeByte(b)| == 2
  {
  }

  lemma {:induction false} DecodeEncode(v: seq<byte>)
    ensures Decode(Encode(v)) == v
    ensures |Encode(v)| == 2 * |v| && NoBlankPairs(Encode(v))
  {
    hide ReadByte, Head, Tail, SkipSpace, HexDigitOf, EncodeByte;
    if v == [] {
    } else {
      assert |EncodeByte(v[0])| == 2 by { TwoDigitsEach(v[0]); }
      DecodeEncode(v[1..]);
      ReadEncoded(v[0]);
      HeadTailOfPair(EncodeByte(v[0]), Encode(v[1..]));
    }
  }

  function LowerChar(c: char): char {
    if 'A' <= c <= 'Z' then c - 'A' + 'a' else c
  }

  function Lower(s: string): string {
    if s == "" then "" else [LowerChar(s[0])] + Lower(s[1..])
  }

  lemma {:induction false} LowerDigit(c: char)
    requires IsHexDigit(c)
    ensures HexDigitOf(HexDigitValue(c)) == LowerChar(c)
  {
  }

  lemma {:induction false} EncodeOfRead(p: string)
    requires |p| == 2 && AllHexDigits(p)
    ensures EncodeByte(ReadByte(p)) == [LowerChar(p[0]), LowerChar(p[1])]
  {
    hide ReadHex, HexDigitOf, HexDigitValue;
    ReadHexPair(p);
    assert IsHexDigit(p[0]) && IsHexDigit(p[1]);
    var high, low := HexDigitValue(p[0]), HexDigitValue(p[1]);
    assert (16 * high + low) / 16 == high && (16 * high + low) % 16 == low;
    LowerDigit(p[0]);
    LowerDigit(p[1]);
  }

  lemma {:induction false} LowerPair(s: string)
    requires |s| >= 2
    ensures Lower(s) == [LowerChar(s[0]), LowerChar(s[1])] + Lower(s[2..])
  {
    assert s[1..][1..] == s[2..];
  }

  lemma {:induction false} EncodeDecode(s: string)
    requires AllHexDigits(s) && |s| % 2 == 0
    ensures Encode(Decode(s)) == Lower(s)
    decreases |s|
  {
    hide ReadByte, Lower, EncodeByte;
    if s == "" {
      assert Lower("") == "" by { LowerOfNothing(); }
    } else {
      EncodeDecode(s[2..]);
      assert AllHexDigits(s[..2]);
      EncodeOfRead(s[..2]);
      LowerPair(s);
      var v := Decode(s);
      assert v[0] == ReadByte(s[..2]) && v[1..] == Decode(s[2..]);
    }
  }

  lemma {:induction false} LowerOfNothing()
    ensures Lower("") == ""
  {
  }

  // ---- Order -----------------------------------------------------------------------------

  // operator< of std::vector.
  predicate BytesLess(a: seq<byte>, b: seq<byte>) {
    if b == [] then false
    else if a == [] then true
    else a[0] < b[0] || (a[0] == b[0] && BytesLess(a[1..], b[1..]))
  }

  lemma {:induction false} DigitOrder(d: int, e: int)
    requires 0 <= d < 16 && 0 <= e < 16
    ensures HexDigitOf(d) < HexDigitOf(e) <==> d < e
  {
  }

  lemma {:induction false} TextLessPair(a: string, b: string, s: string, t: string)
    requires |a| == |b| == 2
    ensures TextLess(a + s, b + t) <==>
            a[0] < b[0] || (a[0] == b[0] && (a[1] < b[1] || (a[1] == b[1] && TextLess(s, t))))
  {
    assert (a + s)[1..][1..] == s && (b + t)[1..][1..] == t;
    assert (a + s)[1..][0] == a[1] && (b + t)[1..][0] == b[1];
  }

  // Hexadecimal text is ordered as the bytes are.
  lemma {:induction false} EncodeKeepsOrder(a: seq<byte>, b: seq<byte>)
    ensures TextLess(Encode(a), Encode(b)) <==> BytesLess(a, b)
  {
    if a != [] && b != [] {
      EncodeKeepsOrder(a[1..], b[1..]);
      TextLessPair(EncodeByte(a[0]), EncodeByte(b[0]), Encode(a[1..]), Encode(b[1..]));
      DigitOrder(a[0] / 16, b[0] / 16);
      DigitOrder(b[0] / 16, a[0] / 16);
      DigitOrder(a[0] % 16, b[0] % 16);
      DigitOrder(b[0] % 16, a[0] % 16);
    }
  }

  // The order the publisher's set relies on: of two different serialised URIs exactly
  // one is less, so equal ones and only those are taken for duplicates.
  lemma {:induction false} BytesOrderIsTotal(a: seq<byte>, b: seq<byte>)
    ensures !BytesLess(a, b) && !BytesLess(b, a) <==> a == b
    ensures !(BytesLess(a, b) && BytesLess(b, a))
  {
    if a != [] && b != [] {
      BytesOrderIsTotal(a[1..], b[1..]);
      assert a == [a[0]] + a[1..] && b == [b[0]] + b[1..];
    }
  }

  lemma {:induction false} BytesOrderIsTransitive(a: seq<byte>, b: seq<byte>, c: seq<byte>)
    requires BytesLess(a, b) && BytesLess(b, c)
    ensures BytesLess(a, c)
  {
    if a != [] && a[0] == b[0] == c[0] {
      BytesOrderIsTransitive(a[1..], b[1..], c[1..]);
    }
  }

  // a and b agree up to k, where a ends or has the smaller byte.
  ghost predicate BytesLessAt(a: seq<byte>, b: seq<byte>, k: nat) {
    k <= |a| && k < |b| && a[..k] == b[..k] && (k == |a| || a[k] < b[k])
  }

  lemma {:induction false} BytesLessExactly(a: seq<byte>, b: seq<byte>)
    ensures BytesLess(a, b) <==> exists k: nat :: BytesLessAt(a, b, k)
  {
    if a == [] || b == [] {
      assert b != [] ==> BytesLessAt(a, b, 0);
    } else {
      BytesLessExactly(a[1..], b[1..]);
      assert a[0] < b[0] ==> BytesLessAt(a, b, 0);
      if a[0] == b[0] {
        if k: nat :| BytesLessAt(a[1..], b[1..], k) {
          assert a[..k + 1] == [a[0]] + a[1..][..k] && b[..k + 1] == [b[0]] + b[1..][..k];
          assert BytesLessAt(a, b, k + 1);
        }
      }
      if k: nat :| BytesLessAt(a, b, k) {
        if k > 0 {
          assert a[..k][0] == b[..k][0];
          assert a[1..][..k - 1] == a[..k][1..] && b[1..][..k - 1] == b[..k][1..];
          assert BytesLessAt(a[1..], b[1..], k - 1);
        }
      }
    }
  }

  // ---- Any text -----------------------------------------------------------------------------

  lemma {:induction false} HexDigitsAre(c: char)
    ensures IsHexDigit(c) <==> c in "0123456789abcdefABCDEF"
  {
    if IsHexDigit(c) {
      var d := HexDigitValue(c);
      assert c == "0123456789abcdef"[d] || c == "0123456789ABCDEF"[d];
      assert d < 10 || "0123456789ABCDEF"[d] == "0123456789abcdefABCDEF"[d + 6];
      assert "0123456789abcdef"[d] == "0123456789abcdefABCDEF"[d];
    }
  }

  // What the digits are worth, and the places.
  lemma {:induction false} HexPlaceValue(s: string, d: nat)
    requires AllHexDigits(s) && d < 16
    ensures var c := "0123456789abcdef"[d];
      AllHexDigits(s + [c]) && HexValue(s + [c]) == 16 * HexValue(s) + d && HexValue("") == 0
  {
    var c := "0123456789abcdef"[d];
    assert (s + [c])[..|s|] == s;
  }

  lemma {:induction false} HexRunOf(digits: string, rest: string)
    requires AllHexDigits(digits) && (rest == "" || !IsHexDigit(rest[0]))
    ensures HexRun(digits + rest) == |digits|
  {
    if digits == "" {
      assert digits + rest == rest;
    } else {
      HexRunOf(digits[1..], rest);
      assert (digits + rest)[1..] == digits[1..] + rest;
    }
  }

  ghost predicate HexPrefix(prefix: string, digits: string, rest: string) {
    if prefix == "" then !(digits == "0" && rest != "" && (rest[0] == 'x' || rest[0] == 'X'))
    else prefix == "0x" || prefix == "0X"
  }

  lemma {:induction false} AfterHexPrefix(prefix: string, digits: string, rest: string)
    requires AllHexDigits(digits) && (rest == "" || !IsHexDigit(rest[0])) && HexPrefix(prefix, digits, rest)
    ensures var u := prefix + digits + rest;
      (if |u| >= 2 && u[0] == '0' && (u[1] == 'x' || u[1] == 'X') then u[2..] else u) == digits + rest
  {
    var u := prefix + digits + rest;
    if prefix != "" {
      assert u[0] == '0' && u[1] == prefix[1] && u[2..] == digits + rest;
    } else {
      assert u == digits + rest;
      if |digits| >= 2 {
        assert u[1] == digits[1] && IsHexDigit(digits[1]);
      } else if |digits| == 1 {
        assert digits == [digits[0]];
        assert rest != "" ==> u[1] == rest[0];
      } else {
        assert u == rest;
      }
    }
  }

  // Blanks, perhaps a sign, perhaps 0x, digits, and a rest that does not count.  Without
  // digits the number read is zero.
  lemma {:induction false} HexReads(blanks: string, sign: string, prefix: string, digits: string, rest: string)
    requires AllSpace(blanks) && IsSign(sign) && AllHexDigits(digits) && (rest == "" || !IsHexDigit(rest[0]))
    requires HexPrefix(prefix, digits, rest)
    requires sign == "" && prefix == "" && digits == "" && rest != "" ==>
               !IsSpace(rest[0]) && rest[0] != '+' && rest[0] != '-'
    ensures ReadHex(blanks + (sign + (prefix + digits + rest))) ==
            if sign == "-" then -(HexValue(digits) as int) else HexValue(digits)
  {
    hide HexValue, HexRun, SkipSpace;
    var u := prefix + digits + rest;
    var t := sign + u;
    assert sign == "" ==> t == u;
    assert sign != "" ==> t[0] == sign[0] && t[1..] == u;
    assert prefix != "" ==> u[0] == '0';
    assert prefix == "" && digits != "" ==> u[0] == digits[0] && IsHexDigit(digits[0]);
    assert prefix == "" && digits == "" ==> u == rest;
    SkipBlanks(blanks, t);
    AfterHexPrefix(prefix, digits, rest);
    HexRunOf(digits, rest);
    assert (digits + rest)[..|digits|] == digits;
  }

  // One byte for each two characters, and for a last one that is alone.
  lemma {:induction false} DecodeAt(s: string, k: nat)
    requires 2 * k < |s|
    ensures |Decode(s)| == (|s| + 1) / 2
    ensures Decode(s)[k] == ReadHex(s[2 * k..if 2 * k + 2 <= |s| then 2 * k + 2 else |s|]) % 256
    decreases |s|
  {
    hide ReadHex;
    if |s| <= 2 {
      assert s[0..|s|] == s;
      assert Decode(Tail(s)) == [];
    } else {
      DecodeAt(s[2..], if k == 0 then 0 else k - 1);
      if k > 0 {
        var to := if 2 * k + 2 <= |s| then 2 * k + 2 else |s|;
        assert s[2..][2 * k - 2..to - 2] == s[2 * k..to];
      } else {
        assert s[0..2] == s[..2];
      }
    }
  }
}
