/** Parsing of non-negative decimal numbers (src/string_to_uint.c). */
module StringToUint {
  const LLONG_MAX: nat := 0x7fff_ffff_ffff_ffff

  predicate IsDigit(c: char) {
    '0' <= c <= '9'
  }

  predicate IsSpace(c: char) {
    c == ' ' || '\t' <= c <= '\r'
  }

  function DigitValue(c: char): nat
    requires IsDigit(c)
  {
    c as int - '0' as int
  }

  // The number of leading digits, and of leading white space.

  function DigitSpan(s: string): (n: nat)
    ensures n <= |s|
    ensures forall i :: 0 <= i < n ==> IsDigit(s[i])
    ensures n < |s| ==> !IsDigit(s[n])
  {
    if s != [] && IsDigit(s[0]) then 1 + DigitSpan(s[1..]) else 0
  }

  function SpaceSpan(s: string): (n: nat)
    ensures n <= |s|
    ensures forall i :: 0 <= i < n ==> IsSpace(s[i])
    ensures n < |s| ==> !IsSpace(s[n])
  {
    if s != [] && IsSpace(s[0]) then 1 + SpaceSpan(s[1..]) else 0
  }

  function Value(digits: string): nat
    requires forall i :: 0 <= i < |digits| ==> IsDigit(digits[i])
  {
    if digits == [] then 0
    else 10 * Value(digits[..|digits| - 1]) + DigitValue(digits[|digits| - 1])
  }

  // A number and what follows it in the string.
  datatype Parsed = NoNumber | Number(value: nat, rest: string)

  // Where the digits of a number start, behind white space and a sign.
  function DigitsAt(s: string): (k: nat)
    ensures SpaceSpan(s) <= k <= |s|
  {
    var a := SpaceSpan(s);
    if a < |s| && (s[a] == '-' || s[a] == '+') then a + 1 else a
  }

  // strtoll with base 10, as far as string_to_uint_ex uses its result: nothing else than "no
  // number" is told apart from a negative or an overflowing one.
  function StrToLL(s: string): Parsed {
    var k := DigitsAt(s);
    var n := DigitSpan(s[k..]);
    if n == 0 then NoNumber
    else
      var value := Value(s[k..][..n]);
      if (k > 0 && s[k - 1] == '-' && value > 0) || value > LLONG_MAX then NoNumber
      else Number(value, s[k..][n..])
  }

  // string_to_uint_ex: the number must not exceed the limit and must be followed by the end of
  // the string or by one of the accepted characters.
  function StringToUintEx(s: string, max: nat, accepted: string): Parsed {
    var p := StrToLL(s);
    if p.NoNumber? || p.value > max || (p.rest != [] && p.rest[0] !in accepted) then NoNumber else p
  }

  // Only the part of the string up to the end of the digits matters.
  lemma SameStart(s: string, f: string, rest: string)
    requires s == f + rest && (rest == [] || !IsDigit(rest[0]))
    requires DigitsAt(f) < |f| && IsDigit(f[DigitsAt(f)])
    ensures SpaceSpan(s) == SpaceSpan(f) && DigitsAt(s) == DigitsAt(f)
    ensures DigitSpan(s[DigitsAt(s)..]) == DigitSpan(f[DigitsAt(f)..])
  {
    hide SpaceSpan, DigitSpan;
    assert forall i :: 0 <= i < |f| ==> s[i] == f[i];
    var k := DigitsAt(f);
    var n, m := DigitSpan(f[k..]), DigitSpan(s[k..]);
    assert forall i :: 0 <= i < |f| - k ==> s[k..][i] == f[k..][i];
    assert rest != [] ==> s[|f|] == rest[0] && s[k..][|f| - k] == rest[0];
    assert n < |f| - k ==> !IsDigit(s[k..][n]);
  }

  // The part that is read, read alone, is the same number, ...
  lemma ReadsPrefix(s: string, max: nat, accepted: string) returns (i: nat)
    requires StringToUintEx(s, max, accepted).Number?
    ensures i <= |s| && s[i..] == StringToUintEx(s, max, accepted).rest
    ensures i < |s| ==> s[i] in accepted && !IsDigit(s[i])
    ensures StringToUintEx(s[..i], max, "") == Number(StringToUintEx(s, max, accepted).value, [])
  {
    hide SpaceSpan, DigitSpan, Value, DigitsAt;
    var k := DigitsAt(s);
    var n := DigitSpan(s[k..]);
    i := k + n;
    var f := s[..i];
    assert s == f + s[i..] && s[k..][0] == s[k];
    assert s[k..][n..] == s[i..];
    assert i < |s| ==> s[k..][n] == s[i];
    SameSpaces(s, f);
    SameStart(s, f, s[i..]);
    assert s[k..][..n] == f[k..][..n] && f[k..][n..] == [];
    assert k > 0 ==> s[k - 1] == f[k - 1];
  }

  lemma SameSpaces(s: string, f: string)
    requires f <= s && DigitsAt(s) < |f| && IsDigit(s[DigitsAt(s)])
    ensures SpaceSpan(f) == SpaceSpan(s) && DigitsAt(f) == DigitsAt(s)
  {
    hide SpaceSpan, DigitSpan;
    assert forall i :: 0 <= i < |f| ==> s[i] == f[i];
  }

  // ... and so it is with more behind it.
  lemma ReadsExtend(f: string, rest: string, max: nat, accepted: string)
    requires StringToUintEx(f, max, "").Number?
    requires rest == [] || (!IsDigit(rest[0]) && rest[0] in accepted)
    ensures StringToUintEx(f + rest, max, accepted) == Number(StringToUintEx(f, max, "").value, rest)
  {
    hide SpaceSpan, DigitSpan, Value;
    var s, k := f + rest, DigitsAt(f);
    var n := DigitSpan(f[k..]);
    assert f[k..][n..] == [] && f[k..][0] == f[k];
    SameStart(s, f, rest);
    assert s[k..][..n] == f[k..][..n] && s[k..][n..] == rest && (k > 0 ==> s[k - 1] == f[k - 1]);
  }

  // ---- printing ----

  function Digit(d: nat): char
    requires d < 10
  {
    ('0' as int + d) as char
  }

  function Decimal(n: nat): (s: string)
    ensures |s| >= 1 && forall i :: 0 <= i < |s| ==> IsDigit(s[i])
  {
    if n < 10 then [Digit(n)] else Decimal(n / 10) + [Digit(n % 10)]
  }

  lemma {:induction false} DecimalValue(n: nat)
    ensures Value(Decimal(n)) == n
  {
    if n >= 10 {
      DecimalValue(n / 10);
      var s := Decimal(n);
      assert s[..|s| - 1] == Decimal(n / 10);
    } else {
      assert Decimal(n)[..0] == [];
    }
  }

  lemma {:induction false} SpanOfDigits(digits: string, rest: string)
    requires forall i :: 0 <= i < |digits| ==> IsDigit(digits[i])
    requires rest == [] || !IsDigit(rest[0])
    ensures DigitSpan(digits + rest) == |digits|
  {
    if digits == [] {
      assert digits + rest == rest;
    } else {
      SpanOfDigits(digits[1..], rest);
      assert (digits + rest)[1..] == digits[1..] + rest;
    }
  }

  // What Decimal prints, StringToUintEx reads, up to a character that is no digit.
  lemma DecimalParses(n: nat, rest: string, max: nat, accepted: string)
    requires n <= max <= LLONG_MAX
    requires rest == [] || (!IsDigit(rest[0]) && rest[0] in accepted)
    ensures StringToUintEx(Decimal(n) + rest, max, accepted) == Number(n, rest)
  {
    var d := Decimal(n);
    var s := d + rest;
    assert IsDigit(s[0]) && !IsSpace(s[0]) && s[0..] == s;
    SpanOfDigits(d, rest);
    assert s[..|d|] == d && s[|d|..] == rest;
    DecimalValue(n);
  }

  // What is no number: one above the limit, or one with something else behind it.
  lemma DecimalRefused(n: nat, rest: string, max: nat, accepted: string)
    requires rest == [] || !IsDigit(rest[0])
    requires n > max || (rest != [] && rest[0] !in accepted)
    ensures StringToUintEx(Decimal(n) + rest, max, accepted) == NoNumber
  {
    hide Decimal;
    StrToLLDecimal(n, rest);
  }

  lemma StrToLLDecimal(n: nat, rest: string)
    requires rest == [] || !IsDigit(rest[0])
    ensures StrToLL(Decimal(n) + rest) == if n > LLONG_MAX then NoNumber else Number(n, rest)
  {
    hide Value, DigitSpan;
    var d := Decimal(n);
    var s := d + rest;
    assert IsDigit(s[0]) && !IsSpace(s[0]) && s[0..] == s;
    SpanOfDigits(d, rest);
    assert s[..|d|] == d && s[|d|..] == rest;
    DecimalValue(n);
  }

  // White space before a number does not matter; any other character that is neither a digit nor
  // a sign does.
  lemma FirstCharacter(c: char, s: string)
    ensures c in [' ', '\t', '\n', '\r'] ==> StrToLL([c] + s) == StrToLL(s)
    ensures 'A' <= c ==> StrToLL([c] + s) == NoNumber
  {
    if c in [' ', '\t', '\n', '\r'] {
      SpaceFirst(c, s);
    } else if 'A' <= c {
      LetterFirst(c, s);
    }
  }

  lemma DigitsOneLater(c: char, s: string)
    requires IsSpace(c)
    ensures DigitsAt([c] + s) == DigitsAt(s) + 1
  {
    var t := [c] + s;
    assert t[1..] == s && SpaceSpan(t) == 1 + SpaceSpan(s);
    assert forall i :: 0 <= i < |s| ==> t[i + 1] == s[i];
  }

  lemma SpaceFirst(c: char, s: string)
    requires IsSpace(c)
    ensures StrToLL([c] + s) == StrToLL(s)
  {
    hide Value, DigitSpan, DigitsAt, SpaceSpan;
    DigitsOneLater(c, s);
    var t, k := [c] + s, DigitsAt(s);
    assert t[k + 1..] == s[k..] && t[k] == if k == 0 then c else s[k - 1];
  }

  lemma LetterFirst(c: char, s: string)
    requires !IsSpace(c) && !IsDigit(c) && c != '+' && c != '-'
    ensures StrToLL([c] + s) == NoNumber
  {
    hide Value;
    var t := [c] + s;
    assert SpaceSpan(t) == 0 && DigitsAt(t) == 0 && t[0..] == t && DigitSpan(t) == 0;
  }

  // A plus sign does not matter; a minus sign leaves only zero.
  lemma SignedDecimal(sign: char, n: nat)
    requires (sign == '+' || sign == '-') && n <= LLONG_MAX
    ensures StrToLL([sign] + Decimal(n)) == if sign == '-' && n > 0 then NoNumber else Number(n, [])
  {
    hide Value, DigitSpan;
    var d := Decimal(n);
    var s := [sign] + d;
    assert !IsSpace(s[0]) && s[1..] == d && d + [] == d;
    SpanOfDigits(d, []);
    assert d[..|d|] == d && d[|d|..] == [];
    DecimalValue(n);
  }
}
