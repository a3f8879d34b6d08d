/**
 Decimal integers as java.lang.Integer reads and writes them: `parseInt` accepts an
 optional sign followed by one or more ASCII digits whose value fits in 32 bits, and
 `toString` writes the canonical form. The lenient parser used by the button path first
 deletes every character other than digits and '-'.
 */
module Integers {
  import opened Wrappers
  import opened Strings

  const INT_MIN: int := -0x8000_0000
  const INT_MAX: int := 0x7FFF_FFFF

  predicate IsInt32(n: int) {
    INT_MIN <= n <= INT_MAX
  }

  predicate IsDigit(c: char) {
    '0' <= c <= '9'
  }

  predicate AllDigits(s: string) {
    forall i :: 0 <= i < |s| ==> IsDigit(s[i])
  }

  /** The value of a string of digits, most significant first. */
  function DigitsValue(s: string): nat
    requires AllDigits(s)
  {
    if s == [] then 0
    else DigitsValue(s[..|s| - 1]) * 10 + (s[|s| - 1] as int - '0' as int)
  }

  function DigitChar(d: nat): (c: char)
    requires d < 10
    ensures IsDigit(c) && c as int - '0' as int == d
  {
    (d + '0' as int) as char
  }

  /** The decimal digits of `n` without leading zeros. */
  function NatToDigits(n: nat): (s: string)
    ensures |s| > 0 && AllDigits(s)
    ensures |s| > 1 ==> s[0] != '0'
  {
    if n < 10 then [DigitChar(n)] else NatToDigits(n / 10) + [DigitChar(n % 10)]
  }

  lemma {:induction false} DigitsRoundTrip(n: nat)
    ensures DigitsValue(NatToDigits(n)) == n
  {
    if n >= 10 {
      var s := NatToDigits(n);
      assert s[..|s| - 1] == NatToDigits(n / 10);
      DigitsRoundTrip(n / 10);
    }
  }

  /** `Integer.toString`. */
  function IntToString(n: int): string {
    if n < 0 then "-" + NatToDigits(-n) else NatToDigits(n)
  }

  /** A decimal numeral: an optional '-' or '+' followed by at least one digit. */
  predicate Numeral(s: string) {
    && |s| > 0
    && if s[0] == '-' || s[0] == '+' then |s| > 1 && AllDigits(s[1..]) else AllDigits(s)
  }

  /** The signed value a numeral denotes; leading zeros and "-0" mean what they say. */
  function NumeralValue(s: string): int
    requires Numeral(s)
  {
    if s[0] == '-' then 0 - DigitsValue(s[1..]) as int
    else if s[0] == '+' then DigitsValue(s[1..])
    else DigitsValue(s)
  }

  /** `Integer.parseInt` (radix 10, ASCII digits). */
  function ParseInt(s: string): (r: Option<int>)
    ensures r.Some? <==> Numeral(s) && IsInt32(NumeralValue(s))
    ensures r.Some? ==> r.value == NumeralValue(s)
    ensures r.Some? ==> IsInt32(r.value)
  {
    if |s| == 0 then None
    else
      var signed := s[0] == '-' || s[0] == '+';
      var digits := if signed then s[1..] else s;
      if |digits| == 0 || !AllDigits(digits) then None
      else
        var magnitude: int := DigitsValue(digits);
        var n: int := if s[0] == '-' then -magnitude else magnitude;
        if IsInt32(n) then Some(n) else None
  }

  /** Parsing the text `Integer.toString` writes gives the integer back. */
  lemma ParseIntToString(n: int)
    requires IsInt32(n)
    ensures ParseInt(IntToString(n)) == Some(n)
  {
    var s := IntToString(n);
    if n < 0 {
      assert s[1..] == NatToDigits(-n);
      DigitsRoundTrip(-n);
    } else {
      DigitsRoundTrip(n);
    }
  }

  predicate IsDigitOrMinus(c: char) {
    IsDigit(c) || c == '-'
  }

  /** The button path's parser: `parseInt(value.replaceAll("[^0-9-]", ""))`, null on failure. */
  function LenientParseInt(s: string): (r: Option<int>)
    ensures r.Some? ==> IsInt32(r.value)
    ensures (forall i :: 0 <= i < |s| ==> IsDigitOrMinus(s[i])) ==> r == ParseInt(s)
  {
    ParseInt(Keep(s, IsDigitOrMinus))
  }

  /** A sign, leading zeros and "-0" are all accepted by `Integer.parseInt`. */
  lemma ParseIntAccepts()
    ensures ParseInt("+7") == Some(7) && ParseInt("007") == Some(7) && ParseInt("-0") == Some(0)
  {
    assert Numeral("+7") && Numeral("007") && Numeral("-0");
    assert DigitsValue("007") == 7 by { assert "007"[..2] == "00"; assert "00"[..1] == "0"; }
  }

  /** Empty text, a bare sign, two signs and a value just past 32 bits are rejected. */
  lemma ParseIntRejects()
    ensures ParseInt("") == None && ParseInt("-") == None && ParseInt("+-1") == None
    ensures ParseInt("2147483648") == None
  {
    assert !Numeral("+-1") by { assert !IsDigit("+-1"[1..][0]); }
    assert NumeralValue("2147483648") > INT_MAX by {
      assert "2147483648"[..9] == "214748364";
      assert "214748364"[..8] == "21474836";
      assert "21474836"[..7] == "2147483";
      assert "2147483"[..6] == "214748";
      assert "214748"[..5] == "21474";
      assert "21474"[..4] == "2147";
      assert "2147"[..3] == "214";
      assert "214"[..2] == "21";
      assert "21"[..1] == "2";
    }
  }

  /**
   Every character other than a digit or '-' is invisible to the lenient parser,
   wherever it stands.
   */
  lemma LenientIgnoresOther(a: string, c: char, b: string)
    requires !IsDigitOrMinus(c)
    ensures LenientParseInt(a + [c] + b) == LenientParseInt(a + b)
  {
    var ka, kb := Keep(a, IsDigitOrMinus), Keep(b, IsDigitOrMinus);
    KeepCons([c], IsDigitOrMinus);
    KeepAppend(a, [c], IsDigitOrMinus);
    assert Keep(a + [c], IsDigitOrMinus) == ka;
    KeepAppend(a + [c], b, IsDigitOrMinus);
    KeepAppend(a, b, IsDigitOrMinus);
    assert Keep(a + [c] + b, IsDigitOrMinus) == Keep(a + b, IsDigitOrMinus);
  }

  /** A space between digits is dropped, so "1 0" reads as ten. */
  lemma LenientJoinsDigits()
    ensures LenientParseInt("1 0") == Some(10)
  {
    assert LenientParseInt("10") == Some(10) by {
      assert IsDigitOrMinus("10"[0]) && IsDigitOrMinus("10"[1]);
      assert DigitsValue("10") == 10 by { assert "10"[..1] == "1"; }
    }
    var a, b := "1", "0";
    assert a + [' '] + b == "1 0" && a + b == "10";
    LenientIgnoresOther(a, ' ', b);
  }

  /** A unit suffix such as "px" is ignored by the lenient parser. */
  lemma LenientIgnoresUnit(n: int, unit: string)
    requires IsInt32(n)
    requires forall i :: 0 <= i < |unit| ==> !IsDigitOrMinus(unit[i])
    ensures LenientParseInt(IntToString(n) + unit) == Some(n)
  {
    var s := IntToString(n);
    KeepAppend(s, unit, IsDigitOrMinus);
    assert Keep(unit, IsDigitOrMinus) == [];
    assert Keep(s, IsDigitOrMinus) == s;
    assert Keep(s + unit, IsDigitOrMinus) == s;
    ParseIntToString(n);
  }

  /** The strict parser rejects the same text as soon as a unit follows the number. */
  lemma StrictRejectsUnit(n: int, unit: string)
    requires |unit| > 0 && !IsDigitOrMinus(unit[0]) && unit[0] != '+'
    ensures ParseInt(IntToString(n) + unit) == None
  {
    var s := IntToString(n) + unit;
    var k := |IntToString(n)|;
    assert s[k] == unit[0];
    assert k >= 1;
    assert s[1..][k - 1] == unit[0];
  }
}
