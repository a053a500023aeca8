/**
 * The decimal text of a pid file: `'%s' % os.getpid()` writes it and
 * Python 2's `int(...)` reads it back (sigasync/spool_control.py).
 */
module Decimal {
  import opened Wrappers

  predicate IsDigit(c: char) { '0' <= c <= '9' }

  /** The characters Python 2's `str.strip()` removes. */
  predicate IsSpace(c: char) {
    c == ' ' || c == '\t' || c == '\n' || c == '\r' || c == '\U{B}' || c == '\U{C}'
  }

  predicate AllDigits(s: string) {
    forall i :: 0 <= i < |s| ==> IsDigit(s[i])
  }

  function DigitChar(d: nat): (c: char)
    requires d < 10
    ensures IsDigit(c)
  {
    (('0' as int) + d) as char
  }

  /** Decimal digits of `n`, most significant first, no leading zero. */
  function Digits(n: nat): (s: string)
    ensures |s| >= 1 && AllDigits(s)
    ensures s[0] == '0' ==> n == 0
  {
    if n < 10 then [DigitChar(n)] else Digits(n / 10) + [DigitChar(n % 10)]
  }

  /** `'%s' % i` for an integer. */
  function FormatInt(i: int): (s: string)
    ensures |s| >= 1 && !IsSpace(s[0]) && !IsSpace(s[|s| - 1])
  {
    if i < 0 then "-" + Digits(-i) else Digits(i)
  }

  /** The value of a digit string read most significant first. */
  function DigitsValue(s: string): nat
    requires AllDigits(s)
  {
    if s == [] then 0
    else DigitsValue(s[..|s| - 1]) * 10 + ((s[|s| - 1] as int) - ('0' as int))
  }

  function StripLeft(s: string): (r: string)
    ensures |r| <= |s| && s[|s| - |r|..] == r
    ensures r == [] || !IsSpace(r[0])
  {
    if s != [] && IsSpace(s[0]) then StripLeft(s[1..]) else s
  }

  function StripRight(s: string): (r: string)
    ensures |r| <= |s| && s[..|r|] == r
    ensures r == [] || !IsSpace(r[|r| - 1])
  {
    if s != [] && IsSpace(s[|s| - 1]) then StripRight(s[..|s| - 1]) else s
  }

  /** `s.strip()`. */
  function Strip(s: string): string {
    StripRight(StripLeft(s))
  }

  /**
   * Python 2's `int(s)` on a pid file's contents: surrounding whitespace,
   * an optional sign, whitespace after the sign, and at least one decimal
   * digit; anything else raises ValueError, modelled as None.
   */
  function ParseInt(s: string): Option<int> {
    ParseNumeral(Strip(s))
  }

  /** `int()` on text already stripped of surrounding whitespace. */
  function ParseNumeral(t: string): Option<int> {
    if |t| > 0 && (t[0] == '-' || t[0] == '+') then
      var d := StripLeft(t[1..]);
      if |d| > 0 && AllDigits(d) then
        var v: int := DigitsValue(d);
        Some(if t[0] == '-' then -v else v)
      else None
    else if |t| > 0 && AllDigits(t) then Some(DigitsValue(t))
    else None
  }

  predicate AllSpaces(s: string) {
    forall i :: 0 <= i < |s| ==> IsSpace(s[i])
  }

  lemma {:induction false} StripLeftSpaces(lead: string, x: string)
    requires AllSpaces(lead) && (x == [] || !IsSpace(x[0]))
    ensures StripLeft(lead + x) == x
  {
    if lead != [] {
      assert (lead + x)[1..] == lead[1..] + x;
      StripLeftSpaces(lead[1..], x);
    }
  }

  lemma {:induction false} StripRightSpaces(x: string, trail: string)
    requires AllSpaces(trail) && (x == [] || !IsSpace(x[|x| - 1]))
    ensures StripRight(x + trail) == x
  {
    if trail != [] {
      var n := |trail| - 1;
      assert (x + trail)[..|x + trail| - 1] == x + trail[..n];
      StripRightSpaces(x, trail[..n]);
    }
  }

  /** `strip()` removes exactly the whitespace around text that starts and
      ends with a non-space. */
  lemma StripAround(lead: string, t: string, trail: string)
    requires AllSpaces(lead) && AllSpaces(trail)
    requires t != [] && !IsSpace(t[0]) && !IsSpace(t[|t| - 1])
    ensures Strip(lead + t + trail) == t
  {
    assert lead + t + trail == lead + (t + trail);
    StripLeftSpaces(lead, t + trail);
    StripRightSpaces(t, trail);
  }

  /** A digit is neither whitespace nor a sign. */
  lemma DigitIsBare(c: char)
    requires IsDigit(c)
    ensures !IsSpace(c) && c != '-' && c != '+'
  {
  }

  /** An unsigned run of digits is read as its value. */
  lemma NumeralUnsigned(digits: string)
    requires digits != [] && AllDigits(digits)
    ensures ParseNumeral(digits) == Some(DigitsValue(digits) as int)
  {
    DigitIsBare(digits[0]);
  }

  /** After a sign, `int()` skips whitespace and reads the digits. */
  lemma NumeralSigned(t: string, gap: string, digits: string)
    requires |t| > 0 && (t[0] == '-' || t[0] == '+')
    requires AllSpaces(gap) && t[1..] == gap + digits
    requires digits != [] && AllDigits(digits)
    ensures ParseNumeral(t)
      == Some(if t[0] == '-' then -(DigitsValue(digits) as int) else DigitsValue(digits) as int)
  {
    DigitIsBare(digits[0]);
    StripLeftSpaces(gap, digits);
  }

  /** A stripped numeral, optionally signed with whitespace after the sign,
      is read as its value. */
  lemma NumeralValue(sign: string, gap: string, digits: string)
    requires AllSpaces(gap)
    requires sign == "" || sign == "-" || sign == "+"
    requires sign == "" ==> gap == ""
    requires digits != [] && AllDigits(digits)
    ensures ParseNumeral(sign + gap + digits)
      == Some(if sign == "-" then -(DigitsValue(digits) as int) else DigitsValue(digits) as int)
  {
    var t := sign + gap + digits;
    if sign == "" {
      assert t == digits;
      NumeralUnsigned(digits);
    } else {
      assert |sign| == 1 && t[0] == sign[0];
      assert t[1..] == gap + digits;
      NumeralSigned(t, gap, digits);
    }
  }

  /**
   * Every numeral `int()` takes is read as its value: a run of digits,
   * optionally signed, with whitespace around it and between the sign and
   * the digits.
   */
  lemma ParseIntOfNumeral(lead: string, sign: string, gap: string, digits: string, trail: string)
    requires AllSpaces(lead) && AllSpaces(gap) && AllSpaces(trail)
    requires sign == "" || sign == "-" || sign == "+"
    requires sign == "" ==> gap == ""
    requires digits != [] && AllDigits(digits)
    ensures ParseInt(lead + sign + gap + digits + trail)
      == Some(if sign == "-" then -(DigitsValue(digits) as int) else DigitsValue(digits) as int)
  {
    var t := sign + gap + digits;
    assert lead + sign + gap + digits + trail == lead + t + trail;
    assert t[|t| - 1] == digits[|digits| - 1];
    assert !IsSpace(t[0]) by {
      if sign == "" { assert t[0] == digits[0]; } else { assert t[0] == sign[0]; }
    }
    StripAround(lead, t, trail);
    NumeralValue(sign, gap, digits);
  }

  /** Text that starts and ends with a non-space is left alone by `strip()`. */
  lemma StripBare(t: string)
    requires t != [] && !IsSpace(t[0]) && !IsSpace(t[|t| - 1])
    ensures Strip(t) == t
  {
  }

  /** Python 2's `int()` skips whitespace after the sign: `int('- 5') == -5`. */
  lemma ParseIntSpaceAfterSign()
    ensures ParseInt("- 5") == Some(-5)
  {
    var t := "- 5";
    assert ParseNumeral(t) == Some(-5) by {
      var d := "5";
      assert DigitsValue(d) == 5 by {
        assert d[..0] == [];
      }
      assert t[1..] == " " + d;
      NumeralSigned(t, " ", d);
    }
    StripBare(t);
  }

  /** `int()` rejects contents that are blank once stripped, accepts only
      text that ends in a digit, and reads a negative value only after a
      minus sign. */
  lemma ParseIntShape(s: string)
    ensures Strip(s) == [] ==> ParseInt(s) == None
    ensures ParseInt(s).Some? ==> IsDigit(Strip(s)[|Strip(s)| - 1])
    ensures ParseInt(s).Some? && ParseInt(s).value < 0 ==> Strip(s)[0] == '-'
  {
  }

  lemma {:induction false} DigitsValueOfDigits(n: nat)
    ensures DigitsValue(Digits(n)) == n
  {
    var s := Digits(n);
    if n >= 10 {
      DigitsValueOfDigits(n / 10);
      assert s[..|s| - 1] == Digits(n / 10);
    }
  }

  /** Round trip: `int('%s' % i) == i` for every integer, so the pid read
      back from a pid file is the pid that was written. */
  lemma ParseFormat(i: int)
    ensures ParseInt(FormatInt(i)) == Some(i)
  {
    var t := FormatInt(i);
    var n: nat := if i < 0 then -i else i;
    var d := Digits(n);
    assert ParseNumeral(t) == Some(i) by {
      DigitsValueOfDigits(n);
      if i < 0 {
        assert t == "-" + d;
        assert t[1..] == [] + d;
        NumeralSigned(t, [], d);
      } else {
        assert t == d;
        NumeralUnsigned(d);
      }
    }
    StripBare(t);
  }
}
