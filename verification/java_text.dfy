/** The string facts the accessors rely on: String.equalsIgnoreCase, the
    "no value" sentinel test, and the JDK's decimal parsers (Long.parseLong and
    its narrower siblings, new BigInteger(String), new BigDecimal(String)) with
    Long.toString as their inverse. */
module JavaText {
  import opened Outcomes
  import opened JavaNumbers

  /** Character.toUpperCase restricted to ASCII letters. */
  function UpperAscii(c: char): char
  {
    if 'a' <= c <= 'z' then (c as int - 32) as char else c
  }

  /** String.equalsIgnoreCase, with ASCII case folding. */
  predicate EqualsIgnoreCase(s: string, t: string)
  {
    |s| == |t| && forall k :: 0 <= k < |s| ==> UpperAscii(s[k]) == UpperAscii(t[k])
  }

  /** Every letter of a text in upper case. */
  function UpperText(s: string): (r: string)
    ensures |r| == |s|
    ensures forall k :: 0 <= k < |s| ==> r[k] == UpperAscii(s[k])
  {
    if |s| == 0 then [] else [UpperAscii(s[0])] + UpperText(s[1..])
  }

  /** equalsIgnoreCase holds exactly when the two texts are the same once
      both are put in upper case; so it is an equivalence. */
  lemma EqualsIgnoreCaseMeansSameUpperCase(s: string, t: string)
    ensures EqualsIgnoreCase(s, t) <==> UpperText(s) == UpperText(t)
  {
    if UpperText(s) == UpperText(t) {
      assert |s| == |t|;
      forall k | 0 <= k < |s|
        ensures UpperAscii(s[k]) == UpperAscii(t[k])
      {
        assert UpperText(s)[k] == UpperText(t)[k];
      }
    }
  }

  /** The "no value" text: `str.isEmpty() || str.equalsIgnoreCase("null")`. */
  predicate IsSentinelText(s: string)
  {
    |s| == 0 || EqualsIgnoreCase(s, "null")
  }

  /** The text a boolean getter reads as true: `"true"` in any case, or `"1"`. */
  predicate IsTrueText(s: string)
  {
    EqualsIgnoreCase(s, "true") || s == "1"
  }

  /** The sentinel texts are exactly the empty string and the sixteen spellings
      of null with each letter in either case. */
  lemma SentinelSpellings(s: string)
    ensures IsSentinelText(s) <==>
      s == "" ||
      (|s| == 4 && (s[0] == 'n' || s[0] == 'N') && (s[1] == 'u' || s[1] == 'U')
                && (s[2] == 'l' || s[2] == 'L') && (s[3] == 'l' || s[3] == 'L'))
  {
    if |s| == 4 {
      assert UpperAscii(s[0]) == 'N' <==> (s[0] == 'n' || s[0] == 'N');
      assert UpperAscii(s[1]) == 'U' <==> (s[1] == 'u' || s[1] == 'U');
      assert UpperAscii(s[2]) == 'L' <==> (s[2] == 'l' || s[2] == 'L');
      assert UpperAscii(s[3]) == 'L' <==> (s[3] == 'l' || s[3] == 'L');
      assert EqualsIgnoreCase(s, "null") <==>
        UpperAscii(s[0]) == 'N' && UpperAscii(s[1]) == 'U' && UpperAscii(s[2]) == 'L' && UpperAscii(s[3]) == 'L';
    }
  }

  /** No sentinel reads as true, so skipping the sentinel test before the
      true/1 test cannot change a boolean answer. */
  lemma SentinelIsNotTrue(s: string)
    ensures IsSentinelText(s) ==> !IsTrueText(s)
  {
    if |s| > 0 && IsSentinelText(s) {
      assert UpperAscii(s[0]) == 'N';
      assert UpperAscii("true"[0]) == 'T';
    }
  }

  predicate IsDigit(c: char)
  {
    '0' <= c <= '9'
  }

  predicate AllDigits(s: string)
  {
    forall k :: 0 <= k < |s| ==> IsDigit(s[k])
  }

  function DigitValue(c: char): nat
    requires IsDigit(c)
  {
    c as int - '0' as int
  }

  function DigitChar(d: nat): (c: char)
    requires d < 10
    ensures IsDigit(c) && DigitValue(c) == d
  {
    ('0' as int + d) as char
  }

  /** The number a run of decimal digits denotes, most significant first. */
  function DigitsValue(s: string): nat
    requires AllDigits(s)
  {
    if |s| == 0 then 0 else DigitsValue(s[..|s| - 1]) * 10 + DigitValue(s[|s| - 1])
  }

  /** The digits of a number, without leading zeros (Long.toString of a
      non-negative value). */
  function NatToText(n: nat): (s: string)
    ensures |s| > 0 && AllDigits(s)
  {
    if n < 10 then [DigitChar(n)] else NatToText(n / 10) + [DigitChar(n % 10)]
  }

  /** Long.toString and BigInteger.toString: a minus sign for a negative value,
      then the digits of the magnitude. */
  function IntegerToText(n: int): string
  {
    if n < 0 then "-" + NatToText(-n) else NatToText(n)
  }

  /** The integer syntax of Long.parseLong and new BigInteger(String): an
      optional `+` or `-`, then one or more decimal digits, with no range limit. */
  function ParseInteger(s: string): (r: Option<int>)
    ensures r.Some? ==> |s| > 0
    ensures r.Some? && r.value < 0 ==> s[0] == '-'
    ensures r.Some? && s[0] == '-' ==> r.value <= 0
  {
    if |s| == 0 then None
    else
      var digits := if s[0] == '-' || s[0] == '+' then s[1..] else s;
      if |digits| == 0 || !AllDigits(digits) then None
      else if s[0] == '-' then Some(-(DigitsValue(digits) as int))
      else Some(DigitsValue(digits))
  }

  lemma {:induction false} NatToTextValue(n: nat)
    ensures DigitsValue(NatToText(n)) == n
  {
    if n >= 10 {
      var s := NatToText(n);
      var p := NatToText(n / 10);
      assert s == p + [DigitChar(n % 10)];
      assert s[..|s| - 1] == p;
      NatToTextValue(n / 10);
    }
  }

  /** Parsing the text Long.toString writes gives the number back. */
  lemma ParseIntegerRoundTrip(n: int)
    ensures ParseInteger(IntegerToText(n)) == Some(n)
  {
    if n < 0 {
      var s := IntegerToText(n);
      assert s[1..] == NatToText(-n);
      NatToTextValue(-n);
    } else {
      NatToTextValue(n);
    }
  }

  /** The first index of s holding c1 or c2 (the exponent marker `e` or
      `E`), or |s| when there is none. */
  function FirstIndexOf(s: string, c1: char, c2: char): (k: nat)
    ensures k <= |s|
    ensures k < |s| ==> s[k] == c1 || s[k] == c2
    ensures forall j :: 0 <= j < k ==> s[j] != c1 && s[j] != c2
  {
    if |s| == 0 then 0
    else if s[0] == c1 || s[0] == c2 then 0
    else 1 + FirstIndexOf(s[1..], c1, c2)
  }

  /** The first index of s holding c, or |s| when there is none. */
  function IndexOf(s: string, c: char): (k: nat)
    ensures k <= |s|
    ensures k < |s| ==> s[k] == c
    ensures forall j :: 0 <= j < k ==> s[j] != c
  {
    FirstIndexOf(s, c, c)
  }

  /** new BigDecimal(String): an optional sign, digits with at most one `.`
      (at least one digit in all), then an optional `e` or `E` and a signed
      exponent. The unscaled value is all the digits read as one number and the
      scale is the number of fraction digits less the exponent; an exponent or
      a scale outside the int range is refused. */
  function ParseDecimal(s: string): (r: Option<BigDecimal>)
    ensures r.Some? && r.value.unscaled < 0 ==> |s| > 0 && s[0] == '-'
    ensures r.Some? && |s| > 0 && s[0] == '-' ==> r.value.unscaled <= 0
  {
    if |s| > 0 && (s[0] == '-' || s[0] == '+') then ParseUnsignedDecimal(s[0] == '-', s[1..])
    else ParseUnsignedDecimal(false, s)
  }

  /** new BigDecimal(String) once the sign has been read: the significand
      runs up to the first `e` or `E`, the exponent follows it. */
  function ParseUnsignedDecimal(negative: bool, body: string): Option<BigDecimal>
  {
    var e := FirstIndexOf(body, 'e', 'E');
    Assemble(negative, SplitAtPoint(body[..e]), ExponentAfter(body, e))
  }

  /** The exponent written after index e of the text, zero when there is none. */
  function ExponentAfter(body: string, e: nat): Option<int>
    requires e <= |body|
  {
    if e < |body| then ParseInteger(body[e + 1..]) else Some(0)
  }

  /** A magnitude with its sign applied. */
  function Signed(negative: bool, magnitude: nat): int
  {
    if negative then -(magnitude as int) else magnitude
  }

  /** The BigDecimal denoted by a sign, the digits around the point and an
      exponent, when the exponent and the resulting scale are both ints. */
  function Assemble(negative: bool, parts: Option<(string, string)>, exponent: Option<int>): Option<BigDecimal>
  {
    if parts.None? || exponent.None? then None
    else
      var whole := parts.value.0;
      var fraction := parts.value.1;
      var scale := |fraction| - exponent.value;
      if !InWidth(W32, exponent.value) || !InWidth(W32, scale) || !AllDigits(whole + fraction) then None
      else
        Some(BigDecimal(Signed(negative, DigitsValue(whole + fraction)), scale))
  }

  /** The digits before and after the point of a significand, when it is one
      or more digits with at most one point among them. */
  function SplitAtPoint(significand: string): (r: Option<(string, string)>)
    ensures r.Some? ==> AllDigits(r.value.0) && AllDigits(r.value.1)
  {
    var dot := IndexOf(significand, '.');
    var whole := significand[..dot];
    var fraction := if dot < |significand| then significand[dot + 1..] else [];
    if |whole| + |fraction| == 0 || !AllDigits(whole) || !AllDigits(fraction) then None
    else Some((whole, fraction))
  }

  /** A text with a minus sign in front when negative. */
  function SignedText(negative: bool, text: string): string
  {
    if negative then "-" + text else text
  }

  /** Digits with a `.` before index point, or no point at all when point is
      past the last digit. */
  function PointedText(digits: string, point: nat): string
    requires point <= |digits|
  {
    if point == |digits| then digits else digits[..point] + "." + digits[point..]
  }
}
