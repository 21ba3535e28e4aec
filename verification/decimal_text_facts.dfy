/** Proofs about the decimal text functions: new BigDecimal(String) reads
    back the decimal digits of a value with a point placed by its scale (what
    BigDecimal.toPlainString and Long.toString write), and examples of
    the texts Double.toString and Float.toString produce. */
module DecimalTextFacts {
  import opened Outcomes
  import opened JavaNumbers
  import opened JavaText

  /** The text of an integer is read by new BigDecimal(String) as that integer
      with scale zero. */
  lemma ParseDecimalOfInteger(n: int)
    ensures ParseDecimal(IntegerToText(n)) == Some(BigDecimal(n, 0))
  {
    var digits := NatToText(if n < 0 then -n else n);
    assert IntegerToText(n) == SignedText(n < 0, PointedText(digits, |digits|));
    NatToTextValue(if n < 0 then -n else n);
    ParseDecimalRoundTrip(BigDecimal(n, 0), digits);
  }

  /** new BigDecimal(String) reads every text new BigInteger(String) accepts,
      a sign and leading zeros included, as the same integer with scale 0. */
  lemma DecimalReadsIntegerText(s: string)
    ensures ParseInteger(s).Some? ==> ParseDecimal(s) == Some(BigDecimal(ParseInteger(s).value, 0))
  {
    if ParseInteger(s).Some? {
      var negative := s[0] == '-';
      var digits := if s[0] == '-' || s[0] == '+' then s[1..] else s;
      IntegerTextSign(s, negative, digits);
      PlainDigitsDecimal(negative, digits);
    }
  }

  /** An integer text is its sign and then its digits, for both parsers. */
  lemma IntegerTextSign(s: string, negative: bool, digits: string)
    requires ParseInteger(s).Some?
    requires negative == (s[0] == '-')
    requires digits == if s[0] == '-' || s[0] == '+' then s[1..] else s
    ensures |digits| > 0 && AllDigits(digits)
    ensures ParseInteger(s).value == Signed(negative, DigitsValue(digits))
    ensures ParseDecimal(s) == ParseUnsignedDecimal(negative, digits)
  {
  }

  /** Digits alone, with no point and no exponent, are an integer of scale 0. */
  lemma PlainDigitsDecimal(negative: bool, digits: string)
    requires |digits| > 0 && AllDigits(digits)
    ensures ParseUnsignedDecimal(negative, digits) == Some(BigDecimal(Signed(negative, DigitsValue(digits)), 0))
  {
    SplitPlain(digits, |digits|);
    assert digits[..|digits|] == digits && digits[|digits|..] == "";
    DigitsHaveNoMarkers(digits, 'e', 'E');
    ParseUnsignedPlain(negative, digits, digits, "");
    assert digits + "" == digits;
  }

  /** Double.toString writes 1.1 for the double nearest 1.1; read back, it
      keeps its one fraction digit. */
  lemma DecimalOnePointOne()
    ensures ParseDecimal("1.1") == Some(BigDecimal(11, 1))
  {
    ElevenTenths();
    ParseDecimalRoundTrip(BigDecimal(11, 1), "11");
  }

  /** "1.1" is the digits 11 with the point before the last of them. */
  lemma ElevenTenths()
    ensures "1.1" == SignedText(false, PointedText("11", 1))
    ensures AllDigits("11") && DigitsValue("11") == 11
  {
    assert "11"[..1] == "1" && "11"[1..] == "1";
    assert "11"[..1][..0] == "";
  }

  /** Double.toString writes 1.0E10 for ten billion; read back, the
      exponent lowers the scale below zero. */
  lemma DecimalWithExponent()
    ensures ParseDecimal("-1.0E10") == Some(BigDecimal(-10, -9))
  {
    TenBillionText();
    PointedExponentValue(true, "1", "0", 10);
    assert DigitsValue("1" + "0") == 10 by {
      assert "1" + "0" == "10" && "10"[..1] == "1" && "1"[..0] == "";
    }
  }

  lemma TenBillionText()
    ensures "-1.0E10" == SignedText(true, "1" + "." + "0" + "E" + IntegerToText(10))
  {
    assert NatToText(10) == NatToText(1) + [DigitChar(0)];
  }

  /** The scientific form Double.toString writes, an optional minus sign,
      whole digits, a point, fraction digits, `E` and an exponent n, is read
      with all the digits as the unscaled value and the fraction's length less
      n as the scale, when n and that scale are ints. */
  lemma PointedExponentValue(negative: bool, whole: string, fraction: string, n: int)
    requires AllDigits(whole) && AllDigits(fraction) && |whole| > 0
    requires InWidth(W32, n) && InWidth(W32, |fraction| - n)
    ensures AllDigits(whole + fraction)
    ensures ParseDecimal(SignedText(negative, whole + "." + fraction + "E" + IntegerToText(n))) ==
      Some(BigDecimal(Signed(negative, DigitsValue(whole + fraction)), |fraction| - n))
  {
    var text := whole + "." + fraction + "E" + IntegerToText(n);
    assert text[0] == whole[0];
    ConcatDigits(whole, fraction);
    SignOfDigitText(negative, text);
    UnsignedExponentValue(negative, whole, fraction, n);
  }

  /** The same text once the sign has been read. */
  lemma UnsignedExponentValue(negative: bool, whole: string, fraction: string, n: int)
    requires AllDigits(whole) && AllDigits(fraction) && |whole| > 0
    requires InWidth(W32, n) && InWidth(W32, |fraction| - n)
    ensures AllDigits(whole + fraction)
    ensures ParseUnsignedDecimal(negative, whole + "." + fraction + "E" + IntegerToText(n)) ==
      Some(BigDecimal(Signed(negative, DigitsValue(whole + fraction)), |fraction| - n))
  {
    ConcatDigits(whole, fraction);
    SplitPointed(whole, fraction);
    ExponentTextParts(negative, whole + "." + fraction, n);
    AssembleDigits(negative, whole, fraction, n);
  }

  /** The BigDecimal assembled from whole and fraction digits and an
      exponent. */
  lemma AssembleDigits(negative: bool, whole: string, fraction: string, n: int)
    requires AllDigits(whole) && AllDigits(fraction)
    requires InWidth(W32, n) && InWidth(W32, |fraction| - n)
    ensures AllDigits(whole + fraction)
    ensures Assemble(negative, Some((whole, fraction)), Some(n)) ==
      Some(BigDecimal(Signed(negative, DigitsValue(whole + fraction)), |fraction| - n))
  {
    ConcatDigits(whole, fraction);
  }

  /** A sign in front of a text that starts with a digit is the sign of the
      decimal. */
  lemma SignOfDigitText(negative: bool, text: string)
    requires |text| > 0 && IsDigit(text[0])
    ensures ParseDecimal(SignedText(negative, text)) == ParseUnsignedDecimal(negative, text)
  {
    if negative {
      assert SignedText(negative, text)[1..] == text;
    }
  }

  /** Digits, a point and digits split at the point and hold no exponent
      marker. */
  lemma SplitPointed(whole: string, fraction: string)
    requires AllDigits(whole) && AllDigits(fraction) && |whole| > 0
    ensures SplitAtPoint(whole + "." + fraction) == Some((whole, fraction))
    ensures FirstIndexOf(whole + "." + fraction, 'e', 'E') == |whole + "." + fraction|
  {
    var t := whole + "." + fraction;
    FirstMarkerAfterDigits(whole, fraction);
    assert t[..|whole|] == whole && t[|whole| + 1..] == fraction;
  }

  /** Before a text with no marker, the first marker of the joined text is
      the first marker of what follows, shifted by the length of the prefix. */
  lemma {:induction false} FirstIndexOfAfter(p: string, q: string, c1: char, c2: char)
    requires FirstIndexOf(p, c1, c2) == |p|
    ensures FirstIndexOf(p + q, c1, c2) == |p| + FirstIndexOf(q, c1, c2)
    decreases |p|
  {
    if |p| == 0 {
      assert p + q == q;
    } else {
      assert (p + q)[1..] == p[1..] + q;
      assert p[0] != c1 && p[0] != c2;
      FirstIndexOfAfter(p[1..], q, c1, c2);
    }
  }

  /** A significand with no exponent marker, then `E` and the text of an
      integer n: the exponent read is n. */
  lemma ExponentTextParts(negative: bool, significand: string, n: int)
    requires FirstIndexOf(significand, 'e', 'E') == |significand|
    ensures ParseUnsignedDecimal(negative, significand + "E" + IntegerToText(n)) ==
      Assemble(negative, SplitAtPoint(significand), Some(n))
  {
    var t := IntegerToText(n);
    var body := significand + "E" + t;
    assert ParseUnsignedDecimal(negative, body) == Assemble(negative, SplitAtPoint(significand), Some(n)) by {
      assert body == significand + ("E" + t);
      FirstIndexOfAfter(significand, "E" + t, 'e', 'E');
      assert FirstIndexOf("E" + t, 'e', 'E') == 0;
      assert body[..|significand|] == significand;
      assert body[|significand| + 1..] == t;
      ParseIntegerRoundTrip(n);
    }
  }

  /** "1E" and the text of any integer n is the value 10^n, held as unscaled
      1 and scale -n, when n and -n are both ints, and is refused otherwise:
      an exponent beyond the int range is refused even where the scale it
      gives would fit. */
  lemma UnitWithExponent(n: int)
    ensures ParseDecimal("1E" + IntegerToText(n)) ==
      if InWidth(W32, n) && InWidth(W32, -n) then Some(BigDecimal(1, -n)) else None
  {
    UnitExponentUnsigned(n);
    UnitExponentParts(n);
    UnitAssemble(n);
  }

  /** "1E" and an integer's text starts with a digit, so it has no sign. */
  lemma UnitExponentUnsigned(n: int)
    ensures ParseDecimal("1E" + IntegerToText(n)) == ParseUnsignedDecimal(false, "1E" + IntegerToText(n))
  {
    var text := "1E" + IntegerToText(n);
    assert text[0] == '1';
    SignOfDigitText(false, text);
  }

  /** "1E" and an integer's text splits into the significand "1" and the
      exponent n. */
  lemma UnitExponentParts(n: int)
    ensures ParseUnsignedDecimal(false, "1E" + IntegerToText(n)) == Assemble(false, Some(("1", "")), Some(n))
  {
    assert "1E" + IntegerToText(n) == "1" + "E" + IntegerToText(n);
    UnitSignificand();
    ExponentTextParts(false, "1", n);
  }

  /** The significand "1" has no exponent marker and no point. */
  lemma UnitSignificand()
    ensures FirstIndexOf("1", 'e', 'E') == 1
    ensures SplitAtPoint("1") == Some(("1", ""))
  {
    assert FirstIndexOf("1", '.', '.') == 1;
    assert "1"[..1] == "1";
  }

  /** The digit 1 with no fraction and exponent n. */
  lemma UnitAssemble(n: int)
    ensures Assemble(false, Some(("1", "")), Some(n)) ==
      if InWidth(W32, n) && InWidth(W32, -n) then Some(BigDecimal(1, -n)) else None
  {
    assert "1" + "" == "1";
    UnitDigit();
  }

  /** The digit text "1" denotes 1. */
  lemma UnitDigit()
    ensures DigitsValue("1") == 1
  {
    assert "1"[..0] == "";
  }

  lemma DecimalRefusesNaN()
    ensures ParseDecimal("NaN") == None
  {
    assert FirstIndexOf("NaN", 'e', 'E') == 3 by {
      assert "NaN"[1..] == "aN" && "aN"[1..] == "N" && "N"[1..] == "";
    }
    assert "NaN"[..3] == "NaN";
    assert FirstIndexOf("NaN", '.', '.') == 3 by {
      assert "NaN"[1..] == "aN" && "aN"[1..] == "N" && "N"[1..] == "";
    }
    assert !IsDigit("NaN"[0]);
  }

  lemma ConcatDigits(p: string, q: string)
    requires AllDigits(p) && AllDigits(q)
    ensures AllDigits(p + q)
  {
    forall k | 0 <= k < |p + q|
      ensures IsDigit((p + q)[k])
    {
      if k < |p| {
        assert (p + q)[k] == p[k];
      } else {
        assert (p + q)[k] == q[k - |p|];
      }
    }
  }

  lemma {:induction false} DigitsValueConcat(p: string, q: string)
    requires AllDigits(p) && AllDigits(q)
    ensures AllDigits(p + q)
    ensures DigitsValue(p + q) == DigitsValue(p) * Pow10(|q|) + DigitsValue(q)
    decreases |q|
  {
    ConcatDigits(p, q);
    if |q| == 0 {
      assert p + q == p;
    } else {
      var q' := q[..|q| - 1];
      var last := DigitValue(q[|q| - 1]);
      assert (p + q)[..|p + q| - 1] == p + q';
      assert (p + q)[|p + q| - 1] == q[|q| - 1];
      DigitsValueConcat(p, q');
      assert DigitsValue(p + q) == DigitsValue(p + q') * 10 + last;
      assert DigitsValue(q) == DigitsValue(q') * 10 + last;
      assert Pow10(|q|) == 10 * Pow10(|q'|);
      ShiftDigit(DigitsValue(p), Pow10(|q'|), DigitsValue(q'), last);
    }
  }

  lemma ShiftDigit(a: int, p: int, b: int, d: int)
    ensures (a * p + b) * 10 + d == a * (10 * p) + (b * 10 + d)
  {
  }

  lemma {:induction false} DigitsHaveNoMarkers(s: string, c1: char, c2: char)
    requires AllDigits(s) && !IsDigit(c1) && !IsDigit(c2)
    ensures FirstIndexOf(s, c1, c2) == |s|
    decreases |s|
  {
    if |s| > 0 {
      DigitsHaveNoMarkers(s[1..], c1, c2);
    }
  }

  /** The digits of a BigDecimal's magnitude, zero-padded so that at least
      one precedes the point, with the point before the last scale of them and
      a minus sign when negative, are read back as the same unscaled value and
      scale. BigDecimal.toPlainString writes such a text for a non-negative
      scale, and Long.toString one with scale zero. */
  lemma ParseDecimalRoundTrip(d: BigDecimal, digits: string)
    requires d.scale >= 0
    requires AllDigits(digits) && |digits| > d.scale as int
    requires DigitsValue(digits) == if d.unscaled < 0 then -d.unscaled else d.unscaled
    ensures ParseDecimal(SignedText(d.unscaled < 0, PointedText(digits, |digits| - d.scale as int))) == Some(d)
  {
    var text := PointedText(digits, |digits| - d.scale as int);
    assert ParseDecimal(SignedText(d.unscaled < 0, text)) == Some(d) by {
      assert text[0] == digits[0];
      SignOfDigitText(d.unscaled < 0, text);
      PointedDigitsRoundTrip(d, digits);
    }
  }

  /** Whole digits, a point and fraction digits are read as the number
      whole + fraction / 10^|fraction|: the unscaled value is the whole part
      shifted by the fraction's length plus the fraction, and the scale is the
      fraction's length. */
  lemma PointedTextValue(whole: string, fraction: string)
    requires AllDigits(whole) && AllDigits(fraction)
    requires |whole| > 0 && |fraction| > 0 && InWidth(W32, |fraction|)
    ensures AllDigits(whole + fraction)
    ensures ParseDecimal(whole + "." + fraction) == Some(BigDecimal(DigitsValue(whole + fraction), |fraction|))
    ensures DigitsValue(whole + fraction) == DigitsValue(whole) * Pow10(|fraction|) + DigitsValue(fraction)
  {
    ConcatDigits(whole, fraction);
    PointAfterWhole(whole, fraction);
    ParseDecimalRoundTrip(BigDecimal(DigitsValue(whole + fraction), |fraction|), whole + fraction);
    DigitsValueConcat(whole, fraction);
  }

  /** The digits of whole and fraction with the point after the whole part
      are the text whole "." fraction. */
  lemma PointAfterWhole(whole: string, fraction: string)
    requires |fraction| > 0
    ensures PointedText(whole + fraction, |whole|) == whole + "." + fraction
  {
    assert (whole + fraction)[..|whole|] == whole && (whole + fraction)[|whole|..] == fraction;
  }

  /** Digits with a point placed before the last scale of them, after the
      sign of d, are read back as d. */
  lemma PointedDigitsRoundTrip(d: BigDecimal, digits: string)
    requires d.scale >= 0
    requires AllDigits(digits) && |digits| > d.scale as int
    requires DigitsValue(digits) == if d.unscaled < 0 then -d.unscaled else d.unscaled
    ensures ParseUnsignedDecimal(d.unscaled < 0, PointedText(digits, |digits| - d.scale as int)) == Some(d)
  {
    var point := |digits| - d.scale as int;
    PointedTextShape(digits, point);
    SliceJoin(digits, point);
    ParseUnsignedPlain(d.unscaled < 0, PointedText(digits, point), digits[..point], digits[point..]);
    JoinedDigits(d, digits, digits[..point], digits[point..], PointedText(digits, point));
  }

  /** The text with a point splits back at the point and has no exponent. */
  lemma PointedTextShape(digits: string, point: nat)
    requires AllDigits(digits) && 0 < point <= |digits|
    ensures SplitAtPoint(PointedText(digits, point)) == Some((digits[..point], digits[point..]))
    ensures FirstIndexOf(PointedText(digits, point), 'e', 'E') == |PointedText(digits, point)|
  {
    SplitPlain(digits, point);
    if point == |digits| {
      DigitsHaveNoMarkers(digits, 'e', 'E');
    } else {
      AllDigitsSplit(digits, point);
      FirstMarkerAfterDigits(digits[..point], digits[point..]);
    }
  }

  lemma SliceJoin(s: string, p: nat)
    requires p <= |s|
    ensures s[..p] + s[p..] == s
  {
  }

  lemma JoinedDigits(d: BigDecimal, digits: string, whole: string, fraction: string, text: string)
    requires AllDigits(digits) && whole + fraction == digits
    requires DigitsValue(digits) == if d.unscaled < 0 then -d.unscaled else d.unscaled
    requires |fraction| == d.scale as int
    requires ParseUnsignedDecimal(d.unscaled < 0, text) ==
      Some(BigDecimal(Signed(d.unscaled < 0, DigitsValue(whole + fraction)), |fraction|))
    ensures ParseUnsignedDecimal(d.unscaled < 0, text) == Some(d)
  {
  }

  lemma AllDigitsSplit(digits: string, point: nat)
    requires AllDigits(digits) && point <= |digits|
    ensures AllDigits(digits[..point]) && AllDigits(digits[point..])
  {
    forall k | 0 <= k < point ensures IsDigit(digits[..point][k]) {
      assert digits[..point][k] == digits[k];
    }
    forall k | 0 <= k < |digits| - point ensures IsDigit(digits[point..][k]) {
      assert digits[point..][k] == digits[point + k];
    }
  }

  lemma ParseUnsignedPlain(negative: bool, text: string, whole: string, fraction: string)
    requires SplitAtPoint(text) == Some((whole, fraction))
    requires FirstIndexOf(text, 'e', 'E') == |text|
    requires InWidth(W32, |fraction|)
    ensures ParseUnsignedDecimal(negative, text) == Some(BigDecimal(Signed(negative, DigitsValue(whole + fraction)), |fraction|))
  {
    ConcatDigits(whole, fraction);
    assert text[..|text|] == text;
    assert ParseUnsignedDecimal(negative, text) == Assemble(negative, Some((whole, fraction)), Some(0));
  }

  lemma SplitPlain(digits: string, point: nat)
    requires AllDigits(digits) && 0 < point <= |digits|
    ensures SplitAtPoint(PointedText(digits, point)) == Some((digits[..point], digits[point..]))
  {
    var text := PointedText(digits, point);
    var whole := digits[..point];
    var fraction := digits[point..];
    AllDigitsSplit(digits, point);
    if point == |digits| {
      DigitsHaveNoMarkers(digits, '.', '.');
      assert digits[..|digits|] == digits;
      assert fraction == [];
    } else {
      FirstMarkerAfterDigits(whole, fraction);
      assert text[..point] == whole;
      assert text[point + 1..] == fraction;
    }
  }

  lemma FirstMarkerAfterDigits(whole: string, fraction: string)
    requires AllDigits(whole) && AllDigits(fraction)
    ensures FirstIndexOf(whole + "." + fraction, 'e', 'E') == |whole + "." + fraction|
    ensures FirstIndexOf(whole + "." + fraction, '.', '.') == |whole|
  {
    var t := whole + "." + fraction;
    NoMarkerInPointedDigits(t, |whole|);
    FirstPointAt(t, |whole|);
  }

  lemma {:induction false} NoMarkerInPointedDigits(t: string, p: nat)
    requires p < |t| && t[p] == '.'
    requires forall k :: 0 <= k < |t| && k != p ==> IsDigit(t[k])
    ensures FirstIndexOf(t, 'e', 'E') == |t|
    decreases |t|
  {
    if p > 0 {
      NoMarkerInPointedDigits(t[1..], p - 1);
    } else {
      DigitsHaveNoMarkers(t[1..], 'e', 'E');
    }
  }

  lemma {:induction false} FirstPointAt(t: string, p: nat)
    requires p < |t| && t[p] == '.'
    requires forall k :: 0 <= k < p ==> IsDigit(t[k])
    ensures FirstIndexOf(t, '.', '.') == p
    decreases p
  {
    if p > 0 {
      FirstPointAt(t[1..], p - 1);
    }
  }
}
