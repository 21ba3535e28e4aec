/** Properties that relate several JSONArray getters to one another: the
    sentinel policy they share, the conversion of integral numbers, the
    agreement of getLong with getBigInteger and of getDate with getInstant, the
    separation of array and object shapes, and worked examples. */
module CoercionFacts {
  import opened Outcomes
  import opened JavaNumbers
  import opened JavaText
  import opened DecimalTextFacts
  import opened JavaTime
  import opened Elements
  import opened Collaborators
  import opened ValueStore
  import opened ScalarAccess
  import opened StructuralAccess

  /** A stored null, "" or any case-variant of "null" gives null from every
      nullable numeric, boolean and structural getter, the zero value from
      every primitive getter, and never an error. */
  lemma SentinelMeansNoValue(a: JsonArray, i: int, svc: Services)
    requires 0 <= i < |a| && IsSentinel(a[i])
    ensures GetLong(a, i) == Success(None) && GetLongValue(a, i) == Success(0)
    ensures GetInteger(a, i) == Success(None) && GetIntValue(a, i) == Success(0)
    ensures GetShort(a, i) == Success(None) && GetShortValue(a, i) == Success(0)
    ensures GetByte(a, i) == Success(None) && GetByteValue(a, i) == Success(0)
    ensures GetBoolean(a, i) == Success(None) && GetBooleanValue(a, i) == Success(false)
    ensures GetBigInteger(a, i) == Success(None) && GetBigDecimal(a, i) == Success(None)
    ensures GetJSONArray(a, i, svc) == Success(None) && GetJSONObject(a, i, svc) == Success(None)
  {
  }

  /** A stored integral number n of any class reads as n narrowed to each
      width, exactly as a BigInteger, and as a BigDecimal of scale zero. */
  lemma IntegralConversion(a: JsonArray, i: int, n: int)
    requires 0 <= i < |a| && IntegralValue(a[i]) == Some(n)
    ensures GetLong(a, i) == Success(Some(Narrow(W64, n))) && GetLongValue(a, i) == Success(Narrow(W64, n))
    ensures GetInteger(a, i) == Success(Some(Narrow(W32, n))) && GetIntValue(a, i) == Success(Narrow(W32, n))
    ensures GetShort(a, i) == Success(Some(Narrow(W16, n))) && GetShortValue(a, i) == Success(Narrow(W16, n))
    ensures GetByte(a, i) == Success(Some(Narrow(W8, n))) && GetByteValue(a, i) == Success(Narrow(W8, n))
    ensures GetBigInteger(a, i) == Success(Some(n))
    ensures GetBigDecimal(a, i) == Success(Some(BigDecimal(n, 0)))
  {
  }

  /** An integral number that fits a width is read back unchanged at that
      width and every wider one. */
  lemma FitsExactly(a: JsonArray, i: int, n: int, w: Width)
    requires 0 <= i < |a| && IntegralValue(a[i]) == Some(n) && InWidth(w, n)
    ensures NoWider(w, W64) ==> GetLong(a, i) == Success(Some(n))
    ensures NoWider(w, W32) ==> GetInteger(a, i) == Success(Some(n))
    ensures NoWider(w, W16) ==> GetShort(a, i) == Success(Some(n))
    ensures NoWider(w, W8) ==> GetByte(a, i) == Success(Some(n))
  {
  }

  /** The text of any integer parses at a width exactly when the integer fits
      it; otherwise the JDK parser throws NumberFormatException. */
  lemma ParseIntegralAcceptsExactlyInRange(w: Width, n: int)
    ensures ParseIntegral(w, IntegerToText(n)) ==
      if InWidth(w, n) then Success(n) else Failure(NumberFormat(IntegerToText(n)))
  {
    ParseIntegerRoundTrip(n);
  }

  /** A stored value that is neither null, a Number nor a String makes every
      numeric getter, nullable and primitive, throw the cast JSONException. */
  lemma NumericGettersRefuseOtherShapes(a: JsonArray, i: int)
    requires 0 <= i < |a| && !a[i].Null? && !IsNumber(a[i]) && !a[i].Str?
    ensures GetLong(a, i) == Failure(CannotCast(ClassOf(a[i]), "Long"))
    ensures GetLongValue(a, i) == Failure(CannotCast(ClassOf(a[i]), "long"))
    ensures GetInteger(a, i) == Failure(CannotCast(ClassOf(a[i]), "Integer"))
    ensures GetIntValue(a, i) == Failure(CannotCast(ClassOf(a[i]), "int"))
    ensures GetShort(a, i) == Failure(CannotCast(ClassOf(a[i]), "short"))
    ensures GetShortValue(a, i) == Failure(CannotCast(ClassOf(a[i]), "short"))
    ensures GetByte(a, i) == Failure(CannotCast(ClassOf(a[i]), "byte"))
    ensures GetByteValue(a, i) == Failure(CannotCast(ClassOf(a[i]), "byte"))
    ensures GetBigInteger(a, i) == Failure(CannotCast(ClassOf(a[i]), "Long"))
    ensures GetBigDecimal(a, i) == Failure(CannotCast(ClassOf(a[i]), "Long"))
  {
  }

  /** Non-sentinel text that is not an integer makes both the nullable and
      the primitive integral getters throw NumberFormatException for that
      text; none of them falls back to null or zero. */
  lemma MalformedTextIsRefused(a: JsonArray, i: int)
    requires 0 <= i < |a| && a[i].Str? && !IsSentinelText(a[i].s) && ParseInteger(a[i].s).None?
    ensures GetLong(a, i) == Failure(NumberFormat(a[i].s)) && GetLongValue(a, i) == Failure(NumberFormat(a[i].s))
    ensures GetInteger(a, i) == Failure(NumberFormat(a[i].s)) && GetIntValue(a, i) == Failure(NumberFormat(a[i].s))
    ensures GetShort(a, i) == Failure(NumberFormat(a[i].s)) && GetShortValue(a, i) == Failure(NumberFormat(a[i].s))
    ensures GetByte(a, i) == Failure(NumberFormat(a[i].s)) && GetByteValue(a, i) == Failure(NumberFormat(a[i].s))
    ensures GetBigInteger(a, i) == Failure(NumberFormat(a[i].s))
  {
  }

  /** getLong is getBigInteger narrowed to 64 bits, except that text too large
      for a long is refused by Long.parseLong rather than narrowed. */
  lemma LongAgreesWithBigInteger(a: JsonArray, i: int)
    ensures match GetBigInteger(a, i)
      case Success(None) => GetLong(a, i) == Success(None)
      case Success(Some(n)) =>
        GetLong(a, i) ==
          if 0 <= i < |a| && a[i].Str? && !InWidth(W64, n) then Failure(NumberFormat(a[i].s))
          else Success(Some(Narrow(W64, n)))
      case Failure(e) => GetLong(a, i) == Failure(e)
  {
  }

  /** For a stored number, getDate and getInstant agree: both are null exactly
      when its longValue is zero, and otherwise denote the same epoch
      millisecond. */
  lemma DateAndInstantAgree(a: JsonArray, i: int, svc: Services)
    requires 0 <= i < |a| && IsNumber(a[i])
    ensures GetDate(a, i, svc).Success? && GetInstant(a, i, svc).Success?
    ensures GetDate(a, i, svc).value.None? <==> GetInstant(a, i, svc).value.None?
    ensures GetDate(a, i, svc).value.Some? ==>
      GetDate(a, i, svc).value.value.millis == EpochMilli(GetInstant(a, i, svc).value.value)
  {
  }

  /** For every stored value other than text, a Float or a Double,
      getBigInteger is the integer part of what getBigDecimal gives, and the
      two fail alike. */
  lemma BigIntegerIsIntegerPartOfDecimal(a: JsonArray, i: int)
    requires 0 <= i < |a| ==> !a[i].Str? && !a[i].Float? && !a[i].Double?
    ensures match GetBigDecimal(a, i)
      case Success(None) => GetBigInteger(a, i) == Success(None)
      case Success(Some(d)) => GetBigInteger(a, i) == Success(Some(ToBigInteger(d)))
      case Failure(e) => GetBigInteger(a, i) == Failure(e)
  {
  }

  /** The text Long.toString writes for an integer is never a sentinel. */
  lemma IntegerTextIsNotSentinel(n: int)
    ensures !IsSentinelText(IntegerToText(n))
  {
    var s := IntegerToText(n);
    assert s[0] == '-' || IsDigit(s[0]);
    assert UpperAscii(s[0]) != UpperAscii("null"[0]);
  }

  /** The text Long.toString writes for any integer n is read back as n by
      getBigInteger and, with scale zero, by getBigDecimal; getLong reads it
      back exactly when n fits a long and refuses it otherwise. */
  lemma IntegerTextReadsBack(n: int)
    ensures GetBigInteger([Str(IntegerToText(n))], 0) == Success(Some(n))
    ensures GetBigDecimal([Str(IntegerToText(n))], 0) == Success(Some(BigDecimal(n, 0)))
    ensures GetLong([Str(IntegerToText(n))], 0) ==
      if InWidth(W64, n) then Success(Some(n)) else Failure(NumberFormat(IntegerToText(n)))
  {
    IntegerTextIsNotSentinel(n);
    ParseIntegerRoundTrip(n);
    ParseDecimalOfInteger(n);
  }

  /** Every getter that reads text reads the very string getString returns
      for a non-sentinel String element. */
  lemma TextGettersShareText(a: JsonArray, i: int, svc: Services)
    requires 0 <= i < |a| && a[i].Str? && !IsSentinelText(a[i].s)
    ensures GetString(a, i, svc).Success? && GetString(a, i, svc).value.Some?
    ensures var s := GetString(a, i, svc).value.value;
      && GetLong(a, i) == Present(ParseIntegral(W64, s))
      && GetInteger(a, i) == Present(ParseIntegral(W32, s))
      && GetShort(a, i) == Present(ParseIntegral(W16, s))
      && GetByte(a, i) == Present(ParseIntegral(W8, s))
      && GetLongValue(a, i) == ParseIntegral(W64, s)
      && GetIntValue(a, i) == ParseIntegral(W32, s)
      && GetShortValue(a, i) == ParseIntegral(W16, s)
      && GetByteValue(a, i) == ParseIntegral(W8, s)
      && GetBoolean(a, i) == Success(Some(IsTrueText(s)))
      && GetBooleanValue(a, i) == Success(IsTrueText(s))
      && GetBigInteger(a, i) == (match ParseInteger(s)
                                 case Some(n) => Success(Some(n))
                                 case None => Failure(NumberFormat(s)))
      && GetBigDecimal(a, i) == DecimalFromText(s)
      && GetJSONArray(a, i, svc) == svc.decodeArray(s)
      && GetJSONObject(a, i, svc) == svc.decodeObject(s)
  {
  }

  /** Without a converter registered for the element's class, getObject
      builds a Map element from the fields getJSONObject gives (as toJavaList
      does) and a Collection element from the items getJSONArray gives, once
      the object reader for the target has been found. */
  lemma ObjectReadsLikeStructuralGetters(a: JsonArray, i: int, t: TypeRef, svc: Services)
    requires 0 <= i < |a| && !a[i].Null? && !svc.hasConverter(ClassOf(a[i]), t)
    ensures IsMap(a[i]) ==>
      GetJSONObject(a, i, svc).Success? && GetJSONObject(a, i, svc).value.Some? &&
      GetObject(a, i, t, svc) ==
        if svc.objectReader(t).Failure? then Failure(svc.objectReader(t).error)
        else svc.createFromMap(t, GetJSONObject(a, i, svc).value.value)
    ensures IsCollection(a[i]) ==>
      GetJSONArray(a, i, svc).Success? && GetJSONArray(a, i, svc).value.Some? &&
      GetObject(a, i, t, svc) ==
        if svc.objectReader(t).Failure? then Failure(svc.objectReader(t).error)
        else svc.createFromCollection(t, GetJSONArray(a, i, svc).value.value)
  {
  }

  /** The nullable numeric and boolean getters answer null exactly for a
      sentinel element: Java null, "" or "null" in any case. Every other
      element gives a value or an exception. */
  lemma NullExactlyForSentinel(a: JsonArray, i: int)
    requires 0 <= i < |a|
    ensures GetLong(a, i) == Success(None) <==> IsSentinel(a[i])
    ensures GetInteger(a, i) == Success(None) <==> IsSentinel(a[i])
    ensures GetShort(a, i) == Success(None) <==> IsSentinel(a[i])
    ensures GetByte(a, i) == Success(None) <==> IsSentinel(a[i])
    ensures GetBoolean(a, i) == Success(None) <==> IsSentinel(a[i])
    ensures GetBigInteger(a, i) == Success(None) <==> IsSentinel(a[i])
    ensures GetBigDecimal(a, i) == Success(None) <==> IsSentinel(a[i])
  {
  }

  /** Text that new BigInteger(String) accepts, a sign or leading zeros
      included, is no sentinel, and getBigDecimal reads it as the integer
      getBigInteger gives, with scale 0. */
  lemma IntegerSyntaxReadsAlike(a: JsonArray, i: int)
    requires 0 <= i < |a| && a[i].Str? && ParseInteger(a[i].s).Some?
    ensures !IsSentinelText(a[i].s)
    ensures GetBigInteger(a, i) == Success(Some(ParseInteger(a[i].s).value))
    ensures GetBigDecimal(a, i) == Success(Some(BigDecimal(ParseInteger(a[i].s).value, 0)))
  {
    var s := a[i].s;
    assert !IsSentinelText(s) by {
      if |s| == 4 {
        var k := if s[0] == '-' || s[0] == '+' then 1 else 0;
        assert IsDigit(s[k]);
        assert UpperAscii(s[k]) != UpperAscii("null"[k]);
      }
    }
    DecimalReadsIntegerText(s);
  }

  /** getBigDecimal reads "1E" and the text of any integer n as 10^n when
      both the exponent and the scale it gives are ints, and refuses it with
      NumberFormatException otherwise, "1E2147483648" included. */
  lemma DecimalExponentRange(n: int)
    ensures GetBigDecimal([Str("1E" + IntegerToText(n))], 0) ==
      if InWidth(W32, n) && InWidth(W32, -n) then Success(Some(BigDecimal(1, -n)))
      else Failure(NumberFormat("1E" + IntegerToText(n)))
  {
    UnitWithExponent(n);
    assert !IsSentinelText("1E" + IntegerToText(n)) by {
      assert ("1E" + IntegerToText(n))[0] == '1';
    }
  }

  /** A Number of a class the getters do not name (an AtomicLong, say) is
      read through its own longValue() and intValue(), like any Number. */
  lemma OtherNumbersReadThroughValueMethods(c: string, f: OpaqueNumber)
    ensures GetLong([OtherNumber(c, f)], 0) == Success(Some(f.asLong))
    ensures GetInteger([OtherNumber(c, f)], 0) == Success(Some(f.asInt))
    ensures GetShort([OtherNumber(c, f)], 0) == Success(Some(Narrow(W16, f.asInt)))
    ensures GetByte([OtherNumber(c, f)], 0) == Success(Some(Narrow(W8, f.asInt)))
    ensures GetBoolean([OtherNumber(c, f)], 0) == Success(Some(f.asInt == 1))
    ensures GetBigInteger([OtherNumber(c, f)], 0) == Success(Some(f.asLong))
    ensures GetBigDecimal([OtherNumber(c, f)], 0) == Success(Some(BigDecimal(f.asLong, 0)))
    ensures GetLongValue([OtherNumber(c, f)], 0) == Success(f.asLong)
    ensures GetIntValue([OtherNumber(c, f)], 0) == Success(f.asInt)
    ensures GetShortValue([OtherNumber(c, f)], 0) == Success(Narrow(W16, f.asInt))
    ensures GetByteValue([OtherNumber(c, f)], 0) == Success(Narrow(W8, f.asInt))
    ensures GetBooleanValue([OtherNumber(c, f)], 0) == Success(f.asInt == 1)
  {
  }

  /** Maps and Collections are never coerced into each other: a stored Map
      reads as a null array and a stored Collection as a null object, and no
      element other than text is non-null under both getters. */
  lemma ShapesDoNotCross(a: JsonArray, i: int, svc: Services)
    requires 0 <= i < |a| && !a[i].Str?
    ensures IsMap(a[i]) ==> GetJSONArray(a, i, svc) == Success(None)
    ensures IsCollection(a[i]) ==> GetJSONObject(a, i, svc) == Success(None)
    ensures !(GetJSONArray(a, i, svc) != Success(None) && GetJSONObject(a, i, svc) != Success(None))
  {
  }

  /** getBoolean reads a number through intValue(), so a long reads as true
      exactly when its low 32 bits, taken as an int, are 1; 0x1_0000_0001 is
      such a long although it is not 1. */
  lemma BooleanFromLowBits(n: i64)
    ensures GetBoolean([Long(n)], 0) == Success(Some(Narrow(W32, n) == 1))
    ensures GetBooleanValue([Long(n)], 0) == Success(Narrow(W32, n) == 1)
    ensures n == 0x1_0000_0001 ==> GetBoolean([Long(n)], 0) == Success(Some(true))
  {
  }

  /** Integer text is read by the JDK parser; other text is refused, and a
      case-variant of "null" is no value. */
  lemma IntegerTextExamples()
    ensures GetInteger([Str("123")], 0) == Success(Some(123))
    ensures GetInteger([Str("abc")], 0) == Failure(NumberFormat("abc"))
    ensures GetIntValue([Str("abc")], 0).Failure?
    ensures GetLong([Str("NuLL")], 0) == Success(None)
  {
    assert ParseInteger("123") == Some(123) by {
      assert "123"[..2] == "12" && "12"[..1] == "1" && "1"[..0] == "";
    }
    assert ParseInteger("abc") == None by {
      assert !IsDigit("abc"[0]);
    }
    assert IsSentinelText("NuLL") by {
      SentinelSpellings("NuLL");
    }
  }

  /** getString gives sentinel text back verbatim. */
  lemma StringKeepsSentinelText(svc: Services)
    ensures GetString([Str("null")], 0, svc) == Success(Some("null"))
    ensures GetString([Str("")], 0, svc) == Success(Some(""))
  {
  }

  /** Numbers are true exactly at 1; text is true at "true" in any case and at
      "1". */
  lemma BooleanExamples()
    ensures GetBoolean([Int(1)], 0) == Success(Some(true))
    ensures GetBoolean([Int(0)], 0) == Success(Some(false))
    ensures GetBoolean([Str("TRUE")], 0) == Success(Some(true))
    ensures GetBoolean([Str("1")], 0) == Success(Some(true))
    ensures GetBoolean([Str("false")], 0) == Success(Some(false))
  {
    assert !IsSentinelText("TRUE") by {
      assert UpperAscii("TRUE"[0]) != UpperAscii("null"[0]);
    }
    assert IsTrueText("TRUE") by {
      assert EqualsIgnoreCase("TRUE", "true");
    }
    assert !IsSentinelText("1");
    assert !IsSentinelText("false") && !IsTrueText("false");
  }

  /** A stored number zero is no date; any other number is that epoch
      millisecond. */
  lemma TemporalExamples(svc: Services)
    ensures GetDate([Long(0)], 0, svc) == Success(None)
    ensures GetInstant([Int(0)], 0, svc) == Success(None)
    ensures GetDate([Long(1_700_000_000_000)], 0, svc) == Success(Some(Date(1_700_000_000_000)))
    ensures GetInstant([Long(1_700_000_000_000)], 0, svc) == Success(Some(Instant(1_700_000_000, 0)))
    ensures GetInstant([Long(-1)], 0, svc) == Success(Some(Instant(-1, 999_000_000)))
  {
  }

  /** A Double goes to BigDecimal through its text, so 1.1 keeps its one
      fraction digit, and text Java writes for no number is refused. */
  lemma DecimalFromDoubleText()
    ensures GetBigDecimal([Double(OpaqueNumber(1, 1, "1.1"))], 0) == Success(Some(BigDecimal(11, 1)))
    ensures GetBigDecimal([Double(OpaqueNumber(0, 0, "NaN"))], 0) == Failure(NumberFormat("NaN"))
  {
    DecimalOnePointOne();
    DecimalRefusesNaN();
  }

  /** Decimal text with an exponent sets the scale to the fraction digits less
      the exponent. */
  lemma DecimalFromExponentText()
    ensures GetBigDecimal([Str("-1.0E10")], 0) == Success(Some(BigDecimal(-10, -9)))
  {
    DecimalWithExponent();
  }

  /** BigDecimal to BigInteger, and to long, discards the fraction toward
      zero. */
  lemma DecimalTruncatesTowardZero()
    ensures GetBigInteger([BigDec(BigDecimal(-19, 1))], 0) == Success(Some(-1))
    ensures GetLong([BigDec(BigDecimal(-19, 1))], 0) == Success(Some(-1))
  {
    assert ToBigInteger(BigDecimal(-19, 1)) == -1;
  }

  /** The factories and fluent append build exactly the listed elements. */
  lemma FactoryExamples()
    ensures Of3(Int(1), Int(2), Int(3)) == [Int(1), Int(2), Int(3)]
    ensures FluentAdd(FluentAdd(FromItems([]), Int(1)), Int(2)) == [Int(1), Int(2)]
    ensures |FromItems([Null, Null])| == 2
  {
  }
}
