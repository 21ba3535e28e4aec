/** The scalar getters of JSONArray: for each target type a nullable getter
    (getLong, getBoolean, ...) and, for the primitive types, a primitive getter
    (getLongValue, getBooleanValue, ...) whose null answer is the type's zero. */
module ScalarAccess {
  import opened Outcomes
  import opened JavaNumbers
  import opened JavaText
  import opened JavaTime
  import opened Elements
  import opened Collaborators
  import opened ValueStore

  /** A primitive getter agrees with its nullable twin: null becomes `zero`, and
      it fails exactly when the nullable getter fails, for the same cause. */
  predicate SameOutcome<T(==)>(nullable: Result<Option<T>, Error>, primitive: Result<T, Error>, zero: T)
  {
    match nullable
    case Success(o) => primitive == Success(o.GetOr(zero))
    case Failure(e) => primitive.Failure? && SameCause(e, primitive.error)
  }

  /** Long.parseLong (W64), Integer.parseInt (W32), Short.parseShort (W16) and
      Byte.parseByte (W8): the integer syntax, then the width's range. */
  function ParseIntegral(w: Width, s: string): (r: Result<int, Error>)
    ensures r.Success? ==> InWidth(w, r.value)
    ensures r.Failure? ==> r.error == NumberFormat(s)
  {
    match ParseInteger(s)
    case Some(n) => if InWidth(w, n) then Success(n) else Failure(NumberFormat(s))
    case None => Failure(NumberFormat(s))
  }

  /** A present value, as a nullable getter returns it. */
  function Present<T>(r: Result<T, Error>): Result<Option<T>, Error>
  {
    match r
    case Success(v) => Success(Some(v))
    case Failure(e) => Failure(e)
  }

  /** The shared contract of the four nullable integral getters. */
  predicate NullableIntegralContract(a: JsonArray, i: int, w: Width, target: string, r: Result<Option<int>, Error>)
  {
    && (!(0 <= i < |a|) ==> r == Failure(IndexOutOfBounds(i, |a|)))
    && (0 <= i < |a| ==>
      && (IsSentinel(a[i]) ==> r == Success(None))
      && (IntegralValue(a[i]).Some? ==> r == Success(Some(Narrow(w, IntegralValue(a[i]).value))))
      && (IsNumber(a[i]) ==> r == Success(Some(NumberAs(w, a[i]))))
      && (a[i].Str? && !IsSentinelText(a[i].s) ==> r == Present(ParseIntegral(w, a[i].s)))
      && (!a[i].Null? && !IsNumber(a[i]) && !a[i].Str? ==> r == Failure(CannotCast(ClassOf(a[i]), target))))
  }

  /** getLong */
  function GetLong(a: JsonArray, i: int): (r: Result<Option<i64>, Error>)
    ensures NullableIntegralContract(a, i, W64, "Long", r)
  {
    var v :- At(a, i);
    if v.Null? then Success(None)
    else if v.Long? then Success(Some(v.longValue))
    else if IsNumber(v) then Success(Some(NumberAs(W64, v)))
    else if v.Str? then
      if IsSentinelText(v.s) then Success(None)
      else var n :- ParseIntegral(W64, v.s); Success(Some(n))
    else Failure(CannotCast(ClassOf(v), "Long"))
  }

  /** getLongValue */
  function GetLongValue(a: JsonArray, i: int): (r: Result<i64, Error>)
    ensures SameOutcome(GetLong(a, i), r, 0)
  {
    var v :- At(a, i);
    if v.Null? then Success(0)
    else if IsNumber(v) then Success(NumberAs(W64, v))
    else if v.Str? then
      if IsSentinelText(v.s) then Success(0) else ParseIntegral(W64, v.s)
    else Failure(CannotCast(ClassOf(v), "long"))
  }

  /** getInteger */
  function GetInteger(a: JsonArray, i: int): (r: Result<Option<i32>, Error>)
    ensures NullableIntegralContract(a, i, W32, "Integer", r)
  {
    var v :- At(a, i);
    if v.Null? then Success(None)
    else if v.Int? then Success(Some(v.intValue))
    else if IsNumber(v) then Success(Some(NumberAs(W32, v)))
    else if v.Str? then
      if IsSentinelText(v.s) then Success(None)
      else var n :- ParseIntegral(W32, v.s); Success(Some(n))
    else Failure(CannotCast(ClassOf(v), "Integer"))
  }

  /** getIntValue */
  function GetIntValue(a: JsonArray, i: int): (r: Result<i32, Error>)
    ensures SameOutcome(GetInteger(a, i), r, 0)
  {
    var v :- At(a, i);
    if v.Null? then Success(0)
    else if IsNumber(v) then Success(NumberAs(W32, v))
    else if v.Str? then
      if IsSentinelText(v.s) then Success(0) else ParseIntegral(W32, v.s)
    else Failure(CannotCast(ClassOf(v), "int"))
  }

  /** getShort */
  function GetShort(a: JsonArray, i: int): (r: Result<Option<i16>, Error>)
    ensures NullableIntegralContract(a, i, W16, "short", r)
  {
    var v :- At(a, i);
    NumberAsIntegral(W16, v);
    if v.Null? then Success(None)
    else if v.Short? then Success(Some(v.shortValue))
    else if IsNumber(v) then Success(Some(NumberAs(W16, v)))
    else if v.Str? then
      if IsSentinelText(v.s) then Success(None)
      else var n :- ParseIntegral(W16, v.s); Success(Some(n))
    else Failure(CannotCast(ClassOf(v), "short"))
  }

  /** getShortValue */
  function GetShortValue(a: JsonArray, i: int): (r: Result<i16, Error>)
    ensures SameOutcome(GetShort(a, i), r, 0)
  {
    var v :- At(a, i);
    if v.Null? then Success(0)
    else if IsNumber(v) then Success(NumberAs(W16, v))
    else if v.Str? then
      if IsSentinelText(v.s) then Success(0) else ParseIntegral(W16, v.s)
    else Failure(CannotCast(ClassOf(v), "short"))
  }

  /** getByte; unlike its siblings it has no exact-class branch, every Number
      goes through byteValue. */
  function GetByte(a: JsonArray, i: int): (r: Result<Option<i8>, Error>)
    ensures NullableIntegralContract(a, i, W8, "byte", r)
  {
    var v :- At(a, i);
    NumberAsIntegral(W8, v);
    if v.Null? then Success(None)
    else if IsNumber(v) then Success(Some(NumberAs(W8, v)))
    else if v.Str? then
      if IsSentinelText(v.s) then Success(None)
      else var n :- ParseIntegral(W8, v.s); Success(Some(n))
    else Failure(CannotCast(ClassOf(v), "byte"))
  }

  /** getByteValue */
  function GetByteValue(a: JsonArray, i: int): (r: Result<i8, Error>)
    ensures SameOutcome(GetByte(a, i), r, 0)
  {
    var v :- At(a, i);
    if v.Null? then Success(0)
    else if IsNumber(v) then Success(NumberAs(W8, v))
    else if v.Str? then
      if IsSentinelText(v.s) then Success(0) else ParseIntegral(W8, v.s)
    else Failure(CannotCast(ClassOf(v), "byte"))
  }

  /** getBoolean */
  function GetBoolean(a: JsonArray, i: int): (r: Result<Option<bool>, Error>)
    ensures !(0 <= i < |a|) ==> r == Failure(IndexOutOfBounds(i, |a|))
    ensures 0 <= i < |a| ==>
      && (IsSentinel(a[i]) ==> r == Success(None))
      && (a[i].Bool? ==> r == Success(Some(a[i].flag)))
      && (IsNumber(a[i]) ==> r == Success(Some(NumberAs(W32, a[i]) == 1)))
      && (IntegralValue(a[i]).Some? ==> r == Success(Some(Narrow(W32, IntegralValue(a[i]).value) == 1)))
      && (a[i].Str? && !IsSentinelText(a[i].s) ==> r == Success(Some(IsTrueText(a[i].s))))
      && (!a[i].Null? && !a[i].Bool? && !IsNumber(a[i]) && !a[i].Str? ==> r == Failure(CannotConvertToBoolean(a[i])))
  {
    var v :- At(a, i);
    NumberAsIntegral(W32, v);
    if v.Null? then Success(None)
    else if v.Bool? then Success(Some(v.flag))
    else if IsNumber(v) then Success(Some(NumberAs(W32, v) == 1))
    else if v.Str? then
      if IsSentinelText(v.s) then Success(None)
      else Success(Some(IsTrueText(v.s)))
    else Failure(CannotConvertToBoolean(v))
  }

  /** getBooleanValue; it reads text without the sentinel test, which makes no
      difference because no sentinel reads as true. */
  function GetBooleanValue(a: JsonArray, i: int): (r: Result<bool, Error>)
    ensures SameOutcome(GetBoolean(a, i), r, false)
    ensures r.Failure? ==> GetBoolean(a, i) == Failure(r.error)
  {
    var v :- At(a, i);
    if v.Null? then Success(false)
    else if v.Bool? then Success(v.flag)
    else if IsNumber(v) then Success(NumberAs(W32, v) == 1)
    else if v.Str? then
      (SentinelIsNotTrue(v.s); Success(IsTrueText(v.s)))
    else Failure(CannotConvertToBoolean(v))
  }

  /** getBigInteger; its JSONException names "Long" as the target. */
  function GetBigInteger(a: JsonArray, i: int): (r: Result<Option<int>, Error>)
    ensures !(0 <= i < |a|) ==> r == Failure(IndexOutOfBounds(i, |a|))
    ensures 0 <= i < |a| ==>
      && (IsSentinel(a[i]) ==> r == Success(None))
      && (IntegralValue(a[i]).Some? ==> r == Success(Some(IntegralValue(a[i]).value)))
      && (a[i].BigDec? ==> r == Success(Some(ToBigInteger(a[i].dec))))
      && (a[i].Float? ==> r == Success(Some(a[i].single.asLong)))
      && (a[i].Double? ==> r == Success(Some(a[i].double.asLong)))
      && (a[i].OtherNumber? ==> r == Success(Some(a[i].reading.asLong)))
      && (a[i].Str? && !IsSentinelText(a[i].s) ==>
            r == (match ParseInteger(a[i].s)
                  case Some(n) => Success(Some(n))
                  case None => Failure(NumberFormat(a[i].s))))
      && (!a[i].Null? && !IsNumber(a[i]) && !a[i].Str? ==> r == Failure(CannotCast(ClassOf(a[i]), "Long")))
  {
    var v :- At(a, i);
    if v.Null? then Success(None)
    else if IsNumber(v) then
      if v.BigInt? then Success(Some(v.big))
      else if v.BigDec? then Success(Some(ToBigInteger(v.dec)))
      else Success(Some(NumberAs(W64, v)))
    else if v.Str? then
      if IsSentinelText(v.s) then Success(None)
      else
        match ParseInteger(v.s)
        case Some(n) => Success(Some(n))
        case None => Failure(NumberFormat(v.s))
    else Failure(CannotCast(ClassOf(v), "Long"))
  }

  /** getBigDecimal; a Float or Double goes through its toString text, and its
      JSONException names "Long" as the target. */
  function GetBigDecimal(a: JsonArray, i: int): (r: Result<Option<BigDecimal>, Error>)
    ensures !(0 <= i < |a|) ==> r == Failure(IndexOutOfBounds(i, |a|))
    ensures 0 <= i < |a| ==>
      && (IsSentinel(a[i]) ==> r == Success(None))
      && (a[i].BigDec? ==> r == Success(Some(a[i].dec)))
      && (IntegralValue(a[i]).Some? ==> r == Success(Some(BigDecimal(IntegralValue(a[i]).value, 0))))
      && (a[i].Float? ==> r == DecimalFromText(a[i].single.text))
      && (a[i].Double? ==> r == DecimalFromText(a[i].double.text))
      && (a[i].OtherNumber? ==> r == Success(Some(BigDecimal(a[i].reading.asLong, 0))))
      && (a[i].Str? && !IsSentinelText(a[i].s) ==> r == DecimalFromText(a[i].s))
      && (!a[i].Null? && !IsNumber(a[i]) && !a[i].Str? ==> r == Failure(CannotCast(ClassOf(a[i]), "Long")))
  {
    var v :- At(a, i);
    if v.Null? then Success(None)
    else if IsNumber(v) then
      if v.BigDec? then Success(Some(v.dec))
      else if v.BigInt? then Success(Some(BigDecimal(v.big, 0)))
      else if v.Float? then DecimalFromText(v.single.text)
      else if v.Double? then DecimalFromText(v.double.text)
      else Success(Some(BigDecimal(NumberAs(W64, v), 0)))
    else if v.Str? then
      if IsSentinelText(v.s) then Success(None) else DecimalFromText(v.s)
    else Failure(CannotCast(ClassOf(v), "Long"))
  }

  /** new BigDecimal(String), throwing NumberFormatException on refused text:
      it never answers null, and it fails only with NumberFormatException
      carrying the refused text. */
  function DecimalFromText(s: string): (r: Result<Option<BigDecimal>, Error>)
    ensures r.Success? ==> r.value.Some?
    ensures r.Success? <==> ParseDecimal(s).Some?
    ensures r.Failure? ==> r.error == NumberFormat(s)
  {
    match ParseDecimal(s)
    case Some(d) => Success(Some(d))
    case None => Failure(NumberFormat(s))
  }

  /** getString: text verbatim, sentinel or not; anything else through the
      JSON writer. */
  function GetString(a: JsonArray, i: int, svc: Services): (r: Result<Option<string>, Error>)
    ensures !(0 <= i < |a|) ==> r == Failure(IndexOutOfBounds(i, |a|))
    ensures 0 <= i < |a| ==>
      && (a[i].Null? ==> r == Success(None))
      && (a[i].Str? ==> r == Success(Some(a[i].s)))
      && (!a[i].Null? && !a[i].Str? ==> r == svc.encode(a[i]))
  {
    var v :- At(a, i);
    if v.Null? then Success(None)
    else if v.Str? then Success(Some(v.s))
    else svc.encode(v)
  }

  /** getDate: a Date passes through, a Number is epoch milliseconds with zero
      meaning null, anything else is left to TypeUtils.toDate. */
  function GetDate(a: JsonArray, i: int, svc: Services): (r: Result<Option<Date>, Error>)
    ensures !(0 <= i < |a|) ==> r == Failure(IndexOutOfBounds(i, |a|))
    ensures 0 <= i < |a| ==>
      && (a[i].Null? ==> r == Success(None))
      && (a[i].DateV? ==> r == Success(Some(a[i].date)))
      && (IsNumber(a[i]) ==> r.Success? && (r.value.None? <==> NumberAs(W64, a[i]) == 0))
      && (IsNumber(a[i]) && r.Success? && r.value.Some? ==> r.value.value.millis == NumberAs(W64, a[i]))
      && (!a[i].Null? && !a[i].DateV? && !IsNumber(a[i]) ==> r == svc.toDate(a[i]))
  {
    var v :- At(a, i);
    if v.Null? then Success(None)
    else if v.DateV? then Success(Some(v.date))
    else if IsNumber(v) then
      var millis := NumberAs(W64, v);
      if millis == 0 then Success(None) else Success(Some(Date(millis)))
    else svc.toDate(v)
  }

  /** getInstant: an Instant passes through, a Number is epoch milliseconds with
      zero meaning null, anything else is left to TypeUtils.toInstant. */
  function GetInstant(a: JsonArray, i: int, svc: Services): (r: Result<Option<Instant>, Error>)
    ensures !(0 <= i < |a|) ==> r == Failure(IndexOutOfBounds(i, |a|))
    ensures 0 <= i < |a| ==>
      && (a[i].Null? ==> r == Success(None))
      && (a[i].InstantV? ==> r == Success(Some(a[i].instant)))
      && (IsNumber(a[i]) ==> r.Success? && (r.value.None? <==> NumberAs(W64, a[i]) == 0))
      && (IsNumber(a[i]) && r.Success? && r.value.Some? ==>
            EpochMilli(r.value.value) == NumberAs(W64, a[i]) && r.value.value.nanos % 1_000_000 == 0)
      && (!a[i].Null? && !a[i].InstantV? && !IsNumber(a[i]) ==> r == svc.toInstant(a[i]))
  {
    var v :- At(a, i);
    if v.Null? then Success(None)
    else if v.InstantV? then Success(Some(v.instant))
    else if IsNumber(v) then
      var millis := NumberAs(W64, v);
      if millis == 0 then Success(None) else Success(Some(OfEpochMilli(millis)))
    else svc.toInstant(v)
  }
}
