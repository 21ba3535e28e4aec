/** The runtime representations a JSONArray element can have, the Java facts
    the accessors test about them (their class, whether they are a Number) and
    what Number.longValue, intValue, shortValue and byteValue give for them. */
module Elements {
  import opened Outcomes
  import opened JavaNumbers
  import opened JavaText
  import opened JavaTime

  /** What longValue(), intValue() and toString() give for a Float, a Double
      or a Number of a class the getters do not name; the value itself is not
      modelled. */
  datatype OpaqueNumber = OpaqueNumber(asLong: i64, asInt: i32, text: string)

  /** One stored element: Java null, a boxed primitive, a big number, some
      other Number (AtomicLong, LongAdder, ...), a String, a JSONArray or other
      Collection, a JSONObject or other Map, a Date, an Instant, or an object of
      any other class, which is neither a Number, a Map nor a Collection. Where
      a constructor stands for many runtime classes (a Collection, a Map, a
      Date or its subclasses, a Number or an object of some other class) it
      carries the class's name, which getClass() reports. */
  datatype Element =
    | Null
    | Bool(flag: bool)
    | Byte(byteValue: i8)
    | Short(shortValue: i16)
    | Int(intValue: i32)
    | Long(longValue: i64)
    | BigInt(big: int)
    | BigDec(dec: BigDecimal)
    | Float(single: OpaqueNumber)
    | Double(double: OpaqueNumber)
    | OtherNumber(numberClass: string, reading: OpaqueNumber)
    | Str(s: string)
    | JArray(items: seq<Element>)
    | Coll(collectionClass: string, items: seq<Element>)
    | JObject(fields: map<string, Element>)
    | MapV(mapClass: string, fields: map<string, Element>)
    | DateV(dateClass: string, date: Date)
    | InstantV(instant: Instant)
    | Other(className: string, identity: nat)

  /** The contents of a JSONArray, in order. */
  type JsonArray = seq<Element>

  /** The contents of a JSONObject. */
  type JsonObject = map<string, Element>

  /** The runtime class of a non-null element, as value.getClass() reports it;
      a Collection, Map or Date class other than the ones the getters name is
      known by its name. */
  datatype JavaClass =
    | BooleanClass | ByteClass | ShortClass | IntegerClass | LongClass
    | BigIntegerClass | BigDecimalClass | FloatClass | DoubleClass | StringClass
    | JSONArrayClass | CollectionClass(collectionName: string)
    | JSONObjectClass | MapClass(mapName: string)
    | DateClass(dateName: string) | InstantClass | NamedClass(name: string)

  /** A target type handed to getObject or toJavaList. */
  datatype TypeRef = TypeRef(name: string)

  /** The exceptions an accessor can raise. */
  datatype Error =
      /** IndexOutOfBoundsException from ArrayList.get */
    | IndexOutOfBounds(index: int, size: nat)
      /** NumberFormatException from a JDK parser, with the text it refused */
    | NumberFormat(input: string)
      /** JSONException "can not cast <class> to <target>" */
    | CannotCast(from: JavaClass, target: string)
      /** JSONException "can not convert to boolean : <value>" */
    | CannotConvertToBoolean(value: Element)
      /** JSONException "can not convert from <class> to <type>" */
    | CannotConvertObject(from: JavaClass, to: TypeRef)
      /** JSONException "TODO" from toJavaList */
    | NotImplemented
      /** whatever a collaborating service throws */
    | Raised(detail: string)

  /** Two failures with the same cause: the same exception, or the same cast
      refused under a differently spelled target name ("Long" and "long"). */
  predicate SameCause(e1: Error, e2: Error)
  {
    e1 == e2 || (e1.CannotCast? && e2.CannotCast? && e1.from == e2.from)
  }

  function ClassOf(v: Element): JavaClass
    requires !v.Null?
  {
    match v
    case Bool(_) => BooleanClass
    case Byte(_) => ByteClass
    case Short(_) => ShortClass
    case Int(_) => IntegerClass
    case Long(_) => LongClass
    case BigInt(_) => BigIntegerClass
    case BigDec(_) => BigDecimalClass
    case Float(_) => FloatClass
    case Double(_) => DoubleClass
    case OtherNumber(name, _) => NamedClass(name)
    case Str(_) => StringClass
    case JArray(_) => JSONArrayClass
    case Coll(name, _) => CollectionClass(name)
    case JObject(_) => JSONObjectClass
    case MapV(name, _) => MapClass(name)
    case DateV(name, _) => DateClass(name)
    case InstantV(_) => InstantClass
    case Other(name, _) => NamedClass(name)
  }

  /** `value instanceof Number` */
  predicate IsNumber(v: Element)
  {
    v.Byte? || v.Short? || v.Int? || v.Long? || v.BigInt? || v.BigDec? || v.Float? || v.Double? || v.OtherNumber?
  }

  /** `value instanceof Map` */
  predicate IsMap(v: Element)
  {
    v.JObject? || v.MapV?
  }

  /** `value instanceof Collection` */
  predicate IsCollection(v: Element)
  {
    v.JArray? || v.Coll?
  }

  /** A stored element that means "no value": null, or sentinel text. */
  predicate IsSentinel(v: Element)
  {
    v.Null? || (v.Str? && IsSentinelText(v.s))
  }

  /** The exact value of an integral Number (Byte, Short, Integer, Long,
      BigInteger). */
  function IntegralValue(v: Element): Option<int>
  {
    match v
    case Byte(n) => Some(n)
    case Short(n) => Some(n)
    case Int(n) => Some(n)
    case Long(n) => Some(n)
    case BigInt(n) => Some(n)
    case _ => None
  }

  /** Number.longValue (w = W64), intValue (W32), shortValue (W16) and
      byteValue (W8) for each Number class. The boxed integers cast; BigInteger
      and BigDecimal keep the low-order 64 or 32 bits of their integer part;
      Float, Double and any other Number have their own long and int
      conversions; shortValue and byteValue of the last four narrow intValue,
      as Number's defaults do. */
  function NumberAs(w: Width, v: Element): (r: int)
    requires IsNumber(v)
    ensures InWidth(w, r)
  {
    match v
    case Byte(n) => Narrow(w, n)
    case Short(n) => Narrow(w, n)
    case Int(n) => Narrow(w, n)
    case Long(n) => Narrow(w, n)
    case BigInt(n) => LowBits(w, n)
    case BigDec(d) => LowBits(w, ToBigInteger(d))
    case Float(f) => OpaqueAs(w, f)
    case Double(f) => OpaqueAs(w, f)
    case OtherNumber(_, f) => OpaqueAs(w, f)
  }

  /** BigInteger.longValue and intValue keep the low-order bits; shortValue and
      byteValue narrow intValue. */
  function LowBits(w: Width, n: int): (r: int)
    ensures r == Narrow(w, n)
  {
    match w
    case W64 => Narrow(W64, n)
    case W32 => Narrow(W32, n)
    case _ => NarrowThrough(W32, w, n); Narrow(w, Narrow(W32, n))
  }

  function OpaqueAs(w: Width, f: OpaqueNumber): (r: int)
    ensures InWidth(w, r)
  {
    match w
    case W64 => f.asLong
    case W32 => f.asInt
    case _ => Narrow(w, f.asInt)
  }

  /** For an integral Number every width conversion is plain two's-complement
      narrowing of its exact value, whatever its class. */
  lemma NumberAsIntegral(w: Width, v: Element)
    ensures IntegralValue(v).Some? ==> IsNumber(v) && NumberAs(w, v) == Narrow(w, IntegralValue(v).value)
  {
    if v.BigInt? && (w == W16 || w == W8) {
      NarrowThrough(W32, w, v.big);
    }
  }
}
