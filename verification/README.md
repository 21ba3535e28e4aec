# fastjson2 JSONArray typed access, modelled in Dafny

fastjson2's `JSONArray` is an `ArrayList<Object>` of untyped elements with
typed getters on top. Each getter takes an index and looks at the runtime
class of the stored element. Then it does one of four things:

- it passes the element through (a `Long` to `getLong`, a `JSONArray` to
  `getJSONArray`);
- it converts the element (a `BigInteger` to `getInteger` through
  `intValue()`, text through `Long.parseLong` or `new BigDecimal(String)`);
- it answers null, `0` or `false` for a "no value" sentinel: Java null,
  `""`, or `"null"` in any case;
- it throws.

The model is functional:

- A JSONArray is a `seq<Element>`. `Element` is a sum type with one
  constructor per kind of value the getters tell apart. A constructor that
  stands for many runtime classes (a Collection, a Map, a Date, a Number of
  some other class, any other object) carries the class name, since
  `getObject` looks up converters by the exact class.
- Every getter is a pure function of the sequence and an index, and
  `Failure` stands for an exception. The nullable getters return
  `Result<Option<T>, Error>`, where `None` stands for Java null. The
  primitive getters (`getLongValue`, `getIntValue`, `getShortValue`,
  `getByteValue`, `getBooleanValue`) return `Result<T, Error>`. `getObject`
  returns `Result<Element, Error>`, where the `Null` element stands for
  Java null.
- An index out of range is the `IndexOutOfBounds` error that `ArrayList.get`
  throws. It is not excluded by a precondition.
- The services JSONArray calls but does not implement are fields of a
  `Services` record of function values, and every property holds whatever
  they do. These are the JSON reader and writer, `TypeUtils.toDate`,
  `TypeUtils.toInstant` and `TypeUtils.getMapping`, and the
  `ObjectReaderProvider` (converter registry, object reader lookup and
  `createInstance`).
- Java integer widths are unbounded integers with explicit two's-complement
  narrowing (`JavaNumbers.Narrow`).
- `BigDecimal` is an unscaled integer and an `int` scale.
- `Date` is epoch milliseconds. `Instant` is epoch seconds plus nanoseconds.

Modules, one per file:

| module | file | contents |
|---|---|---|
| Outcomes | outcomes.dfy | `Option`, `Result` |
| JavaNumbers | java_numbers.dfy | widths, narrowing, `BigDecimal`, `toBigInteger` |
| JavaText | java_text.dfy | `equalsIgnoreCase`, the sentinel test, the JDK integer and decimal parsers, `Long.toString` |
| DecimalTextFacts | decimal_text_facts.dfy | round trips and examples for `new BigDecimal(String)` |
| JavaTime | java_time.dfy | `Date`, `Instant`, `Instant.ofEpochMilli` |
| Elements | elements.dfy | `Element`, classes, exceptions, `Number.xxxValue()` |
| Collaborators | collaborators.dfy | the external services |
| ValueStore | value_store.dfy | indexed read, `fluentAdd`, the constructor and `of` factories |
| ScalarAccess | scalar_access.dfy | numeric, boolean, string, big-number and temporal getters |
| StructuralAccess | structural_access.dfy | `getJSONArray`, `getJSONObject`, `getObject`, `toJavaList` |
| CoercionFacts | coercion_facts.dfy | properties relating the getters |

Where a getter departs from its siblings or from what its Javadoc suggests, the model follows the code:

- `getString` returns a String element verbatim, even `""` or `"null"`. It has
  no sentinel test.
- A wrong structural shape gives null from `getJSONArray` and
  `getJSONObject`, not an error. A Map read as an array is one example.
- Bad numeric text fails inside the JDK parser (`NumberFormat`), not through
  JSONException.
- `getBooleanValue` has no sentinel test. `JavaText.SentinelIsNotTrue`
  shows that this cannot change its answer.
- A number is read as a boolean through `intValue() == 1`, not "equals 1".
  So a `Long` reads as true exactly when its low 32 bits, as an int, are 1,
  and 0x1_0000_0001 reads as true (`CoercionFacts.BooleanFromLowBits`).
- `getBigInteger` and `getBigDecimal` name `Long` as the target in their
  cast exception, and the model keeps that text.
- `getByte` has no exact-class branch. A `Byte` goes through `byteValue()`,
  which gives the same value.

## Model

| member | source | states |
|---|---|---|
| ValueStore.ReadsCoverContents | core/src/main/java/com/alibaba/fastjson2/JSONArray.java:276 | `ArrayList.get` (`ValueStore.At`) fails exactly at the indices outside the list, every read is a stored element, and every stored element is read at some index |
| ValueStore.FluentAdd | core/src/main/java/com/alibaba/fastjson2/JSONArray.java:835-838 | the list grows by one, the earlier prefix is unchanged, and the new last element is the argument |
| ValueStore.FluentAddKeepsEarlierReads | core/src/main/java/com/alibaba/fastjson2/JSONArray.java:835-838 | after an append every earlier index reads what it read before, the new index reads the element, and indices past it still fail |
| ValueStore.FromItems | core/src/main/java/com/alibaba/fastjson2/JSONArray.java:46-51 | adding the arguments one by one to an empty list gives exactly the arguments in order |
| ValueStore.Of1 | core/src/main/java/com/alibaba/fastjson2/JSONArray.java:854-858 | `of(item)` is the one-element list |
| ValueStore.Of2 | core/src/main/java/com/alibaba/fastjson2/JSONArray.java:866-871 | `of(first, second)` is the two arguments in order |
| ValueStore.Of3 | core/src/main/java/com/alibaba/fastjson2/JSONArray.java:880-886 | `of(first, second, third)` is the three arguments in order |
| ValueStore.OverloadsAgree | core/src/main/java/com/alibaba/fastjson2/JSONArray.java:845-886 | the fixed-arity `of` overloads build the same list as `of(Object...)`, which is the variadic constructor |
| ScalarAccess.ParseIntegral | core/src/main/java/com/alibaba/fastjson2/JSONArray.java:294 | the JDK integer parser at a width either gives a value inside that width or refuses the text with NumberFormatException |
| ScalarAccess.GetLong | core/src/main/java/com/alibaba/fastjson2/JSONArray.java:275-298 | sentinel gives null; an integral number gives its value narrowed to 64 bits; any Number gives `longValue()`; other text goes to `Long.parseLong`; any other class throws "can not cast … to Long" |
| ScalarAccess.GetLongValue | core/src/main/java/com/alibaba/fastjson2/JSONArray.java:306-328 | agrees with getLong, with 0 for null and the same cause on failure |
| ScalarAccess.GetInteger | core/src/main/java/com/alibaba/fastjson2/JSONArray.java:336-359 | the getLong contract at 32 bits with `Integer.parseInt` and target "Integer" |
| ScalarAccess.GetIntValue | core/src/main/java/com/alibaba/fastjson2/JSONArray.java:367-389 | agrees with getInteger, with 0 for null |
| ScalarAccess.GetShort | core/src/main/java/com/alibaba/fastjson2/JSONArray.java:397-423 | the getLong contract at 16 bits with `Short.parseShort` and target "short" |
| ScalarAccess.GetShortValue | core/src/main/java/com/alibaba/fastjson2/JSONArray.java:431-453 | agrees with getShort, with 0 for null |
| ScalarAccess.GetByte | core/src/main/java/com/alibaba/fastjson2/JSONArray.java:461-483 | the getLong contract at 8 bits with `Byte.parseByte` and target "byte" |
| ScalarAccess.GetByteValue | core/src/main/java/com/alibaba/fastjson2/JSONArray.java:491-513 | agrees with getByte, with 0 for null |
| ScalarAccess.GetBoolean | core/src/main/java/com/alibaba/fastjson2/JSONArray.java:521-547 | sentinel gives null; a Boolean passes through; a Number is true iff `intValue()` is 1; other text is true iff it is "true" ignoring case or "1"; any other class throws "can not convert to boolean" |
| ScalarAccess.GetBooleanValue | core/src/main/java/com/alibaba/fastjson2/JSONArray.java:555-576 | agrees with getBoolean, with false for null, and fails only where getBoolean fails, with the same error |
| ScalarAccess.GetBigInteger | core/src/main/java/com/alibaba/fastjson2/JSONArray.java:584-615 | an integral number gives its exact value; a BigDecimal gives its integer part; Float, Double and a Number of any other class give `longValue()`; other text goes to `new BigInteger`; a sentinel gives null; any other class throws |
| ScalarAccess.GetBigDecimal | core/src/main/java/com/alibaba/fastjson2/JSONArray.java:623-660 | a BigDecimal passes through; an integral number gives scale 0; Float and Double go through their text and `new BigDecimal(String)`, a Number of any other class gives its `longValue()` with scale 0, and other text goes through `new BigDecimal(String)`; a sentinel gives null; any other class throws |
| ScalarAccess.DecimalFromText | core/src/main/java/com/alibaba/fastjson2/JSONArray.java:656 | `new BigDecimal(String)` never answers null; it succeeds exactly on the texts the decimal syntax accepts and otherwise throws NumberFormatException carrying the text |
| ScalarAccess.GetString | core/src/main/java/com/alibaba/fastjson2/JSONArray.java:127-139 | null gives null; a String is returned verbatim, sentinel text included; anything else is the encoder's answer |
| ScalarAccess.GetDate | core/src/main/java/com/alibaba/fastjson2/JSONArray.java:668-688 | a Date passes through; a Number gives null iff its `longValue()` is 0 and otherwise the Date at that millisecond; anything else goes to `TypeUtils.toDate` |
| ScalarAccess.GetInstant | core/src/main/java/com/alibaba/fastjson2/JSONArray.java:696-716 | an Instant passes through; a Number gives null iff its `longValue()` is 0 and otherwise an instant whose epoch millisecond is that value, with whole-millisecond nanos; anything else goes to `TypeUtils.toInstant` |
| StructuralAccess.GetJSONArray | core/src/main/java/com/alibaba/fastjson2/JSONArray.java:59-85 | a JSONArray passes through and any other Collection keeps its elements in order; sentinel text gives null; other text is decoded; every other shape gives null; the only failures are decoder failures |
| StructuralAccess.GetJSONObject | core/src/main/java/com/alibaba/fastjson2/JSONArray.java:93-119 | the mirror of getJSONArray for JSONObject and Map |
| StructuralAccess.GetObject | core/src/main/java/com/alibaba/fastjson2/JSONArray.java:793-824 | null gives null; otherwise the first of these that applies: the converter registered for the exact class, `createInstance(map)`, `createInstance(collection)` (each after the object reader lookup, whose exception is the answer), identity for an instance of the target; failing all of them a JSONException naming the class |
| StructuralAccess.ToJavaList | core/src/main/java/com/alibaba/fastjson2/JSONArray.java:766-783 | the object reader lookup before the loop fails the call, even on an empty list; otherwise succeeds iff every element is a Map that `createInstance` accepts, giving the converted elements in the same order and length, and fails with the error of the first element that is not one |
| JavaNumbers.Narrow | core/src/main/java/com/alibaba/fastjson2/JSONArray.java:285-287 | a narrowing cast lands in the target width and leaves a value that already fits unchanged |
| JavaNumbers.NarrowQuotient | core/src/main/java/com/alibaba/fastjson2/JSONArray.java:285-287 | what a narrowing cast discards is a whole multiple of 2^w |
| JavaNumbers.NarrowUnique | core/src/main/java/com/alibaba/fastjson2/JSONArray.java:285-287 | a value in the width that differs from n by a multiple of 2^w is the narrowing of n |
| JavaNumbers.NarrowThrough | core/src/main/java/com/alibaba/fastjson2/JSONArray.java:408-410 | narrowing through a wider width first (as `shortValue()` is `(short) intValue()`) gives the same result as narrowing directly |
| JavaNumbers.ToBigInteger | core/src/main/java/com/alibaba/fastjson2/JSONArray.java:596-598 | `toBigInteger` of a BigDecimal is its value truncated toward zero: exact for scale ≤ 0, otherwise bounded by consecutive multiples of 10^scale on the side of zero |
| JavaText.SentinelSpellings | core/src/main/java/com/alibaba/fastjson2/JSONArray.java:291 | `IsSentinelText`, the test that `str` is empty or `str.equalsIgnoreCase("null")`, holds exactly for `""` and the sixteen case spellings of "null" |
| JavaText.EqualsIgnoreCaseMeansSameUpperCase | core/src/main/java/com/alibaba/fastjson2/JSONArray.java:69 | `equalsIgnoreCase` holds exactly when both texts are equal once put in upper case |
| JavaText.ParseInteger | core/src/main/java/com/alibaba/fastjson2/JSONArray.java:611 | `new BigInteger(String)` and `Long.parseLong` refuse the empty text; a negative result comes only from text starting with `-`, and such text never gives a positive one |
| JavaText.SentinelIsNotTrue | core/src/main/java/com/alibaba/fastjson2/JSONArray.java:570-573 | no sentinel text reads as true, so getBooleanValue's missing sentinel test changes nothing |
| JavaText.NatToTextValue | core/src/main/java/com/alibaba/fastjson2/JSONArray.java:294 | the digits `Long.toString` writes for n denote n |
| JavaText.ParseDecimal | core/src/main/java/com/alibaba/fastjson2/JSONArray.java:656 | `new BigDecimal(String)` gives a negative unscaled value only for text starting with `-`, and such text never gives a positive one |
| JavaText.ParseIntegerRoundTrip | core/src/main/java/com/alibaba/fastjson2/JSONArray.java:294 | the integer parser reads back every integer's `Long.toString` text |
| DecimalTextFacts.ParseDecimalRoundTrip | core/src/main/java/com/alibaba/fastjson2/JSONArray.java:656 | `new BigDecimal(String)` reads back any BigDecimal of non-negative scale from a sign, its digits and a point placed `scale` digits from the end |
| DecimalTextFacts.DecimalReadsIntegerText | core/src/main/java/com/alibaba/fastjson2/JSONArray.java:656 | every text `new BigInteger(String)` accepts, sign and leading zeros included, is read by `new BigDecimal(String)` as the same integer with scale 0 |
| DecimalTextFacts.ParseDecimalOfInteger | core/src/main/java/com/alibaba/fastjson2/JSONArray.java:645-646 | the text of an integer parses as that integer with scale 0, the value `BigDecimal.valueOf` gives |
| DecimalTextFacts.DecimalOnePointOne | core/src/main/java/com/alibaba/fastjson2/JSONArray.java:642 | "1.1" parses as unscaled 11 with scale 1 |
| DecimalTextFacts.DecimalWithExponent | core/src/main/java/com/alibaba/fastjson2/JSONArray.java:656 | "-1.0E10" parses as unscaled -10 with scale -9 |
| DecimalTextFacts.DecimalRefusesNaN | core/src/main/java/com/alibaba/fastjson2/JSONArray.java:642 | "NaN", the text of a Double NaN, is refused |
| DecimalTextFacts.DigitsValueConcat | core/src/main/java/com/alibaba/fastjson2/JSONArray.java:656 | the value of two digit runs written one after the other is the first shifted by the length of the second, plus the second (`PointedTextValue` rests on it) |
| DecimalTextFacts.PointedTextValue | core/src/main/java/com/alibaba/fastjson2/JSONArray.java:642 | "w.f" parses as the digits of w and f read as one number, which is w shifted by the length of f plus f, with scale the length of f |
| DecimalTextFacts.PointedExponentValue | core/src/main/java/com/alibaba/fastjson2/JSONArray.java:656 | a sign, "w.f", "E" and an int exponent n parse as the digits of w and f with scale length(f) − n, when that scale is an int |
| DecimalTextFacts.ExponentTextParts | core/src/main/java/com/alibaba/fastjson2/JSONArray.java:656 | the exponent after "E" is read as an integer and combined with the split significand |
| DecimalTextFacts.UnitWithExponent | core/src/main/java/com/alibaba/fastjson2/JSONArray.java:656 | "1E" followed by any integer n parses as 10^n iff n and −n are ints, and is refused otherwise |
| JavaTime.OfEpochMilli | core/src/main/java/com/alibaba/fastjson2/JSONArray.java:712 | `Instant.ofEpochMilli` gives an instant whose epoch millisecond is the argument, negative values included, with whole-millisecond nanos |
| Elements.NumberAs | core/src/main/java/com/alibaba/fastjson2/JSONArray.java:285-287 | every `Number.xxxValue()` result lies in its width |
| Elements.LowBits | core/src/main/java/com/alibaba/fastjson2/JSONArray.java:346-348 | `BigInteger.longValue`, `intValue`, and `shortValue`/`byteValue` through `intValue`, all give the direct two's-complement narrowing of the value |
| Elements.NumberAsIntegral | core/src/main/java/com/alibaba/fastjson2/JSONArray.java:285-287 | for an integral Number of any class, every width conversion is two's-complement narrowing of its exact value |
| CoercionFacts.SentinelMeansNoValue | core/src/main/java/com/alibaba/fastjson2/JSONArray.java:275-328 | a sentinel gives null from every nullable numeric, boolean and structural getter, 0 or false from every primitive getter, and never an error |
| CoercionFacts.NullExactlyForSentinel | core/src/main/java/com/alibaba/fastjson2/JSONArray.java:277-293 | `Elements.IsSentinel` (null, `""` or "null" in any case) holds exactly where the nullable numeric, boolean and big-number getters answer null |
| CoercionFacts.IntegralConversion | core/src/main/java/com/alibaba/fastjson2/JSONArray.java:281-287 | an integral number n reads as n narrowed to each width from both getter families, as n from getBigInteger and as n with scale 0 from getBigDecimal |
| CoercionFacts.FitsExactly | core/src/main/java/com/alibaba/fastjson2/JSONArray.java:342-348 | an integral number that fits a width reads back unchanged at that width and every wider one |
| CoercionFacts.ParseIntegralAcceptsExactlyInRange | core/src/main/java/com/alibaba/fastjson2/JSONArray.java:419 | an integer's text parses at a width iff the integer fits it, and is refused otherwise |
| CoercionFacts.NumericGettersRefuseOtherShapes | core/src/main/java/com/alibaba/fastjson2/JSONArray.java:297 | an element that is not null, a Number or a String makes every numeric getter throw its cast exception |
| CoercionFacts.MalformedTextIsRefused | core/src/main/java/com/alibaba/fastjson2/JSONArray.java:324 | non-sentinel text that is no integer makes nullable and primitive integral getters and getBigInteger fail in the parser, never defaulting to 0 |
| CoercionFacts.LongAgreesWithBigInteger | core/src/main/java/com/alibaba/fastjson2/JSONArray.java:584-615 | getLong is getBigInteger narrowed to 64 bits, except that text too large for a long is refused; BigInteger is unbounded here |
| CoercionFacts.BigIntegerIsIntegerPartOfDecimal | core/src/main/java/com/alibaba/fastjson2/JSONArray.java:630-647 | for every non-text, non-floating element, getBigInteger is the integer part of getBigDecimal, and the two fail alike, with BigInteger unbounded |
| CoercionFacts.IntegerTextIsNotSentinel | core/src/main/java/com/alibaba/fastjson2/JSONArray.java:291 | the text of an integer is never a sentinel |
| CoercionFacts.IntegerTextReadsBack | core/src/main/java/com/alibaba/fastjson2/JSONArray.java:611 | an integer's text reads back as that integer from getBigInteger and getBigDecimal, and from getLong iff it fits a long |
| CoercionFacts.IntegerSyntaxReadsAlike | core/src/main/java/com/alibaba/fastjson2/JSONArray.java:611 | text `new BigInteger` accepts is no sentinel, and getBigDecimal reads it as the integer getBigInteger gives, with scale 0 |
| CoercionFacts.TextGettersShareText | core/src/main/java/com/alibaba/fastjson2/JSONArray.java:127-139 | every nullable and primitive numeric getter, both boolean getters, getBigInteger, getBigDecimal and both structural getters read the very string getString returns |
| CoercionFacts.DateAndInstantAgree | core/src/main/java/com/alibaba/fastjson2/JSONArray.java:668-716 | for a stored number, getDate and getInstant are null together and otherwise denote the same epoch millisecond |
| CoercionFacts.ShapesDoNotCross | core/src/main/java/com/alibaba/fastjson2/JSONArray.java:59-119 | a Map reads as a null array and a Collection as a null object, and no non-text element is non-null under both |
| CoercionFacts.ObjectReadsLikeStructuralGetters | core/src/main/java/com/alibaba/fastjson2/JSONArray.java:806-815 | without a registered converter, getObject builds a Map from the fields getJSONObject gives and a Collection from the items getJSONArray gives |
| CoercionFacts.BooleanFromLowBits | core/src/main/java/com/alibaba/fastjson2/JSONArray.java:532-534 | for every long n, getBoolean and getBooleanValue read `[n]` as true exactly when the int made of n's low 32 bits is 1, so 0x1_0000_0001 reads as true |
| CoercionFacts.IntegerTextExamples | core/src/main/java/com/alibaba/fastjson2/JSONArray.java:350-356 | "123" reads as 123, "abc" is refused by nullable and primitive getters, "NuLL" is no value |
| CoercionFacts.StringKeepsSentinelText | core/src/main/java/com/alibaba/fastjson2/JSONArray.java:131-133 | getString returns "null" and "" verbatim |
| CoercionFacts.BooleanExamples | core/src/main/java/com/alibaba/fastjson2/JSONArray.java:532-543 | 1, "TRUE" and "1" are true; 0 and "false" are false |
| CoercionFacts.TemporalExamples | core/src/main/java/com/alibaba/fastjson2/JSONArray.java:679-712 | a stored zero is no date or instant; -1 ms is the instant one millisecond before the epoch |
| CoercionFacts.DecimalFromDoubleText | core/src/main/java/com/alibaba/fastjson2/JSONArray.java:639-643 | a Double goes through its text, so 1.1 keeps one fraction digit and NaN is refused |
| CoercionFacts.DecimalFromExponentText | core/src/main/java/com/alibaba/fastjson2/JSONArray.java:656 | "-1.0E10" reads as unscaled -10 with scale -9 |
| CoercionFacts.DecimalExponentRange | core/src/main/java/com/alibaba/fastjson2/JSONArray.java:655-656 | getBigDecimal reads "1E" and an integer n as 10^n iff n and −n are ints, and otherwise throws NumberFormatException, "1E2147483648" included |
| CoercionFacts.OtherNumbersReadThroughValueMethods | core/src/main/java/com/alibaba/fastjson2/JSONArray.java:285-287 | a Number of a class no getter names is read through its `longValue()` and `intValue()` by every nullable and primitive numeric and boolean getter (getLong/getLongValue, getInteger/getIntValue, getShort/getShortValue, getByte/getByteValue, getBoolean/getBooleanValue, getBigInteger, getBigDecimal) |
| CoercionFacts.DecimalTruncatesTowardZero | core/src/main/java/com/alibaba/fastjson2/JSONArray.java:596-600 | -1.9 reads as -1 from getBigInteger and getLong |
| CoercionFacts.FactoryExamples | core/src/main/java/com/alibaba/fastjson2/JSONArray.java:835-886 | the factories and fluent append build exactly the listed elements |

## Left out

- JSON decoding and encoding (`JSONReader.of` and the array and object readers at JSONArray.java:73-77 and :107-111, `JSON.toJSONString` at :138) are the `decodeArray`, `decodeObject` and `encode` parameters. `toString` and `toJSONString` (:724-741) only call the writer and are not modelled.
- The lazily initialised static caches `arrayReader`, `objectReader` and `arrayWriter` (:18-20, :74-76, :108-110, :726-728) are global mutable state. The model has no concurrency.
- `getDouble`, `getDoubleValue`, `getFloat` and `getFloatValue` (:147-267) are floating point and are not modelled.
- A Float or Double element is opaque: its `longValue()`, `intValue()` and `toString()` results are fields of `OpaqueNumber`, not computed from a binary value.
- A subclass of `JSONArray`, `JSONObject`, `BigInteger` or `BigDecimal` is taken to be that class exactly: its class name is not kept, so a converter registered for the subclass alone is not modelled. The class name of an `Other` element is assumed not to name a Number, Collection or Map class.
- A `Number` of any other class (`AtomicLong`, `DoubleAdder`, a user subclass) is the `OtherNumber` element, opaque in the same way. It is assumed to keep `Number`'s default `shortValue()` and `byteValue()`, which narrow `intValue()`; an override of those two is not modelled.
- `TypeUtils.toDate`, `TypeUtils.toInstant`, `TypeUtils.getMapping` and the reflection-based `ObjectReaderProvider` (`getTypeConvert`, `getObjectReader`, `createInstance`) are external services, modelled as parameters.
- The `System.out.println` in `toJavaList` (:775) is output and is not modelled.
- The no-argument and capacity constructors (:25-34) give an empty list, and the capacity is not modelled. The Collection constructor (:39-41), which `getJSONArray` uses at :81, gives the collection's elements in iteration order; `ValueStore.FromItems` models it together with the variadic constructor.
- `toJavaObject` (:748-752) only hands the whole list to an object reader, an external service. It is not modelled.
- `of(Object...)` (:845-847) only calls the variadic constructor, so `ValueStore.FromItems` models both.
- The model has no object identity. `fluentAdd` returns the receiver itself, stated as "returns the updated list". `getJSONArray` and `getJSONObject` return the stored instance for a `JSONArray` or `JSONObject` element (:62-63, :96-97) but a fresh copy for any other `Collection` or `Map` (:81, :115); the model gives the same contents in both cases, so "the caller's changes reach this list" holds only for the pass-through case and is not stated.
- Java `Character.digit` accepts non-ASCII decimal digits, and `equalsIgnoreCase` folds non-ASCII letters. The model reads ASCII digits only and folds ASCII case only.
- `new BigDecimal(String)` refuses an exponent outside the int range and a resulting scale outside it, and the model refuses both. The JDK also counts the exponent's digits, leading zeros skipped, and refuses more than ten; every such exponent is already outside the int range, so the model has no separate digit count.
- ScalarAccess.GetBigInteger: the model's BigInteger is an unbounded `int`. The JDK's BigInteger has a bounded range, and the ArithmeticException it throws past that range is not modelled: `toBigInteger()` of a BigDecimal such as 1E+1000000000 (:597) and `new BigInteger(text)` for text of hundreds of millions of digits (:611) both throw there, while the model returns the value.
- JavaNumbers.ToBigInteger: the same gap. It returns the integer part for every scale, where the JDK throws ArithmeticException once the result would leave BigInteger's supported range.
- CoercionFacts.LongAgreesWithBigInteger: holds for the model's unbounded BigInteger. For a BigDecimal of scale −10^9, `getBigInteger` throws in the JDK while `getLong` answers 0 (`longValue()` is 0 for a scale of −64 or less), so in the JDK the two do not agree there; the lemma does not state that case.
- CoercionFacts.BigIntegerIsIntegerPartOfDecimal: "the two fail alike" holds only within BigInteger's supported range. For a BigDecimal of scale −10^9, `getBigDecimal` returns it in the JDK while `getBigInteger` throws ArithmeticException; the lemma, about the unbounded model, does not state that case.
- `Instant.toEpochMilli` overflow is not modelled: `JavaTime.EpochMilli` is the unbounded value. `Instant.ofEpochMilli` cannot overflow for a `long` argument.
- Map key order and non-String keys of a `Map` element are not modelled: a Map is a `map<string, Element>`.
- Exception messages are modelled by their parts (class and target), not as formatted text.
- The primitive getters' contracts compare failure causes ignoring the target name in the cast message ("Long" against "long"), and `CoercionFacts.NumericGettersRefuseOtherShapes` gives the exact messages.
- core/src/test/java/com/alibaba/fastjson2/TestUtils.java is a test fixture with no behaviour to model.
