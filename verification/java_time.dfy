/** java.util.Date and java.time.Instant, as far as the temporal getters use
    them: a Date is a count of milliseconds since the epoch, an Instant is
    seconds since the epoch plus a nanosecond adjustment. */
module JavaTime {
  import opened JavaNumbers

  datatype Date = Date(millis: i64)

  type Nanos = n: int | 0 <= n < 1_000_000_000

  datatype Instant = Instant(seconds: int, nanos: Nanos)

  /** Instant.toEpochMilli, ignoring its overflow check. */
  function EpochMilli(t: Instant): int
  {
    t.seconds * 1000 + t.nanos / 1_000_000
  }

  /** Instant.ofEpochMilli: floor division of the milliseconds into seconds,
      the floor remainder becoming whole milliseconds of nanos. */
  function OfEpochMilli(millis: int): (t: Instant)
    ensures EpochMilli(t) == millis
    ensures t.nanos % 1_000_000 == 0
  {
    var r := millis % 1000;
    assert (r * 1_000_000) / 1_000_000 == r;
    Instant(millis / 1000, r * 1_000_000)
  }
}
