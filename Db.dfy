/** The conversion between a wall-clock time and PostgreSQL's `TIME`, which
    Diesel carries as `PgTime`: a signed 64-bit count of microseconds since
    midnight. */
module Db {
  import opened RustInt
  import opened WallClock

  const MICROS_PER_DAY: nat := 86_400_000_000

  /** `to_sql`: seconds scaled to microseconds plus the microseconds, in `i64`
      arithmetic. Both fields are `u32`, so the sum never overflows. The
      seconds and microseconds can be read back off the offset; whole
      seconds held in the microseconds field carry into the seconds. */
  function Encode(t: WallClockTime): (offset: i64)
    ensures 0 <= offset
    ensures Valid(t) ==> offset < MICROS_PER_DAY
    ensures t.micros < MICROS_PER_SECOND ==>
      offset / MICROS_PER_SECOND == t.seconds && offset % MICROS_PER_SECOND == t.micros
    ensures offset / MICROS_PER_SECOND == t.seconds + t.micros / MICROS_PER_SECOND
    ensures offset % MICROS_PER_SECOND == t.micros % MICROS_PER_SECOND
  {
    t.seconds * 1_000_000 + t.micros
  }

  /** `from_sql`: the quotient and remainder of the offset by 10^6, each
      truncated toward zero and then cast to `u32`, which keeps the low 32
      bits. Nothing checks that the offset lies within the day. */
  function Decode(offset: i64): (t: WallClockTime)
    ensures 0 <= offset ==> t.micros == offset % MICROS_PER_SECOND
    ensures 0 <= offset < U32_LIMIT * MICROS_PER_SECOND ==> t.seconds == offset / MICROS_PER_SECOND
    ensures 0 <= offset < MICROS_PER_DAY ==> Valid(t)
  {
    WallClockTime(WrapU32(TruncDiv(offset, 1_000_000)), WrapU32(TruncRem(offset, 1_000_000)))
  }

  /** Reading back what was written gives the same value, for every value
      whose microseconds are below one second. */
  lemma DecodeEncode(t: WallClockTime)
    requires t.micros < MICROS_PER_SECOND
    ensures Decode(Encode(t)) == t
  {
  }

  /** Writing what was read gives the same offset, for every offset that is
      not negative and whose seconds fit in a `u32`. */
  lemma EncodeDecode(offset: i64)
    requires 0 <= offset < U32_LIMIT * MICROS_PER_SECOND
    ensures Encode(Decode(offset)) == offset
  {
  }

  /** For values whose microseconds are below one second, the stored offset
      orders them as the derived `Ord` does, and equal offsets mean equal
      values. */
  lemma EncodeOrder(a: WallClockTime, b: WallClockTime)
    requires a.micros < MICROS_PER_SECOND && b.micros < MICROS_PER_SECOND
    ensures Cmp(a, b) == Less <==> Encode(a) < Encode(b)
    ensures Cmp(a, b) == Equal <==> Encode(a) == Encode(b)
  {
    if Encode(a) == Encode(b) {
      DecodeEncode(a);
      DecodeEncode(b);
    }
  }

  /** Among offsets whose seconds fit in a `u32`, exactly those within the
      day decode to a valid value. */
  lemma DecodeValid(offset: i64)
    requires 0 <= offset < U32_LIMIT * MICROS_PER_SECOND
    ensures Valid(Decode(offset)) <==> offset < MICROS_PER_DAY
  {
  }

  /** A negative offset down to well below minus one day decodes to a value
      outside the day: the cast to `u32` turns a negative quotient or
      remainder into a large number. */
  lemma DecodeNegative(offset: i64)
    requires -(U32_LIMIT - SECONDS_PER_DAY) * MICROS_PER_SECOND < offset < 0
    ensures !Valid(Decode(offset))
  {
  }

  /** PostgreSQL's `TIME '24:00:00'` is one day of microseconds; it decodes to
      a value one second past the last valid one, whose hour is 24. */
  lemma DecodeEndOfDay()
    ensures Decode(MICROS_PER_DAY) == WallClockTime(SECONDS_PER_DAY, 0)
    ensures !Valid(Decode(MICROS_PER_DAY)) && Hour(Decode(MICROS_PER_DAY)) == 24
  {
  }
}
