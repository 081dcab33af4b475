/** The wall-clock time value type: a time of day with no date and no time
    zone, kept as whole seconds since midnight plus microseconds past that
    second; its checked constructors, its accessors, its derived order and
    default, and its canonical text form `HH:MM:SS[.FFFFFF]`, written and read. */
module WallClock {
  import opened RustInt
  import opened Wrappers
  import opened Decimal
  import opened Strings

  const SECONDS_PER_DAY: nat := 86_400
  const MICROS_PER_SECOND: nat := 1_000_000

  /** Both fields are `u32`. Dafny's structural equality is the derived
      `PartialEq`/`Eq`: field by field. */
  datatype WallClockTime = WallClockTime(seconds: u32, micros: u32)

  /** The bounds every constructor checks before a value exists. */
  predicate Valid(t: WallClockTime) {
    t.seconds < SECONDS_PER_DAY && t.micros < MICROS_PER_SECOND
  }

  /* ---------------------------------------------------------------------- */
  /* Accessors                                                              */
  /* ---------------------------------------------------------------------- */

  /** Hours since midnight; the quotient is cast to `u8`, which keeps only its
      low eight bits when the value is outside the day. */
  function Hour(t: WallClockTime): (h: u8)
    ensures t.seconds < SECONDS_PER_DAY ==> h < 24 && h * 3600 <= t.seconds < h * 3600 + 3600
    ensures (t.seconds / 3600 - h) % U8_LIMIT == 0
  {
    AsU8(t.seconds / 3600)
  }

  /** Minutes since the last full hour. */
  function Minute(t: WallClockTime): (m: u8)
    ensures m < 60
    ensures m * 60 <= t.seconds % 3600 < m * 60 + 60
  {
    t.seconds % 3600 / 60
  }

  /** Seconds since the last full minute. */
  function Second(t: WallClockTime): (s: u8)
    ensures s < 60
    ensures (t.seconds - s) % 60 == 0
  {
    t.seconds % 60
  }

  /** Microseconds since the last full second. */
  function Microsecond(t: WallClockTime): (u: u32)
    ensures Valid(t) ==> u < MICROS_PER_SECOND
  {
    t.micros
  }

  /* ---------------------------------------------------------------------- */
  /* Constructors: a bound the caller breaks is a panic, hence a requires   */
  /* ---------------------------------------------------------------------- */

  function NewWithMicros(hours: u8, minutes: u8, seconds: u8, micros: u32): (t: WallClockTime)
    requires hours < 24 && minutes < 60 && seconds < 60 && micros < MICROS_PER_SECOND
    ensures Valid(t)
    ensures Hour(t) == hours && Minute(t) == minutes && Second(t) == seconds
    ensures Microsecond(t) == micros
  {
    var total := hours * 3600 + minutes * 60 + seconds;
    ClockFields(hours, minutes, seconds);
    WallClockTime(total, micros)
  }

  function New(hours: u8, minutes: u8, seconds: u8): (t: WallClockTime)
    requires hours < 24 && minutes < 60 && seconds < 60
    ensures Valid(t)
    ensures Hour(t) == hours && Minute(t) == minutes && Second(t) == seconds
    ensures Microsecond(t) == 0
  {
    NewWithMicros(hours, minutes, seconds, 0)
  }

  function NewMidnightOffset(seconds: u32, micros: u32): (t: WallClockTime)
    requires seconds < SECONDS_PER_DAY && micros < MICROS_PER_SECOND
    ensures Valid(t)
    ensures t.seconds == seconds && Microsecond(t) == micros
  {
    WallClockTime(seconds, micros)
  }

  /** Splitting a number of seconds into clock fields and combining them again. */
  lemma ClockFields(h: nat, m: nat, s: nat)
    requires h < 24 && m < 60 && s < 60
    ensures var total := h * 3600 + m * 60 + s;
      total < SECONDS_PER_DAY && total / 3600 == h && total % 3600 / 60 == m && total % 60 == s
  {
    var total := h * 3600 + m * 60 + s;
    var r := m * 60 + s;
    assert r < 3600;
    assert total / 3600 == h && total % 3600 == r;
    assert r / 60 == m && r % 60 == s;
    assert total == (h * 60 + m) * 60 + s;
  }

  /** The clock-field constructor normalises into the midnight-offset one. */
  lemma NewWithMicrosIsMidnightOffset(hours: u8, minutes: u8, seconds: u8, micros: u32)
    requires hours < 24 && minutes < 60 && seconds < 60 && micros < MICROS_PER_SECOND
    ensures hours * 3600 + minutes * 60 + seconds < SECONDS_PER_DAY
    ensures NewWithMicros(hours, minutes, seconds, micros)
         == NewMidnightOffset(hours * 3600 + minutes * 60 + seconds, micros)
  {
    ClockFields(hours, minutes, seconds);
  }

  /** Every valid value is the one its own accessors describe: hour, minute
      and second put back together give the stored seconds. */
  lemma {:induction false} AccessorsRecover(t: WallClockTime)
    requires Valid(t)
    ensures Hour(t) * 3600 + Minute(t) * 60 + Second(t) == t.seconds
    ensures t == NewWithMicros(Hour(t), Minute(t), Second(t), Microsecond(t))
  {
    var h, r := t.seconds / 3600, t.seconds % 3600;
    assert t.seconds == h * 3600 + r;
    assert r == (r / 60) * 60 + r % 60;
    assert t.seconds % 60 == r % 60 by {
      assert t.seconds == (h * 60) * 60 + r;
    }
  }

  /** The valid values are exactly those the clock-field constructor builds. */
  lemma ValidExactlyConstructed(t: WallClockTime)
    ensures Valid(t) <==> (t.micros < MICROS_PER_SECOND && Hour(t) < 24 &&
      t == NewWithMicros(Hour(t), Minute(t), Second(t), t.micros))
  {
    if Valid(t) {
      AccessorsRecover(t);
    }
  }

  /* ---------------------------------------------------------------------- */
  /* Derived Default and Ord                                                */
  /* ---------------------------------------------------------------------- */

  datatype Ordering = Less | Equal | Greater

  /** The derived `Ord`: compare `seconds`, and on a tie `micros`. For valid
      values this is the order of the instants within the day. */
  function Cmp(a: WallClockTime, b: WallClockTime): (o: Ordering)
    ensures o == Equal <==> a == b
    ensures o == Less <==> a.seconds < b.seconds || (a.seconds == b.seconds && a.micros < b.micros)
    ensures a.micros < MICROS_PER_SECOND && b.micros < MICROS_PER_SECOND ==>
      (o == Less <==> a.seconds * 1_000_000 + a.micros < b.seconds * 1_000_000 + b.micros)
  {
    if a.seconds < b.seconds then Less
    else if a.seconds > b.seconds then Greater
    else if a.micros < b.micros then Less
    else if a.micros > b.micros then Greater
    else Equal
  }

  function Reverse(o: Ordering): Ordering {
    match o
    case Less => Greater
    case Equal => Equal
    case Greater => Less
  }

  /** `Cmp` is a total order: it reverses when its arguments swap, and it is
      transitive. */
  lemma CmpIsTotalOrder(a: WallClockTime, b: WallClockTime, c: WallClockTime)
    ensures Cmp(b, a) == Reverse(Cmp(a, b))
    ensures Cmp(a, b) != Greater && Cmp(b, c) != Greater ==> Cmp(a, c) != Greater
    ensures Cmp(a, b) == Less && Cmp(b, c) == Less ==> Cmp(a, c) == Less
  {
  }

  /** The derived `Default`: midnight, the least value of all. */
  function Default(): (t: WallClockTime)
    ensures Valid(t)
    ensures Hour(t) == 0 && Minute(t) == 0 && Second(t) == 0 && Microsecond(t) == 0
    ensures forall u :: Cmp(t, u) != Greater
  {
    WallClockTime(0, 0)
  }

  /* ---------------------------------------------------------------------- */
  /* Display and Debug                                                      */
  /* ---------------------------------------------------------------------- */

  /** `Display`: `HH:MM:SS` with each field zero-padded to two digits, then
      `.` and the microseconds zero-padded to six digits when there are any.
      The text has a `.` exactly when there are microseconds, always exactly
      two `:`, and for a valid value 8 characters, or 15 with microseconds. */
  function Format(t: WallClockTime): (s: string)
    ensures '.' in s <==> t.micros > 0
    ensures multiset(s)[':'] == 2
    ensures Valid(t) ==> |s| == if t.micros > 0 then 15 else 8
  {
    var hh, mm, ss := ZeroPadded(Hour(t), 2), ZeroPadded(Minute(t), 2), ZeroPadded(Second(t), 2);
    var fraction := if t.micros > 0 then Some(ZeroPadded(t.micros, 6)) else None;
    PaddedWidths(t);
    TextSeparators(hh, mm, ss, fraction);
    Text(hh, mm, ss, fraction)
  }

  /** The minute and second always take two digits; within the day so does
      the hour, and valid microseconds take six. */
  lemma PaddedWidths(t: WallClockTime)
    ensures |ZeroPadded(Minute(t), 2)| == 2 && |ZeroPadded(Second(t), 2)| == 2
    ensures Valid(t) ==> |ZeroPadded(Hour(t), 2)| == 2 && |ZeroPadded(t.micros, 6)| == 6
  {
    assert Pow10(2) == 100 && Pow10(6) == 1_000_000;
  }

  /** The text `HH:MM:SS`, or `HH:MM:SS.FFFFFF` when there is a fraction,
      from its pieces as they stand. */
  function Text(hh: string, mm: string, ss: string, fraction: Option<string>): string {
    var hms := hh + ":" + mm + ":" + ss;
    if fraction.Some? then hms + "." + fraction.value else hms
  }

  /** Built from numerals, the text has a `.` exactly when it has a fraction,
      and always exactly two `:`. */
  lemma TextSeparators(hh: string, mm: string, ss: string, fraction: Option<string>)
    requires AllDigits(hh) && AllDigits(mm) && AllDigits(ss)
    requires fraction.Some? ==> AllDigits(fraction.value)
    ensures var s := Text(hh, mm, ss, fraction);
      && ('.' in s <==> fraction.Some?)
      && multiset(s)[':'] == 2
      && |s| == |hh| + |mm| + |ss| + 2 + (if fraction.Some? then |fraction.value| + 1 else 0)
  {
    var hms := hh + ":" + mm + ":" + ss;
    NoSeparators(hh);
    NoSeparators(mm);
    NoSeparators(ss);
    assert multiset(hms) == multiset(hh) + multiset(":") + multiset(mm) + multiset(":") + multiset(ss);
    assert '.' !in hms;
    if fraction.Some? {
      NoSeparators(fraction.value);
      assert multiset(hms + "." + fraction.value) == multiset(hms) + multiset(".") + multiset(fraction.value);
    }
  }

  /** A numeral holds neither of the text's separators. */
  lemma NoSeparators(s: string)
    requires AllDigits(s)
    ensures '.' !in s && ':' !in s && multiset(s)['.'] == 0 && multiset(s)[':'] == 0
  {
    NonDigitAbsent(s, '.');
    NonDigitAbsent(s, ':');
  }

  /** `Debug` writes what `Display` writes. */
  function DebugFormat(t: WallClockTime): (s: string)
    ensures s == Format(t)
  {
    Format(t)
  }

  /** What the fields of the text say, for valid values: characters 0-1,
      3-4 and 6-7 are the hour, minute and second, and 9-14 the
      microseconds. */
  lemma FormatLayout(t: WallClockTime)
    requires Valid(t)
    ensures var s := Format(t);
      && AllDigits(s[0..2]) && Value(s[0..2]) == Hour(t) && s[2] == ':'
      && AllDigits(s[3..5]) && Value(s[3..5]) == Minute(t) && s[5] == ':'
      && AllDigits(s[6..8]) && Value(s[6..8]) == Second(t)
      && (t.micros > 0 ==> s[8] == '.' && AllDigits(s[9..15]) && Value(s[9..15]) == t.micros)
  {
    assert Pow10(2) == 100 && Pow10(6) == 1_000_000;
    var fraction := if t.micros > 0 then Some(ZeroPadded(t.micros, 6)) else None;
    TextLayout(ZeroPadded(Hour(t), 2), ZeroPadded(Minute(t), 2), ZeroPadded(Second(t), 2), fraction);
  }

  /** Where each piece sits in a text of two-character fields. */
  lemma TextLayout(hh: string, mm: string, ss: string, fraction: Option<string>)
    requires |hh| == 2 && |mm| == 2 && |ss| == 2
    requires fraction.Some? ==> |fraction.value| == 6
    ensures var s := Text(hh, mm, ss, fraction);
      && |s| == (if fraction.Some? then 15 else 8)
      && s[0..2] == hh && s[2] == ':' && s[3..5] == mm && s[5] == ':' && s[6..8] == ss
      && (fraction.Some? ==> s[8] == '.' && s[9..15] == fraction.value)
  {
  }

  /* ---------------------------------------------------------------------- */
  /* FromStr                                                                */
  /* ---------------------------------------------------------------------- */

  datatype ParseError =
    | TooManySeparators
    | InvalidMicroseconds
    | InvalidHms
    | InvalidHours
    | InvalidMinutes
    | InvalidSeconds
    | OutOfRange  // only the range-checked parser below reports this

  function Message(e: ParseError): string {
    match e
    case TooManySeparators => "Only one `.` allowed in wall-clock times"
    case InvalidMicroseconds => "Invalid microseconds"
    case InvalidHms => "Invalid HH:MM:SS specified"
    case InvalidHours => "Invalid HH"
    case InvalidMinutes => "Invalid MM"
    case InvalidSeconds => "Invalid SS"
    case OutOfRange => "Wall-clock time out of bounds"
  }

  /** Every error carries its own message, so a caller can tell them apart
      by the string alone. */
  lemma MessageDistinct(e1: ParseError, e2: ParseError)
    ensures Message(e1) == Message(e2) <==> e1 == e2
  {
    if e1 != e2 {
      assert |Message(e1)| != |Message(e2)| || Message(e1)[8] != Message(e2)[8];
    }
  }

  /** The four numbers a text names, as parsed and before they are combined. */
  datatype Fields = Fields(hours: u32, minutes: u32, seconds: u32, micros: u32)

  /** First stage of `from_str`: split at `.`; more than two pieces is an
      error, a second piece must be a `u32` numeral (the microseconds), and
      without one the microseconds are zero. Yields the text before the `.`. */
  function SplitFraction(s: string): (r: Result<(string, u32), ParseError>)
    ensures r.Err? ==> r.error == TooManySeparators || r.error == InvalidMicroseconds
  {
    var secondsMicros := Split(s, '.');
    if |secondsMicros| > 2 then Err(TooManySeparators)
    else if |secondsMicros| == 1 then Ok((secondsMicros[0], 0))
    else
      match ParseU32(secondsMicros[1])
      case None => Err(InvalidMicroseconds)
      case Some(micros) => Ok((secondsMicros[0], micros))
  }

  /** Second stage: split at `:` into exactly three parts and parse each as a
      `u32`; the first part that fails names the error. */
  function ParseClock(hms: string): (r: Result<(u32, u32, u32), ParseError>)
    ensures r.Err? ==> r.error in {InvalidHms, InvalidHours, InvalidMinutes, InvalidSeconds}
  {
    var parts := Split(hms, ':');
    if |parts| != 3 then Err(InvalidHms)
    else
      var hours := ParseU32(parts[0]);
      var minutes := ParseU32(parts[1]);
      var seconds := ParseU32(parts[2]);
      if hours.None? then Err(InvalidHours)
      else if minutes.None? then Err(InvalidMinutes)
      else if seconds.None? then Err(InvalidSeconds)
      else Ok((hours.value, minutes.value, seconds.value))
  }

  /** The split-and-parse chain of `from_str`, up to the four numbers. Only
      the range-checked parser reports a range error. */
  function ParseFields(s: string): (r: Result<Fields, ParseError>)
    ensures r.Err? ==> r.error != OutOfRange
  {
    match SplitFraction(s)
    case Err(e) => Err(e)
    case Ok((hms, micros)) =>
      match ParseClock(hms)
      case Err(e) => Err(e)
      case Ok((hours, minutes, seconds)) => Ok(Fields(hours, minutes, seconds, micros))
  }

  /** The fraction stage reports too many separators exactly when there is
      more than one `.`. */
  lemma SplitFractionTooMany(s: string)
    ensures SplitFraction(s) == Err(TooManySeparators) <==> multiset(s)['.'] > 1
  {
    SplitCount(s, '.');
  }

  /** What the fraction stage passes on holds no `.` and every `:` of the
      text, and is the whole text when there is no `.`. */
  lemma SplitFractionHead(s: string)
    ensures SplitFraction(s).Ok? ==>
      var (head, micros) := SplitFraction(s).value;
      && '.' !in head && multiset(head)[':'] == multiset(s)[':']
      && ('.' !in s ==> head == s && micros == 0)
  {
    var pieces := Split(s, '.');
    SplitCount(s, '.');
    if |pieces| == 2 {
      var head, fraction := pieces[0], pieces[1];
      assert pieces == [head, fraction];
      JoinTwo(head, fraction, '.');
      assert s == head + "." + fraction;
      assert multiset(s) == multiset(head) + multiset(".") + multiset(fraction);
      if ParseU32(fraction).Some? {
        assert multiset(fraction)[':'] == 0;
      }
    }
  }

  /** The clock stage rejects a text without exactly two `:` as a malformed
      `HH:MM:SS`, and accepts only texts with exactly two. */
  lemma ParseClockSeparators(hms: string)
    ensures multiset(hms)[':'] != 2 ==> ParseClock(hms) == Err(InvalidHms)
    ensures ParseClock(hms).Ok? ==> multiset(hms)[':'] == 2
  {
    SplitCount(hms, ':');
  }

  /** What the separators in a text decide: more than one `.` is always an
      error, a text without `.` has no microseconds, and an accepted text
      has exactly two `:`. */
  lemma ParseFieldsSeparators(s: string)
    ensures ParseFields(s) == Err(TooManySeparators) <==> multiset(s)['.'] > 1
    ensures ParseFields(s).Ok? ==> multiset(s)['.'] <= 1 && multiset(s)[':'] == 2
    ensures ParseFields(s).Ok? && '.' !in s ==> ParseFields(s).value.micros == 0
    ensures '.' !in s && multiset(s)[':'] != 2 ==> ParseFields(s) == Err(InvalidHms)
  {
    SplitFractionTooMany(s);
    SplitFractionHead(s);
    if SplitFraction(s).Ok? {
      ParseClockSeparators(SplitFraction(s).value.0);
    }
  }

  /** The value `from_str` builds from the parsed numbers:
      `hours * 3600 + minutes * 60 + seconds` in `u32` arithmetic, which wraps
      modulo 2^32 in a release build, and the microseconds as parsed. */
  function Assemble(f: Fields): (t: WallClockTime)
    ensures t.micros == f.micros
    ensures (t.seconds - (f.hours * 3600 + f.minutes * 60 + f.seconds)) % U32_LIMIT == 0
    ensures f.hours * 3600 + f.minutes * 60 + f.seconds < U32_LIMIT ==>
      t.seconds == f.hours * 3600 + f.minutes * 60 + f.seconds
    ensures f.hours < 24 && f.minutes < 60 && f.seconds < 60 && f.micros < MICROS_PER_SECOND ==>
      Valid(t) && t == NewWithMicros(f.hours, f.minutes, f.seconds, f.micros)
  {
    WallClockTime(WrapU32(f.hours * 3600 + f.minutes * 60 + f.seconds), f.micros)
  }

  /** `from_str` as written: no range check, so text such as `99:99:99`
      yields a value outside the day. */
  function Parse(s: string): (r: Result<WallClockTime, ParseError>)
    ensures r.Err? ==> r.error != OutOfRange
    ensures r.Ok? ==> multiset(s)['.'] <= 1 && multiset(s)[':'] == 2
    ensures r.Ok? && '.' !in s ==> r.value.micros == 0
  {
    ParseFieldsSeparators(s);
    match ParseFields(s)
    case Err(e) => Err(e)
    case Ok(f) => Ok(Assemble(f))
  }

  /** When every piece is a `u32` numeral, parsing their text yields exactly
      the numbers the pieces denote, and no fraction means no microseconds. */
  lemma ParseFieldsOfText(hh: string, mm: string, ss: string, fraction: Option<string>, f: Fields)
    requires ParseU32(hh) == Some(f.hours) && ParseU32(mm) == Some(f.minutes)
    requires ParseU32(ss) == Some(f.seconds)
    requires if fraction.Some? then ParseU32(fraction.value) == Some(f.micros) else f.micros == 0
    ensures ParseFields(Text(hh, mm, ss, fraction)) == Ok(f)
  {
    var hms := hh + ":" + mm + ":" + ss;
    JoinThree(hh, mm, ss, ':');
    SplitJoin([hh, mm, ss], ':');
    assert '.' !in hms;
    if fraction.Some? {
      JoinTwo(hms, fraction.value, '.');
      SplitJoin([hms, fraction.value], '.');
    } else {
      SplitJoin([hms], '.');
    }
  }

  /** With three `:`-separated parts and a good fraction, the first part that
      is not a `u32` numeral names the error. */
  lemma ParseFieldErrors(hh: string, mm: string, ss: string, fraction: Option<string>)
    requires ':' !in hh && ':' !in mm && ':' !in ss
    requires '.' !in hh && '.' !in mm && '.' !in ss
    requires fraction.Some? ==> ParseU32(fraction.value).Some?
    ensures var r := ParseFields(Text(hh, mm, ss, fraction));
      && (ParseU32(hh).None? ==> r == Err(InvalidHours))
      && (ParseU32(hh).Some? && ParseU32(mm).None? ==> r == Err(InvalidMinutes))
      && (ParseU32(hh).Some? && ParseU32(mm).Some? && ParseU32(ss).None? ==> r == Err(InvalidSeconds))
  {
    var hms := hh + ":" + mm + ":" + ss;
    JoinThree(hh, mm, ss, ':');
    SplitJoin([hh, mm, ss], ':');
    if fraction.Some? {
      JoinTwo(hms, fraction.value, '.');
      SplitJoin([hms, fraction.value], '.');
    } else {
      SplitJoin([hms], '.');
    }
  }

  /** A fraction that is not a `u32` numeral is reported as invalid
      microseconds, whatever comes before the `.`. */
  lemma ParseBadMicroseconds(hms: string, fraction: string)
    requires '.' !in hms && '.' !in fraction && ParseU32(fraction).None?
    ensures Parse(hms + "." + fraction) == Err(InvalidMicroseconds)
  {
    JoinTwo(hms, fraction, '.');
    SplitJoin([hms, fraction], '.');
  }

  /** Parsing undoes formatting for every valid value. */
  lemma ParseFormat(t: WallClockTime)
    requires Valid(t)
    ensures Parse(Format(t)) == Ok(t)
  {
    ParseFieldsFormat(t);
    AccessorsRecover(t);
    assert Assemble(Fields(Hour(t), Minute(t), Second(t), t.micros)) == t;
  }

  /** The fields read from the text of a valid value are its accessors. */
  lemma ParseFieldsFormat(t: WallClockTime)
    requires Valid(t)
    ensures ParseFields(Format(t)) == Ok(Fields(Hour(t), Minute(t), Second(t), t.micros))
  {
    ParseNumerals(Hour(t), Minute(t), Second(t), t.micros);
  }

  /** Parsing the text written from four numbers gives those numbers back. */
  lemma ParseNumerals(h: u32, m: u32, sec: u32, u: u32)
    ensures ParseFields(Text(ZeroPadded(h, 2), ZeroPadded(m, 2), ZeroPadded(sec, 2),
                             if u > 0 then Some(ZeroPadded(u, 6)) else None))
         == Ok(Fields(h, m, sec, u))
  {
    ParseZeroPadded(h, 2);
    ParseZeroPadded(m, 2);
    ParseZeroPadded(sec, 2);
    ParseZeroPadded(u, 6);
    ParseFieldsOfText(ZeroPadded(h, 2), ZeroPadded(m, 2), ZeroPadded(sec, 2),
                      if u > 0 then Some(ZeroPadded(u, 6)) else None, Fields(h, m, sec, u));
  }

  /** `from_str` with the range check the constructors apply: it accepts only
      what `Parse` accepts, gives the same value when it does, and every
      value it yields is valid. */
  function ParseChecked(s: string): (r: Result<WallClockTime, ParseError>)
    ensures r.Ok? ==> Valid(r.value) && Parse(s) == r
    ensures Parse(s).Err? ==> r == Parse(s)
    ensures Parse(s).Ok? && r.Err? ==> r == Err(OutOfRange)
    ensures ParseFields(s).Ok? ==> (r.Ok? <==> InRange(ParseFields(s).value))
    ensures r.Ok? ==> var f := ParseFields(s).value;
      InRange(f) && r.value == NewWithMicros(f.hours, f.minutes, f.seconds, f.micros)
  {
    match ParseFields(s)
    case Err(e) => Err(e)
    case Ok(f) =>
      if InRange(f) then Ok(NewWithMicros(f.hours, f.minutes, f.seconds, f.micros))
      else Err(OutOfRange)
  }

  /** The bounds `new_with_micros` checks, applied to parsed fields. */
  predicate InRange(f: Fields) {
    f.hours < 24 && f.minutes < 60 && f.seconds < 60 && f.micros < MICROS_PER_SECOND
  }

  /** The range-checked parser still reads back every text `Display` writes. */
  lemma ParseCheckedFormat(t: WallClockTime)
    requires Valid(t)
    ensures ParseChecked(Format(t)) == Ok(t)
  {
    ParseFieldsFormat(t);
    AccessorsRecover(t);
    assert InRange(Fields(Hour(t), Minute(t), Second(t), t.micros));
    assert NewWithMicros(Hour(t), Minute(t), Second(t), t.micros) == t;
  }
}
