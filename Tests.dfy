/** Concrete examples: the crate's own unit tests, the order of a few values,
    texts the parser rejects, inputs that show how `from_str`, the accessors
    and the adapter treat text and values outside the day, and the offsets
    the adapter stores for midnight, noon and the last microsecond. */
module Tests {
  import opened RustInt
  import opened Wrappers
  import opened Decimal
  import opened Strings
  import opened WallClock
  import opened Db

  lemma AccessorExamples()
    ensures Hour(New(9, 30, 0)) == 9 && Hour(New(16, 0, 0)) == 16 && Hour(New(17, 15, 30)) == 17
    ensures Minute(New(9, 30, 0)) == 30 && Minute(New(16, 0, 0)) == 0 && Minute(New(17, 15, 30)) == 15
    ensures Second(New(16, 0, 0)) == 0 && Second(New(17, 15, 30)) == 30
    ensures Microsecond(NewWithMicros(9, 30, 0, 0)) == 0
    ensures Microsecond(NewWithMicros(17, 15, 30, 600_000)) == 600_000
  {
  }

  /** Outside the day the hour is the quotient cut to its low eight bits:
      the largest `u32` of seconds is hour 1193046 (0x123456), read as 0x56. */
  lemma HourOutsideDay()
    ensures Hour(WallClockTime(U32_LIMIT - 1, 0)) == 0x56
    ensures Hour(WallClockTime(SECONDS_PER_DAY, 0)) == 24
  {
    assert (U32_LIMIT - 1) / 3600 == 0x12_3456;
  }

  /** Later times compare greater, seconds first and then microseconds. */
  lemma OrderExamples()
    ensures Cmp(New(9, 0, 0), New(9, 0, 1)) == Less
    ensures Cmp(New(9, 0, 1), New(10, 0, 0)) == Less
    ensures Cmp(NewWithMicros(9, 0, 0, 1), New(9, 0, 0)) == Greater
    ensures Cmp(Default(), New(0, 0, 0)) == Equal
  {
  }

  /** The text of a valid value, from the numerals of its fields. */
  lemma FormatFields(t: WallClockTime, hh: string, mm: string, ss: string, fraction: Option<string>)
    requires Valid(t)
    requires Fixed(Hour(t), 2) == hh && Fixed(Minute(t), 2) == mm && Fixed(Second(t), 2) == ss
    requires fraction == if t.micros > 0 then Some(Fixed(t.micros, 6)) else None
    ensures Format(t) == Text(hh, mm, ss, fraction)
  {
    assert Pow10(2) == 100 && Pow10(6) == 1_000_000;
    ZeroPaddedFixed(Hour(t), 2);
    ZeroPaddedFixed(Minute(t), 2);
    ZeroPaddedFixed(Second(t), 2);
    ZeroPaddedFixed(t.micros, 6);
  }

  lemma TwoDigits()
    ensures Fixed(0, 2) == "00" && Fixed(16, 2) == "16" && Fixed(17, 2) == "17"
    ensures Fixed(15, 2) == "15" && Fixed(30, 2) == "30"
  {
  }

  lemma SixDigits()
    ensures Fixed(600_000, 6) == "600000"
  {
    assert Fixed(6, 1) == "6";
    assert Fixed(60, 2) == "60";
    assert Fixed(600, 3) == "600";
    assert Fixed(6_000, 4) == "6000";
    assert Fixed(60_000, 5) == "60000";
  }

  lemma Texts()
    ensures Text("16", "00", "00", None) == "16:00:00"
    ensures Text("17", "15", "30", None) == "17:15:30"
  {
  }

  lemma TextWithFraction()
    ensures Text("17", "15", "30", Some("600000")) == "17:15:30.600000"
  {
  }

  lemma FormatSixteen()
    ensures Format(New(16, 0, 0)) == "16:00:00"
    ensures DebugFormat(New(16, 0, 0)) == "16:00:00"
  {
    TwoDigits();
    Texts();
    FormatFields(New(16, 0, 0), "16", "00", "00", None);
  }

  lemma FormatQuarterPast()
    ensures Format(New(17, 15, 30)) == "17:15:30"
  {
    TwoDigits();
    Texts();
    FormatFields(New(17, 15, 30), "17", "15", "30", None);
  }

  lemma FormatWithMicros()
    ensures Format(NewWithMicros(17, 15, 30, 600_000)) == "17:15:30.600000"
  {
    TwoDigits();
    SixDigits();
    TextWithFraction();
    FormatFields(NewWithMicros(17, 15, 30, 600_000), "17", "15", "30", Some("600000"));
  }

  lemma ParseTestDigits()
    ensures Fixed(9, 2) == "09" && Fixed(18, 2) == "18" && Fixed(1, 2) == "01"
  {
  }

  lemma FractionDigits()
    ensures Fixed(345_678, 6) == "345678"
  {
    assert Fixed(3, 1) == "3";
    assert Fixed(34, 2) == "34";
    assert Fixed(345, 3) == "345";
    assert Fixed(3_456, 4) == "3456";
    assert Fixed(34_567, 5) == "34567";
  }

  lemma ParseTestTexts()
    ensures Text("09", "30", "00", None) == "09:30:00"
    ensures Text("18", "30", "01", Some("345678")) == "18:30:01.345678"
  {
  }

  lemma ParseExamples()
    ensures Parse("09:30:00") == Ok(New(9, 30, 0))
    ensures Parse("17:15:30") == Ok(New(17, 15, 30))
    ensures Parse("18:30:01.345678") == Ok(NewWithMicros(18, 30, 1, 345_678))
  {
    ParseNineThirty();
    ParseQuarterPast();
    ParseWithMicros();
  }

  lemma ParseNineThirty()
    ensures Parse("09:30:00") == Ok(New(9, 30, 0))
  {
    TwoDigits();
    ParseTestDigits();
    ParseTestTexts();
    FormatFields(New(9, 30, 0), "09", "30", "00", None);
    ParseDisplayed(New(9, 30, 0), "09:30:00");
  }

  lemma ParseQuarterPast()
    ensures Parse("17:15:30") == Ok(New(17, 15, 30))
  {
    FormatQuarterPast();
    ParseDisplayed(New(17, 15, 30), "17:15:30");
  }

  lemma ParseWithMicros()
    ensures Parse("18:30:01.345678") == Ok(NewWithMicros(18, 30, 1, 345_678))
  {
    TwoDigits();
    ParseTestDigits();
    FractionDigits();
    ParseTestTexts();
    FormatFields(NewWithMicros(18, 30, 1, 345_678), "18", "30", "01", Some("345678"));
    ParseDisplayed(NewWithMicros(18, 30, 1, 345_678), "18:30:01.345678");
  }

  /** A text that `Display` writes for a valid value parses back to it. */
  lemma ParseDisplayed(t: WallClockTime, s: string)
    requires Valid(t) && Format(t) == s
    ensures Parse(s) == Ok(t)
  {
    ParseFormat(t);
  }

  lemma ParseTooManyDots()
    ensures Parse("1.2.3") == Err(TooManySeparators)
  {
    DotCount();
    ParseFieldsSeparators("1.2.3");
  }

  lemma DotCount()
    ensures multiset("1.2.3")['.'] == 2
  {
  }

  lemma ParseTooFewColons()
    ensures Parse("9:30") == Err(InvalidHms)
  {
    ColonCount();
    ParseFieldsSeparators("9:30");
  }

  lemma ColonCount()
    ensures '.' !in "9:30" && multiset("9:30")[':'] == 1
  {
  }

  lemma ParseBadHours()
    ensures Parse("ab:30:00") == Err(InvalidHours)
  {
    BadHoursPieces();
    ParseFieldErrors("ab", "30", "00", None);
  }

  lemma BadHoursPieces()
    ensures Text("ab", "30", "00", None) == "ab:30:00" && ParseU32("ab") == None
  {
  }

  lemma ParseBadFraction()
    ensures Parse("12:00:00.5x") == Err(InvalidMicroseconds)
  {
    BadFractionPieces();
    ParseBadMicroseconds("12:00:00", "5x");
  }

  lemma BadFractionPieces()
    ensures "12:00:00" + "." + "5x" == "12:00:00.5x"
    ensures '.' !in "12:00:00" && ParseU32("5x") == None
  {
  }

  /** `from_str` as written does not check the ranges the constructors
      check: `99:99:99` yields 362439 seconds, a value outside the day whose
      hour reads 100. The range-checked parser rejects it. */
  lemma ParseAcceptsOutOfRange()
    ensures Parse("99:99:99") == Ok(WallClockTime(362_439, 0))
    ensures !Valid(WallClockTime(362_439, 0)) && Hour(WallClockTime(362_439, 0)) == 100
    ensures ParseChecked("99:99:99") == Err(OutOfRange)
  {
    OutOfRangePieces();
    ParseFieldsOfText("99", "99", "99", None, Fields(99, 99, 99, 0));
  }

  lemma OutOfRangePieces()
    ensures Text("99", "99", "99", None) == "99:99:99" && ParseU32("99") == Some(99)
  {
  }

  /** The fraction is read as a `u32` with no bound: seven digits give a
      microseconds field of a whole second, which is not valid. The
      range-checked parser rejects it. */
  lemma ParseMicrosOverflow()
    ensures Parse("00:00:00.1000000") == Ok(WallClockTime(0, 1_000_000))
    ensures !Valid(WallClockTime(0, 1_000_000))
    ensures ParseChecked("00:00:00.1000000") == Err(OutOfRange)
  {
    SevenDigits();
    WrapText();
    MicrosOverflowText();
    ParseFieldsOfText("00", "00", "00", Some("1000000"), Fields(0, 0, 0, 1_000_000));
  }

  /** Outside one second of microseconds the derived order and the stored
      offset disagree: the derived order compares the seconds first. */
  lemma OrderOffsetDisagree()
    ensures Cmp(WallClockTime(0, 2_000_000), WallClockTime(1, 0)) == Less
    ensures Encode(WallClockTime(0, 2_000_000)) > Encode(WallClockTime(1, 0))
  {
  }

  /** Stored in the database, such a value carries the extra second into the
      seconds and reads back as a different time. */
  lemma DbMicrosOverflow()
    ensures Decode(Encode(WallClockTime(0, 1_000_000))) == New(0, 0, 1)
  {
    assert Encode(WallClockTime(0, 1_000_000)) == 1_000_000;
  }

  lemma MicrosOverflowText()
    ensures Text("00", "00", "00", Some("1000000")) == "00:00:00.1000000"
  {
  }

  lemma SevenDigits()
    ensures ParseU32("1000000") == Some(1_000_000)
  {
    assert Value("100") == 100;
    assert "1000"[..3] == "100";
    assert Value("1000") == 1_000;
    assert "10000"[..4] == "1000";
    assert Value("10000") == 10_000;
    assert "100000"[..5] == "10000";
    assert Value("100000") == 100_000;
    assert "1000000"[..6] == "100000";
    assert Value("1000000") == 1_000_000;
  }

  /** With wrapping `u32` arithmetic an hour field of 1193047 gives
      1193047 * 3600 = 2^32 + 1904 seconds, which wraps to 1904: the text
      parses to the valid time 00:31:44. The range-checked parser rejects it. */
  lemma ParseWrapsHours()
    ensures Parse("1193047:00:00") == Ok(New(0, 31, 44))
    ensures ParseChecked("1193047:00:00") == Err(OutOfRange)
  {
    WrapText();
    LongNumeral();
    WrapArithmetic();
    ParseClockText("1193047:00:00", "1193047", "00", "00", Fields(1_193_047, 0, 0, 0));
  }

  /** A text `HH:MM:SS` of `u32` numerals parses to the fields they denote. */
  lemma ParseClockText(s: string, hh: string, mm: string, ss: string, f: Fields)
    requires s == Text(hh, mm, ss, None) && f.micros == 0
    requires ParseU32(hh) == Some(f.hours) && ParseU32(mm) == Some(f.minutes)
    requires ParseU32(ss) == Some(f.seconds)
    ensures Parse(s) == Ok(Assemble(f))
    ensures f.hours >= 24 ==> ParseChecked(s) == Err(OutOfRange)
  {
    ParseFieldsOfText(hh, mm, ss, None, f);
  }

  lemma LongNumeral()
    ensures ParseU32("1193047") == Some(1_193_047)
  {
    assert Value("119") == 119;
    assert "1193"[..3] == "119";
    assert Value("1193") == 1_193;
    assert "11930"[..4] == "1193";
    assert Value("11930") == 11_930;
    assert "119304"[..5] == "11930";
    assert Value("119304") == 119_304;
    assert "1193047"[..6] == "119304";
    assert Value("1193047") == 1_193_047;
  }

  lemma WrapText()
    ensures Text("1193047", "00", "00", None) == "1193047:00:00"
    ensures ParseU32("00") == Some(0)
  {
  }

  lemma WrapArithmetic()
    ensures Assemble(Fields(1_193_047, 0, 0, 0)) == WallClockTime(1_904, 0) == New(0, 31, 44)
  {
  }

  /** The stored offsets of midnight, noon and the last microsecond of the
      day, and the values read back from them. */
  lemma DbMidnight()
    ensures Encode(Default()) == 0 && Decode(Encode(Default())) == Default()
  {
    DecodeEncode(Default());
  }

  lemma DbNoon()
    ensures Encode(New(12, 0, 0)) == 43_200_000_000 && Decode(Encode(New(12, 0, 0))) == New(12, 0, 0)
  {
    assert New(12, 0, 0) == WallClockTime(43_200, 0);
    DecodeEncode(New(12, 0, 0));
  }

  lemma DbLastMicrosecond()
    ensures Encode(NewMidnightOffset(86_399, 999_999)) == 86_399_999_999
    ensures Decode(Encode(NewMidnightOffset(86_399, 999_999))) == NewMidnightOffset(86_399, 999_999)
  {
    DecodeEncode(NewMidnightOffset(86_399, 999_999));
  }
}
