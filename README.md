# wall-clock in Dafny

A model of the `wall-clock` Rust crate. The crate has one value type,
`WallClockTime`: a time of day as read off a wall clock, with no date and no
time zone. The value is stored as whole seconds since midnight plus
microseconds past that second, both `u32`. The model covers:

- the three checked constructors;
- the four accessors;
- the derived equality, order and default;
- the `Display`/`Debug` text `HH:MM:SS[.FFFFFF]`;
- the `FromStr` parser;
- the arithmetic the PostgreSQL adapter uses to turn a value into a `TIME`
  offset in microseconds and back.

Modules:

- `RustInt` writes out Rust's fixed-width integers and the casts and
  operators the crate relies on: `as u8`, `as u32`, wrapping `u32`
  arithmetic, and `/` and `%` on `i64`, which truncate toward zero.
- `Wrappers` defines `Option` and `Result`.
- `Decimal` covers decimal numerals. It models `Display` of an unsigned
  integer, zero padding with `{:02}` and `{:06}`, and `u32::from_str`,
  which accepts an optional `+` and rejects empty text, a `-` sign and
  values of 2^32 or more.
- `Strings` models `str::split(char)` and its inverse, joining.
- `WallClock` models the value type in `src/lib.rs`.
- `Db` models the arithmetic of `to_sql` and `from_sql` in `src/db.rs`.
- `Tests` holds concrete examples as lemmas: the crate's unit tests, the
  order of a few values, texts the parser rejects, inputs that show where
  the parser and the adapter leave the day, and offsets the adapter stores.

A constructor's `assert!` is a panic, not an error value, so it is modelled
as a `requires` clause. The parser's errors are the values of `ParseError`.
`Message` gives the exact string the crate returns for each of them, except
`OutOfRange`: the crate has no such error, and it and its message belong only
to the range-checked parser `ParseChecked` listed under Findings.

The constructors keep every value within the day, but two other paths do
not: `from_str` builds its value without the
constructors' range checks, and `from_sql` decodes any offset it is given.
The model follows the code. `Parse` is the parser as written.
`ParseChecked` is the parser with the range check, listed under Findings.

## Model

| member | source | states |
|---|---|---|
| RustInt.AsU8 | src/lib.rs:87-89 | `as u8` keeps the value when it fits in eight bits, and otherwise agrees with it modulo 256 |
| RustInt.WrapU32 | src/db.rs:25 | `as u32` keeps a value in [0, 2^32) unchanged, and otherwise agrees with it modulo 2^32; the same function models release-build `u32` arithmetic, whose use at src/lib.rs:143 is the `WallClock.Assemble` row |
| RustInt.TruncDiv | src/db.rs:25 | signed `/` by a positive divisor rounds toward zero: the remainder lies in [0, b) for a non-negative dividend and in (-b, 0] for a negative one |
| RustInt.TruncRem | src/db.rs:25 | signed `%`: dividend = quotient * divisor + remainder, and the remainder takes the dividend's sign |
| Decimal.Digits | src/lib.rs:115 | `Display` of an unsigned integer is a non-empty string of digits that denotes the number, with no leading zero unless the number is 0 |
| Decimal.ZeroPadded | src/lib.rs:115-117 | `{:0w}` is a numeral for the number at least `w` long, exactly `w` long when the number has at most `w` digits, and the plain `Display` of the number when that is longer than `w` |
| Decimal.ParseU32 | src/lib.rs:132 | `u32::from_str` succeeds exactly on an optional `+` followed by at least one digit, denoting a value below 2^32, and then yields that value; so empty text, a lone `+`, a `-` sign, any other character and values of 2^32 or more are rejected |
| Decimal.ParseZeroPadded | src/lib.rs:140-142 | every zero-padded numeral of a `u32` parses back to that `u32` |
| Strings.Split | src/lib.rs:127 | `split(c)` gives at least one piece; no piece contains `c`; joining the pieces with `c` gives back the input |
| Strings.SplitCount | src/lib.rs:127-128 | there is one piece more than there are separators |
| Strings.SplitJoin | src/lib.rs:136 | splitting pieces that were joined with `c`, when none of them contains `c`, gives back those pieces |
| WallClock.Hour | src/lib.rs:87-89 | within the day, the hour is below 24 and is the whole number of hours in the stored seconds; everywhere it agrees with that number modulo 256 |
| WallClock.Minute | src/lib.rs:92-94 | the minute is below 60 and is the whole number of minutes past the hour |
| WallClock.Second | src/lib.rs:97-99 | the second is below 60 and differs from the stored seconds by whole minutes |
| WallClock.Microsecond | src/lib.rs:102-104 | for a valid value the microseconds are below one second |
| WallClock.NewWithMicros | src/lib.rs:65-71 | with all four bounds met, the value is valid and the accessors give back the arguments |
| WallClock.New | src/lib.rs:55-57 | with the bounds met, the value is valid, the accessors give back the arguments, and the microseconds are 0 |
| WallClock.NewMidnightOffset | src/lib.rs:80-84 | with the bounds met, the value is valid and stores both arguments unchanged |
| WallClock.ValidExactlyConstructed | src/lib.rs:65-84 | `Valid`, the invariant the constructors establish, holds exactly when the microseconds are below one second, the hour is below 24 and the value is what `new_with_micros` builds from its own accessors |
| WallClock.NewWithMicrosIsMidnightOffset | src/lib.rs:65-84 | the clock-field constructor gives the midnight-offset value for h*3600+m*60+s seconds, and that offset is within the day |
| WallClock.AccessorsRecover | src/lib.rs:86-104 | for every valid value, hour*3600+minute*60+second is the stored seconds, and rebuilding from the accessors gives the same value |
| WallClock.Cmp | src/lib.rs:38-46 | the derived order is `Equal` exactly on equal values and `Less` exactly when the seconds are smaller, or equal with smaller microseconds; for microseconds below one second, `Less` holds exactly when the instant is earlier |
| WallClock.CmpIsTotalOrder | src/lib.rs:38 | the derived order flips when its arguments swap, and `<=` and `<` are transitive |
| WallClock.Default | src/lib.rs:38 | the derived default is valid, midnight with zero microseconds, and no value is less than it |
| WallClock.Format | src/lib.rs:113-121 | `Display` writes a `.` exactly when there are microseconds and always exactly two `:`; for a valid value the text is 8 characters, or 15 with microseconds |
| WallClock.FormatLayout | src/lib.rs:115-118 | for a valid value, characters 0-1, 3-4 and 6-7 are the hour, minute and second, and after the `.` six digits are the microseconds |
| WallClock.DebugFormat | src/lib.rs:107-111 | `Debug` writes exactly what `Display` writes |
| WallClock.MessageDistinct | src/lib.rs:129-142 | `Message` gives every parse error, the six the crate can report and the range-checked parser's `OutOfRange`, its own string: two errors have the same message exactly when they are the same error |
| WallClock.SplitFraction | src/lib.rs:127-134 | the first stage fails only with the too-many-`.` or invalid-microseconds error |
| WallClock.ParseClock | src/lib.rs:136-142 | the second stage fails only with the invalid-`HH:MM:SS` error or a field-specific error |
| WallClock.SplitFractionTooMany | src/lib.rs:127-130 | "Only one `.` allowed" is reported exactly when the text holds more than one `.` |
| WallClock.SplitFractionHead | src/lib.rs:127-135 | the text passed on holds no `.` and every `:` of the input; with no `.` it is the whole input and the microseconds are 0 |
| WallClock.ParseClockSeparators | src/lib.rs:136-139 | a text without exactly two `:` is "Invalid HH:MM:SS", and every accepted text has exactly two |
| WallClock.ParseFieldsSeparators | src/lib.rs:126-142 | the too-many-`.` error occurs exactly when there are two or more `.`; an accepted text has at most one `.` and exactly two `:`; with no `.` the microseconds are 0; with no `.` and not exactly two `:` the error is "Invalid HH:MM:SS" |
| WallClock.ParseFields | src/lib.rs:126-142 | reading the fields never reports out of range: that error belongs to the range check alone |
| WallClock.ParseBadMicroseconds | src/lib.rs:127-132 | a text with exactly one `.` whose fraction is not a `u32` numeral is rejected with "Invalid microseconds", whatever precedes the `.` |
| WallClock.ParseFieldsOfText | src/lib.rs:126-142 | when every piece of `HH:MM:SS[.F]` is a `u32` numeral, parsing yields exactly the numbers the pieces denote, and 0 microseconds without a fraction |
| WallClock.ParseFieldErrors | src/lib.rs:140-142 | among three pieces with a good fraction, the first that is not a `u32` numeral names the error: "Invalid HH", "Invalid MM" or "Invalid SS" |
| WallClock.Assemble | src/lib.rs:143 | the value holds the parsed microseconds and h*3600+m*60+s seconds modulo 2^32, exactly so when the sum fits; with the fields in range it is valid and equals `new_with_micros` of them |
| WallClock.ParseNumerals | src/lib.rs:113-142 | parsing the text written from four numbers gives those numbers back |
| WallClock.Parse | src/lib.rs:126-144 | `from_str` never reports out of range; an accepted text has at most one `.` and exactly two `:`; without a `.` the microseconds are 0 |
| WallClock.ParseFieldsFormat | src/lib.rs:113-142 | the fields read from the `Display` text of a valid value are its hour, minute, second and microseconds |
| WallClock.ParseFormat | src/lib.rs:113-145 | for every valid value, parsing its `Display` text gives back the value |
| WallClock.ParseChecked | src/lib.rs:143 | the range-checked parser fails with `from_str`'s error whenever the fields cannot be read; once they are read, it succeeds exactly when hours < 24, minutes and seconds < 60 and microseconds < 10^6, and then yields `new_with_micros` of them, a valid value equal to what `from_str` gives; otherwise it reports out of range |
| WallClock.ParseCheckedFormat | src/lib.rs:113-145 | the range-checked parser still reads back every `Display` text of a valid value |
| Db.Encode | src/db.rs:17 | the offset is non-negative and fits in `i64`; a valid value's offset is below one day of microseconds; its quotient by 10^6 is the seconds plus the whole seconds held in the microseconds, and its remainder is the microseconds modulo 10^6, so with microseconds below one second these are exactly the two fields |
| Db.Decode | src/db.rs:25 | for a non-negative offset, the microseconds are the remainder by 10^6 and, while it fits in `u32`, the seconds are the quotient; an offset within the day decodes to a valid value |
| Db.DecodeEncode | src/db.rs:17-25 | decoding an encoded value gives it back, whenever its microseconds are below one second |
| Db.EncodeDecode | src/db.rs:17-25 | encoding a decoded offset gives it back, for every non-negative offset whose seconds fit in `u32` |
| Db.EncodeOrder | src/db.rs:17 | for values whose microseconds are below one second, the offset orders them as the derived `Ord` does, and equal offsets mean equal values |
| Db.DecodeValid | src/db.rs:25 | among non-negative offsets whose seconds fit in `u32`, exactly those below one day decode to a valid value |
| Db.DecodeNegative | src/db.rs:25 | a negative offset above -(2^32 - 86400) seconds decodes to a value outside the day |
| Db.DecodeEndOfDay | src/db.rs:25 | the offset of `24:00:00` decodes to 86400 seconds, which is not valid and whose hour reads 24 |
| Tests.AccessorExamples | src/lib.rs:175-198 | the accessor results the unit tests check |
| Tests.HourOutsideDay | src/lib.rs:87-89 | outside the day the hour is cut to eight bits: 2^32-1 seconds read as hour 0x56, and 86400 seconds as hour 24 |
| Tests.OrderExamples | src/lib.rs:38 | 09:00:00 < 09:00:01 < 10:00:00; a value with microseconds follows the same second without them; the default equals 00:00:00 |
| Tests.FormatSixteen | src/lib.rs:202-203 | `16:00:00` under both `Display` and `Debug` |
| Tests.FormatQuarterPast | src/lib.rs:204 | `17:15:30` |
| Tests.FormatWithMicros | src/lib.rs:205 | `17:15:30.600000` |
| Tests.ParseExamples | src/lib.rs:209-217 | the three texts the unit test parses give the expected values |
| Tests.ParseTooManyDots | src/lib.rs:127-130 | `1.2.3` is rejected with the too-many-`.` error |
| Tests.ParseTooFewColons | src/lib.rs:136-139 | `9:30` is rejected as an invalid `HH:MM:SS` |
| Tests.ParseBadHours | src/lib.rs:140 | `ab:30:00` is rejected with "Invalid HH" |
| Tests.ParseBadFraction | src/lib.rs:131-132 | `12:00:00.5x` is rejected with "Invalid microseconds" |
| Tests.ParseAcceptsOutOfRange | src/lib.rs:143 | `from_str` accepts `99:99:99` as 362439 seconds, which is not valid and whose hour reads 100; the range-checked parser rejects it |
| Tests.ParseMicrosOverflow | src/lib.rs:131-143 | `00:00:00.1000000` parses to a value holding 10^6 microseconds, which is not valid; the range-checked parser rejects it |
| Tests.OrderOffsetDisagree | src/lib.rs:38 | with 2*10^6 microseconds, 00:00:00 orders before 00:00:01 under the derived `Ord` while its stored offset is the larger |
| Tests.DbMicrosOverflow | src/db.rs:17-25 | a value holding 10^6 microseconds is stored as one second and read back as 00:00:01 |
| Tests.ParseWrapsHours | src/lib.rs:143 | with wrapping `u32` arithmetic, `1193047:00:00` parses to the valid time 00:31:44; the range-checked parser rejects it |
| Tests.DbMidnight | src/db.rs:17-25 | midnight is stored as offset 0 and read back unchanged |
| Tests.DbNoon | src/db.rs:17-25 | noon is stored as 43200000000 and read back unchanged |
| Tests.DbLastMicrosecond | src/db.rs:17-25 | 23:59:59.999999 is stored as 86399999999 and read back unchanged |

## Left out

- src/serde.rs is not part of this model. It writes `to_string` and reads back through `from_str`, which `Format` and `Parse` model; the serde framework itself is foreign code.
- The Diesel calls in src/db.rs are not modelled: the binary encoding of `PgTime`, the output buffer, `PgValue` decoding and the errors they propagate. `Encode` and `Decode` model only the arithmetic around them, and `Decode` takes any `i64` the backend might deliver.
- The `time!` macro (src/lib.rs:159-166) is compile-time syntax that only calls `new`. `New` models that call.
- `Display` and `Debug` write into a `fmt::Formatter`. `Format` returns the text instead, and the errors the writer could report are not modelled.
- `Clone`, `Copy` and `PartialOrd` are derived. A Dafny datatype is a value, and `PartialOrd` agrees with `Cmp`.
- WallClock.Assemble: follows a release build, where `hours * 3600 + minutes * 60 + seconds` wraps modulo 2^32. A debug build panics on that overflow instead.
- The "Empty string" error of `from_str` (src/lib.rs:135) cannot occur, because `Split` always yields at least one piece, so the model has no such branch. `ParseError` has no such case for the same reason.
- `from_str` returns a `&'static str`. The model returns a `ParseError`, and `Message` maps each error the crate can report to the crate's exact string; `OutOfRange` and its message exist only for `ParseChecked`.
- Rust strings are UTF-8 bytes. The model works on `seq<char>`, where a character is one element. A numeral's digits are ASCII either way, so parsing and formatting are unaffected.
- A panic in a constructor is modelled as a precondition. The model does not show what the panic message says.

## Findings

| source | as written | input that shows it | evidently intended | confidence | as-written member | corrected member |
|---|---|---|---|---|---|---|
| src/lib.rs:143 | `from_str` builds the value from the parsed fields with none of the constructors' range checks, using wrapping `u32` arithmetic | `99:99:99` gives 362439 seconds, with hour 100. `1193047:00:00` wraps to 00:31:44. `00:00:00.1000000` gives 10^6 microseconds | reject hours of 24 or more, minutes or seconds of 60 or more, and microseconds of 10^6 or more, as `new_with_micros` does, so that every parsed value is within the day | medium, not executed | Tests.ParseAcceptsOutOfRange | WallClock.ParseChecked |
