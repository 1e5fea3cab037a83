# UnixTimestamp in Dafny

A Dafny model of `Timestamp`, the one type of the UnixTimestamp.NetStandard library. A
`Timestamp` holds one immutable UTC instant. It is built from a `DateTime` of Local or Utc
kind, or from a `DateTime` and an explicit `TimeZoneInfo`. It is parsed from a count of
seconds since 1970-01-01T00:00:00Z, or of 10^-d seconds for `d` digits after the seconds,
given as a `long` or as text. It is written back out as such a count or its decimal text.
It compares equal to another timestamp of the same instant.

The model is pure. The source's `Timestamp` is a class, but its only property is assigned
once in a constructor and never changes, so it becomes a datatype holding the ticks of
`UtcTime`. Every method that can throw is a function that returns a `Result`: either the
value, or the exception the C# code throws. `ToString()` and the two properties cannot
throw, so they return their value directly. A `TryParse` returns `Option<Timestamp>`
inside that `Result`: `None` is `false` with a null result.

Files:

- `runtime.dfy` (module `Runtime`): the 64-bit and 32-bit integer ranges, `Option`/`Result`,
  the exceptions, exact powers of ten, and C#'s integer division. C# `/` on `long` truncates
  toward zero, so it is modelled by `TruncDiv`, not by Dafny's Euclidean `/`.
- `int64_text.dfy` (module `Int64Text`): `long.ToString(CultureInfo.InvariantCulture)` and
  `long.TryParse` under `NumberStyles.Integer`. That style allows white space before and
  after, an optional `+` or `-`, then decimal digits, and the value must fit in 64 bits.
- `date_time.dfy` (module `DateTimes`): `DateTime` as 100 ns ticks in
  `[DateTime.MinValue, DateTime.MaxValue]` with a `DateTimeKind`. It also holds
  `AddMilliseconds`, `TimeZoneInfo.ConvertTimeToUtc`, and the Gregorian calendar of
  `new DateTime(y, mo, d, h, mi, s, ms)`. A time zone is a `TimeZoneInfo` object: the
  `TimeZoneInfo.Utc` singleton, the `TimeZoneInfo.Local` object, or another object with an
  id. `ConvertTimeToUtc` tells a zone's kind by object identity. `TimeZoneInfo.Equals`
  compares ids, so on a host whose local zone's id is `UTC` the local object equals the UTC one.
  The local zone's conversion to UTC is one host function, which both `ToUniversalTime`
  and `ConvertTimeToUtc` apply. The host's local-zone id and time-zone rules are the
  fields of a `Host` value that the
  model never inspects.
- `timestamp.dfy` (module `UnixTimestamp`): the `Timestamp` type and all its operations,
  the round-trip and precision lemmas, and the equality findings.
- `scenarios.dfy` (module `TimestampScenarios`): the concrete dates, counts and texts of the
  repository's unit tests, and the parse bound at its edge.
- `int64_text_scenarios.dfy` (module `Int64TextScenarios`): concrete texts with and without
  a sign, with leading zeros, and with a misplaced sign or white space, and what
  `long.TryParse` makes of each.

Behaviour of the code worth knowing (the model follows the code):

- The two-argument constructor accepts a `DateTime` of Unspecified kind and reads it in the
  given zone. The unit test builds `new Timestamp(DateTime.MinValue, TimeZoneInfo.Utc)`,
  and `DateTime.MinValue` is of Unspecified kind. No check rejects "other" kinds there.
- `TryParse(long)` checks only the upper bound. Below `DateTime.MinValue`,
  `AddMilliseconds` throws `ArgumentOutOfRangeException`. The model gives that as a failure
  and lists it under Findings.
- Equality is not null-safe when the left operand is non-null and the right one is null. It
  throws. `Equals(object)` throws for every timestamp argument. Both are under Findings.

## Model

| member | source | states |
|---|---|---|
| `TimestampScenarios.EpochIsCalendarEpoch` | UnixTimestamp.NetStandard/Timestamp.cs:8 | `Epoch` is 1970-01-01T00:00:00 Utc by the calendar, and the parse bound of 253402300800000 ms after it is one millisecond past the last millisecond of 9999-12-31 |
| `UnixTimestamp.UtcTime` | UnixTimestamp.NetStandard/Timestamp.cs:10 | a Utc-kind `DateTime` of the timestamp's instant |
| `UnixTimestamp.LocalTime` | UnixTimestamp.NetStandard/Timestamp.cs:12 | a Local-kind `DateTime` holding the host's `ToLocalTime` of `UtcTime` |
| `UnixTimestamp.UtcTimeRoundTrip` | UnixTimestamp.NetStandard/Timestamp.cs:10-41 | building a timestamp from its own `UtcTime`, alone or with the UTC zone, gives the same timestamp back |
| `UnixTimestamp.NewTimestamp` | UnixTimestamp.NetStandard/Timestamp.cs:14-30 | fails with the Unspecified-kind ArgumentException exactly when the kind is Unspecified; a Utc-kind value is stored unchanged; a Local-kind one is stored as the host's UTC conversion |
| `UnixTimestamp.NewTimestampInZone` | UnixTimestamp.NetStandard/Timestamp.cs:32-41 | fails with the zone-mismatch ArgumentException exactly when the kind is Local and the zone does not equal `TimeZoneInfo.Local`, or the kind is Utc and the zone does not equal `TimeZoneInfo.Utc`; otherwise succeeds or fails exactly as `ConvertTimeToUtc` does, with its ticks or its exception; every failure is an ArgumentException; with the UTC zone a non-Local value keeps its ticks |
| `UnixTimestamp.KindNeedsItsOwnZone` | UnixTimestamp.NetStandard/Timestamp.cs:34-40 | on every host, a Utc-kind value succeeds only with the `TimeZoneInfo.Utc` object and a Local-kind one only with the `TimeZoneInfo.Local` object; a zone that equals the right one without being it passes the guard and then fails in `ConvertTimeToUtc` |
| `UnixTimestamp.KindContradictsZone` | UnixTimestamp.NetStandard/Timestamp.cs:34-35 | the guard fires exactly when the kind is Local or Utc and the zone's id differs from the id of that kind's own zone (`TimeZoneInfo.Equals`), never for Unspecified |
| `UnixTimestamp.LocalConstructorsAgree` | UnixTimestamp.NetStandard/Timestamp.cs:18-40 | a Local-kind value with `TimeZoneInfo.Local` fails exactly for a wall-clock time the local zone skips, with the invalid-time ArgumentException, and otherwise gives the same timestamp as the one-argument constructor |
| `UnixTimestamp.UtcConstructorsAgree` | UnixTimestamp.NetStandard/Timestamp.cs:14-41 | for a Utc-kind value both constructors succeed and give the same timestamp, whatever the host |
| `UnixTimestamp.UnspecifiedNeedsZone` | UnixTimestamp.NetStandard/Timestamp.cs:24-40 | an Unspecified-kind value is refused by the one-argument constructor but accepted, ticks unchanged, with the UTC zone |
| `DateTimes.ConvertTimeToUtc` | UnixTimestamp.NetStandard/Timestamp.cs:40 | throws the kind-mismatch ArgumentException exactly when the kind is Local or Utc and the zone object is not the one of that kind; with the UTC zone a Utc- or Unspecified-kind value keeps its ticks; with the local zone a Local- or Unspecified-kind value gets the local conversion `ToUniversalTime` uses, and fails exactly when the local zone skips that wall-clock time; any other failure is an invalid wall-clock time in a zone other than UTC |
| `UnixTimestamp.Now` | UnixTimestamp.NetStandard/Timestamp.cs:43-46 | succeeds exactly for up to 7 digits; its text is the invariant decimal text of the count of units from the epoch to the clock reading, truncated toward zero, and parses back to that count |
| `UnixTimestamp.TryParseLong` | UnixTimestamp.NetStandard/Timestamp.cs:71-84 | false with a null result exactly when value·10^(3-d) ≥ 253402300800000, which is exactly when the instant is past `DateTime.MaxValue`; throws exactly when it is before `DateTime.MinValue`; otherwise the timestamp is value·10^(7-d) ticks after the epoch |
| `UnixTimestamp.UnitTicks` | UnixTimestamp.NetStandard/Timestamp.cs:73-75 | a unit of 10^-d seconds is 10^(3-d) ms of 10^4 ticks, and the millisecond bound is `DateTime.MaxValue.Ticks + 1` |
| `DateTimes.AddMilliseconds` | UnixTimestamp.NetStandard/Timestamp.cs:81 | succeeds exactly when the result is within the `DateTime` range, then moves by ms·10^4 ticks and keeps the kind; otherwise ArgumentOutOfRangeException |
| `UnixTimestamp.TryParseString` | UnixTimestamp.NetStandard/Timestamp.cs:55-64 | text that `long.TryParse` refuses gives false and null; text it accepts gives exactly what the `long` overload gives for the parsed number, including its exceptions; a timestamp it gives is the parsed number of units after the epoch |
| `UnixTimestamp.TryParseStringOfText` | UnixTimestamp.NetStandard/Timestamp.cs:55-64 | parsing the decimal text of any `long` gives exactly what parsing the `long` gives |
| `UnixTimestamp.TryParseLongSeconds` | UnixTimestamp.NetStandard/Timestamp.cs:66-69 | gives exactly what the `long` overload gives at 0 digits; a timestamp it gives has a whole-second count equal to the value |
| `UnixTimestamp.TryParseStringSeconds` | UnixTimestamp.NetStandard/Timestamp.cs:50-53 | gives exactly what the text overload gives at 0 digits; a timestamp it gives has a whole-second count equal to the number in the text |
| `UnixTimestamp.ToValue` | UnixTimestamp.NetStandard/Timestamp.cs:123-127 | for up to 7 digits, the ticks since the epoch divided by 10^(7-d) with truncation toward zero (magnitude bounds and sign); more digits throw DivideByZeroException |
| `Runtime.TruncDiv` | UnixTimestamp.NetStandard/Timestamp.cs:126 | C# `long` division: the quotient's magnitude is the largest whose multiple does not exceed the dividend's, with the dividend's sign |
| `Runtime.TruncDivUnique` | UnixTimestamp.NetStandard/Timestamp.cs:126 | that characterisation determines the quotient uniquely |
| `Runtime.TruncDivNested` | UnixTimestamp.NetStandard/Timestamp.cs:126 | truncating by b then by c equals truncating by b·c |
| `UnixTimestamp.ParseThenValue` | UnixTimestamp.NetStandard/Timestamp.cs:125-126 | after a successful parse of v at 0 to 3 digits, `ToValue` at the same digits is v, for negative v as well |
| `UnixTimestamp.ValueThenParse` | UnixTimestamp.NetStandard/Timestamp.cs:73-81 | parsing `ToValue(d)` back always succeeds and gives the instant truncated toward the epoch, less than one unit away |
| `UnixTimestamp.ToValueMonotone` | UnixTimestamp.NetStandard/Timestamp.cs:123-127 | a later instant never gives a smaller count |
| `UnixTimestamp.ToValueDropDigit` | UnixTimestamp.NetStandard/Timestamp.cs:126 | the count at d digits is the count at d+1 digits truncated by ten |
| `UnixTimestamp.CalendarCounts` | UnixTimestamp.NetStandard/Timestamp.cs:123-127 | a Utc-kind calendar date from 1970 on gives the calendar's seconds since the epoch at 0 digits and those seconds times 1000 plus its milliseconds at 3 digits |
| `UnixTimestamp.ToStringWithDigits` | UnixTimestamp.NetStandard/Timestamp.cs:135-138 | succeeds exactly for up to 7 digits; the text is the invariant decimal text of `ToValue` (a `-` only when negative, no leading zeros) and parses back as a `long` to `ToValue` |
| `UnixTimestamp.ToStringSeconds` | UnixTimestamp.NetStandard/Timestamp.cs:129-132 | the text is the invariant decimal text of the whole-second `ToValue`, the same as `ToString(0)`, and parses back to that count |
| `UnixTimestamp.ToStringThenParse` | UnixTimestamp.NetStandard/Timestamp.cs:135-138 | parsing the text of a timestamp gives what parsing its count gives |
| `Int64Text.LongToString` | UnixTimestamp.NetStandard/Timestamp.cs:137 | a leading `-` exactly for negative numbers, then digits with no leading zero |
| `Int64Text.LongToStringRoundTrip` | UnixTimestamp.NetStandard/Timestamp.cs:137 | `long.TryParse` of the text gives the number back |
| `Int64Text.SurroundingWhiteIgnored` | UnixTimestamp.NetStandard/Timestamp.cs:57 | white space before and after the number does not change the parse |
| `Int64Text.ForeignCharRejected` | UnixTimestamp.NetStandard/Timestamp.cs:57 | a character that is not white space, a sign or a digit makes the parse fail |
| `Int64Text.TryParseInt64` | UnixTimestamp.NetStandard/Timestamp.cs:57 | a successful parse read a digit of the text, and a negative result read a minus sign |
| `Int64Text.IntegerGrammar` | UnixTimestamp.NetStandard/Timestamp.cs:57 | white space, an optional `+` or `-`, one or more digits and white space parse to the signed value of the digits when it fits in a `long`, and fail otherwise |
| `Int64Text.IntegerGrammarComplete` | UnixTimestamp.NetStandard/Timestamp.cs:57 | conversely, every text that parses is white space, an optional sign, one or more digits and white space, and its value is the signed value of those digits |
| `Int64Text.InnerNonDigitRejected` | UnixTimestamp.NetStandard/Timestamp.cs:57 | once the white space is trimmed, any character after the first that is not a digit makes the parse fail: no second sign and no inner white space |
| `Int64TextScenarios.GrammarScenario` | UnixTimestamp.NetStandard/Timestamp.cs:57 | `+5`, `-0` and `-007` parse to 5, 0 and -7; `5 5`, `--5`, `1-2` and blank text do not parse |
| `Int64Text.LeadingZeroParse` | UnixTimestamp.NetStandard/Timestamp.cs:57 | a leading zero before a run of digits does not change what `long.TryParse` reads |
| `UnixTimestamp.EqualsTimestamp` | UnixTimestamp.NetStandard/Timestamp.cs:100-103 | throws NullReferenceException exactly for a null argument, otherwise true exactly when the ticks are equal |
| `UnixTimestamp.OpEquals` | UnixTimestamp.NetStandard/Timestamp.cs:110-114 | null == b is true exactly when b is null; throws exactly when a is non-null and b null; otherwise true exactly when the two are the same instant |
| `UnixTimestamp.OpNotEquals` | UnixTimestamp.NetStandard/Timestamp.cs:116-119 | throws in the same case as `==`, otherwise true exactly when the two differ |
| `UnixTimestamp.EqualsObject` | UnixTimestamp.NetStandard/Timestamp.cs:94-98 | as written: throws exactly when the argument is a timestamp, otherwise false |
| `UnixTimestamp.EqualsObjectThrowsOnTimestamp` | UnixTimestamp.NetStandard/Timestamp.cs:96-97 | `Equals(object)` throws NullReferenceException for any timestamp argument, itself included |
| `UnixTimestamp.OpEqualsThrowsOnNullRight` | UnixTimestamp.NetStandard/Timestamp.cs:112-113 | `t == null` and `t != null` throw for a non-null `t` |
| `UnixTimestamp.NullSafeEquals` | UnixTimestamp.NetStandard/Timestamp.cs:110-119 | corrected equality: true exactly when both are null or both are timestamps of equal ticks |
| `UnixTimestamp.NullSafeEqualsAgrees` | UnixTimestamp.NetStandard/Timestamp.cs:110-119 | the corrected equality agrees with `==` and `!=` wherever they answer, and is false where they throw |
| `UnixTimestamp.EqualsObjectFixed` | UnixTimestamp.NetStandard/Timestamp.cs:94-98 | corrected `Equals(object)`: true exactly for a timestamp of the same instant |
| `UnixTimestamp.EqualsObjectFixedAgrees` | UnixTimestamp.NetStandard/Timestamp.cs:94-103 | the corrected `Equals(object)` agrees with the corrected `==` on timestamps, and is false for null and other objects |
| `UnixTimestamp.TryParseLongThrowsBeforeYearOne` | UnixTimestamp.NetStandard/Timestamp.cs:75-81 | `TryParse(-62135596801, 0)` and `TryParse(long.MinValue, 3)` throw instead of returning false |
| `UnixTimestamp.TryParseLongInRange` | UnixTimestamp.NetStandard/Timestamp.cs:71-84 | corrected parse: a timestamp exactly when the instant is within the `DateTime` range, never an exception, and the same answer as the source wherever the source does not throw |
| `TimestampScenarios.EqualityScenario` | UnixTimestamp.Test/UnixTimestampTests.cs:12-27 | null == null; two timestamps of one local time are equal; one differs from `DateTime.MinValue` read in UTC |
| `TimestampScenarios.ConstructionScenario` | UnixTimestamp.Test/UnixTimestampTests.cs:30-51 | 1970-01-01T00:00:01 is 1 s as Utc and 1 s minus the local offset as Local; Unspecified kind is refused; Utc kind with the local zone throws ArgumentException on every host, from the constructor's check or, when the local zone is UTC, from `ConvertTimeToUtc` |
| `TimestampScenarios.ParseLongScenario` | UnixTimestamp.Test/UnixTimestampTests.cs:53-82 | 1 s, 1 ms and 936868149 s parse to 1970-01-01T00:00:01, 1970-01-01T00:00:00.001 and 1999-09-09T09:09:09 |
| `TimestampScenarios.ParseStringScenario` | UnixTimestamp.Test/UnixTimestampTests.cs:93-123 | the same from the texts "1" and "936868149" |
| `TimestampScenarios.FractionScenario` | UnixTimestamp.Test/UnixTimestampTests.cs:126-148 | 1970-01-01T00:00:01.234 gives 1 and 1234, "1" and "1234" |
| `TimestampScenarios.Date1999Scenario` | UnixTimestamp.Test/UnixTimestampTests.cs:135-153 | 1999-09-09T09:09:09 gives 936868149 and 936868149000, and the same as text |
| `TimestampScenarios.BoundaryScenario` | UnixTimestamp.NetStandard/Timestamp.cs:74-79 | 253402300799999 ms parses to the last millisecond of 9999; 253402300800000 ms and 253402300800 s do not |

## Left out

- Host time-zone data: the local zone's conversion and skipped times, `ToLocalTime` (so
  `LocalTime`) and the rules of other zones depend on the host's time-zone database. They
  are the uninterpreted fields of `Host`.
- DateTimes.ConvertTimeToUtc: a zone object other than `TimeZoneInfo.Utc` and
  `TimeZoneInfo.Local` takes its rules from `Host.otherToUtc` by id. The model does not
  tie those rules to the local zone's when the ids agree, nor to no offset when the id is
  "UTC".
- `TimeZoneInfo.Equals` compares ids ignoring case and also compares the adjustment rules;
  the model compares ids exactly and takes ids to fix the rules.
- A null zone: the two-argument constructor throws NullReferenceException while building
  its message at line 38 for a Local or Utc kind, and `ConvertTimeToUtc` throws
  ArgumentNullException for an Unspecified kind. A zone in the model is never null.
- A null text: `long.TryParse(null)` answers false, so `TryParse` of a null string answers
  false with a null result. A text in the model is never null.
- The hidden ambiguous-daylight-time flag of a Local-kind `DateTime`, which
  `ToUniversalTime` reads for the repeated hour of a fall-back transition:
  `Host.localToUtc` sees the ticks only.
- `Now` reads the system clock; the model takes the clock reading as a parameter.
- `GetHashCode`: `DateTime`'s hash function is not visible.
- The `default` branch of the kind switch in the one-argument constructor: `DateTime.Kind` is
  always one of the three kinds, so it cannot be reached.
- `FromDateTime` only forwards to the two-argument constructor. `NewTimestampInZone` models
  both.
- TryParseLong: requires 0 ≤ digitsAfterSeconds ≤ 3. Beyond 3 digits, `Math.Pow` gives
  fractional milliseconds and `AddMilliseconds` rounds a double. Below 0 digits, the model
  would rest on the precision of `Math.Pow`. Within 0..3, the double product is exact
  wherever the outcome depends on it. Both bounds lie far below 2^53, and rounding is
  monotone, so a product beyond 2^53 is classified exactly as the integer would be.
- TryParseString: the same digit range as `TryParseLong`.
- ToValue, ToStringWithDigits, Now: require digitsAfterSeconds ≥ -2. For smaller values,
  `(int)Math.Pow(10, 7 - d)` overflows `int`, and the result of that cast depends on the
  platform. `ToStringWithDigits` and `Now` compute `ToValue`, so they share its bound.
- `long.TryParse` culture details: only the invariant signs `+` and `-` are modelled, not
  the current culture's sign symbols. Trailing NUL characters, which .NET also skips, are
  not modelled.

## Findings

| source | as written | input that shows it | evidently intended | confidence | as-written member | corrected member |
|---|---|---|---|---|---|---|
| UnixTimestamp.NetStandard/Timestamp.cs:96-97 | `other != null` binds to the overloaded `!=`, which for a non-null `other` calls `other.Equals((Timestamp)null)`, and that reads `null.UtcTime` | `t.Equals((object)t)` for any timestamp `t` throws NullReferenceException | true exactly when the argument is a timestamp of the same instant | high; not executed | `UnixTimestamp.EqualsObjectThrowsOnTimestamp` | `UnixTimestamp.EqualsObjectFixed` |
| UnixTimestamp.NetStandard/Timestamp.cs:112-113 | a non-null left operand goes to `a.Equals(b)` even when `b` is null, and `Equals(Timestamp)` dereferences `b` | `t == null` (and `t != null`) for a non-null `t` throws NullReferenceException | `t == null` is false and `t != null` is true | high; not executed | `UnixTimestamp.OpEqualsThrowsOnNullRight` | `UnixTimestamp.NullSafeEquals` |
| UnixTimestamp.NetStandard/Timestamp.cs:75-81 | only the upper bound is checked before `Epoch.AddMilliseconds` | `TryParse(-62135596801, 0, out r)` throws ArgumentOutOfRangeException | a Try method answers false with a null result for an instant before `DateTime.MinValue` | medium; not executed | `UnixTimestamp.TryParseLongThrowsBeforeYearOne` | `UnixTimestamp.TryParseLongInRange` |
