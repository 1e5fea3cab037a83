/** `Timestamp`: one immutable UTC instant, built from a zoned `DateTime` or parsed from a
    count of seconds (or of 10^-d seconds) since the Unix epoch, and written back out as
    such a count, as a `long` or as its decimal text. */
module UnixTimestamp {
  import opened Runtime
  import opened DateTimes
  import opened Int64Text

  /** Ticks of 1970-01-01T00:00:00. */
  const EpochTicks: Ticks := 621_355_968_000_000_000

  /** `Timestamp.Epoch`: the Unix epoch as a Utc-kind `DateTime`. */
  const Epoch: DateTime := DateTime(EpochTicks, Utc)

  /** Milliseconds from the epoch to 10000-01-01T00:00:00, one tick past
      `DateTime.MaxValue`: `TryParse` refuses offsets from here on. */
  const MaxMilliseconds: int := 253_402_300_800_000

  /** A `Timestamp`: the ticks of its `UtcTime`. `UtcTime` is always of Utc kind, and
      `DateTime` equality looks at ticks only, so the ticks are all the state there is. */
  datatype Timestamp = Timestamp(utcTicks: Ticks)

  /** The `UtcTime` property: a Utc-kind value holding the timestamp's ticks. */
  function UtcTime(t: Timestamp): (r: DateTime)
    ensures r.kind == Utc && r.ticks == t.utcTicks
  {
    DateTime(t.utcTicks, Utc)
  }

  /** The `LocalTime` property: the host's `ToLocalTime` of `UtcTime`, of Local kind. */
  function LocalTime(host: Host, t: Timestamp): (r: DateTime)
    ensures r.kind == Local && r.ticks == host.utcToLocal(UtcTime(t).ticks)
  {
    DateTime(host.utcToLocal(t.utcTicks), Local)
  }

  // ---------------------------------------------------------------------------------
  // Construction

  /** `new Timestamp(dateTime)`: a Utc-kind value is kept as it is, a Local-kind one is
      converted by the host's rules, and one of Unspecified kind is refused. */
  function NewTimestamp(host: Host, dateTime: DateTime): (r: Result<Timestamp, Error>)
    ensures r.Failure? <==> dateTime.kind == Unspecified
    ensures r.Failure? ==> r.error == UnspecifiedKind
    ensures dateTime.kind == Utc ==> r == Success(Timestamp(dateTime.ticks))
    ensures dateTime.kind == Local ==> r == Success(Timestamp(host.localToUtc(dateTime.ticks)))
  {
    match dateTime.kind
    case Local => Success(Timestamp(host.localToUtc(dateTime.ticks)))
    case Utc => Success(Timestamp(dateTime.ticks))
    case Unspecified => Failure(UnspecifiedKind)
  }

  /** Building a timestamp from its own `UtcTime` gives the same timestamp back. */
  lemma UtcTimeRoundTrip(host: Host, t: Timestamp)
    ensures NewTimestamp(host, UtcTime(t)) == Success(t)
    ensures NewTimestampInZone(host, UtcTime(t), UtcZone) == Success(t)
  {
  }

  /** The kind of the value says it was read from one clock and the explicit zone, compared
      by `TimeZoneInfo.Equals`, is not that clock's zone. */
  predicate KindContradictsZone(host: Host, dateTime: DateTime, sourceZone: Zone)
    ensures KindContradictsZone(host, dateTime, sourceZone) <==>
              dateTime.kind != Unspecified &&
              ZoneId(host, sourceZone) != ZoneId(host, CorrespondingKindZone(dateTime.kind))
  {
    (dateTime.kind == Local && !ZoneEquals(host, LocalZone, sourceZone))
    || (dateTime.kind == Utc && !ZoneEquals(host, UtcZone, sourceZone))
  }

  /** `new Timestamp(dateTime, sourceTimeZone)` (and `Timestamp.FromDateTime`, which only
      forwards to it): refuses a kind that contradicts the zone, otherwise converts the
      value with `TimeZoneInfo.ConvertTimeToUtc`, letting its exceptions through. */
  function NewTimestampInZone(host: Host, dateTime: DateTime, sourceZone: Zone): (r: Result<Timestamp, Error>)
    ensures r == Failure(TimeZoneMismatch) <==> KindContradictsZone(host, dateTime, sourceZone)
    ensures !KindContradictsZone(host, dateTime, sourceZone) ==>
              var c := ConvertTimeToUtc(host, dateTime, sourceZone);
              (r.Success? <==> c.Success?) &&
              (r.Success? ==> r.value.utcTicks == c.value) &&
              (r.Failure? ==> r.error == c.error)
    ensures r.Failure? ==> IsArgumentException(r.error)
    ensures sourceZone == UtcZone && dateTime.kind != Local ==> r == Success(Timestamp(dateTime.ticks))
  {
    if KindContradictsZone(host, dateTime, sourceZone) then Failure(TimeZoneMismatch)
    else
      match ConvertTimeToUtc(host, dateTime, sourceZone)
      case Success(t) => Success(Timestamp(t))
      case Failure(e) => Failure(e)
  }

  /** On every host, a Utc-kind value is accepted with no zone object but `TimeZoneInfo.Utc`
      itself, and a Local-kind value with no zone object but `TimeZoneInfo.Local`: a zone
      that merely equals the right one passes the guard and is then refused by
      `ConvertTimeToUtc`. */
  lemma KindNeedsItsOwnZone(host: Host, dateTime: DateTime, sourceZone: Zone)
    requires dateTime.kind != Unspecified
    ensures NewTimestampInZone(host, dateTime, sourceZone).Success? ==>
              sourceZone == CorrespondingKindZone(dateTime.kind)
    ensures ZoneEquals(host, CorrespondingKindZone(dateTime.kind), sourceZone) &&
            sourceZone != CorrespondingKindZone(dateTime.kind) ==>
              NewTimestampInZone(host, dateTime, sourceZone) == Failure(KindMismatch)
  {
  }

  /** The zone object `TimeZoneInfo` associates with a Utc or Local kind. */
  function CorrespondingKindZone(kind: Kind): (z: Zone)
    requires kind != Unspecified
    ensures CorrespondingKind(z) == kind
  {
    match kind
    case Utc => UtcZone
    case Local => LocalZone
  }

  /** A Utc-kind value gives the same timestamp through either constructor, on any host. */
  lemma UtcConstructorsAgree(host1: Host, host2: Host, dateTime: DateTime)
    requires dateTime.kind == Utc
    ensures NewTimestamp(host1, dateTime) == NewTimestampInZone(host2, dateTime, UtcZone)
    ensures NewTimestamp(host1, dateTime).Success?
  {
  }

  /** A Local-kind value gives the same timestamp through either constructor, with
      `TimeZoneInfo.Local` as the zone, except that the two-argument one throws for a
      wall-clock time the local zone skips. */
  lemma LocalConstructorsAgree(host: Host, dateTime: DateTime)
    requires dateTime.kind == Local
    ensures NewTimestampInZone(host, dateTime, LocalZone).Failure? <==> host.localSkips(dateTime.ticks)
    ensures NewTimestampInZone(host, dateTime, LocalZone).Failure? ==>
              NewTimestampInZone(host, dateTime, LocalZone).error == InvalidTime
    ensures NewTimestampInZone(host, dateTime, LocalZone).Success? ==>
              NewTimestampInZone(host, dateTime, LocalZone) == NewTimestamp(host, dateTime)
  {
  }

  /** A value of Unspecified kind is refused alone, but accepted with an explicit zone;
      with the UTC zone its ticks are kept as they are. */
  lemma UnspecifiedNeedsZone(host: Host, dateTime: DateTime)
    requires dateTime.kind == Unspecified
    ensures NewTimestamp(host, dateTime) == Failure(UnspecifiedKind)
    ensures NewTimestampInZone(host, dateTime, UtcZone) == Success(Timestamp(dateTime.ticks))
  {
  }

  // ---------------------------------------------------------------------------------
  // Parsing

  /** `Timestamp.TryParse(long value, int digitsAfterSeconds, out Timestamp result)`:
      `Success(Some(t))` when it returns true, `Success(None)` when it returns false with a
      null result, `Failure` when it throws. The instant is `value` units of
      10^-digitsAfterSeconds seconds after the epoch; the method answers false exactly when
      that instant is past `DateTime.MaxValue`, and throws when it is before
      `DateTime.MinValue`, which it does not check. */
  function TryParseLong(value: Long, digitsAfterSeconds: Int32): (r: Result<Option<Timestamp>, Error>)
    requires 0 <= digitsAfterSeconds <= 3
    ensures r == Success(None) <==> value * Pow10(3 - digitsAfterSeconds) >= MaxMilliseconds
    ensures r == Success(None) <==> EpochTicks + value * Pow10(7 - digitsAfterSeconds) > MaxTicks
    ensures r.Failure? <==> EpochTicks + value * Pow10(7 - digitsAfterSeconds) < 0
    ensures r.Failure? ==> r.error == OutOfRange
    ensures r.Success? && r.value.Some? ==>
              r.value.value.utcTicks - EpochTicks == value * Pow10(7 - digitsAfterSeconds)
  {
    UnitTicks(digitsAfterSeconds);
    var milliseconds := value * Pow10(3 - digitsAfterSeconds);
    if milliseconds >= MaxMilliseconds then Success(None)
    else
      match AddMilliseconds(Epoch, milliseconds)
      case Success(time) => Success(Some(Timestamp(time.ticks)))  // new Timestamp(time): Utc kind, kept
      case Failure(e) => Failure(e)
  }

  /** A unit of 10^-d seconds is 10^(3-d) milliseconds of 10^4 ticks each. */
  lemma UnitTicks(d: int)
    requires 0 <= d <= 3
    ensures Pow10(7 - d) == Pow10(3 - d) * TicksPerMillisecond
    ensures EpochTicks + MaxMilliseconds * TicksPerMillisecond == MaxTicks + 1
  {
    Pow10Add(3 - d, 4);
  }

  /** `Timestamp.TryParse(string value, int digitsAfterSeconds, out Timestamp result)`:
      text that `long.TryParse` refuses gives false and a null result; otherwise the
      number is handed to the `long` overload. */
  function TryParseString(value: string, digitsAfterSeconds: Int32): (r: Result<Option<Timestamp>, Error>)
    requires 0 <= digitsAfterSeconds <= 3
    ensures TryParseInt64(value).None? ==> r == Success(None)
    ensures TryParseInt64(value).Some? ==> r == TryParseLong(TryParseInt64(value).value, digitsAfterSeconds)
    ensures r.Success? && r.value.Some? ==>
              TryParseInt64(value).Some? &&
              r.value.value.utcTicks - EpochTicks == TryParseInt64(value).value * Pow10(7 - digitsAfterSeconds)
  {
    match TryParseInt64(value)
    case Some(v) => TryParseLong(v, digitsAfterSeconds)
    case None => Success(None)
  }

  /** `Timestamp.TryParse(long value, out Timestamp result)`: whole seconds. */
  function TryParseLongSeconds(value: Long): (r: Result<Option<Timestamp>, Error>)
    ensures r == TryParseLong(value, 0)
    ensures r.Success? && r.value.Some? ==> ToValue(r.value.value, 0) == Success(value)
  {
    var r := TryParseLong(value, 0);
    if r.Success? && r.value.Some? then ParseThenValue(value, 0); r else r
  }

  /** `Timestamp.TryParse(string value, out Timestamp result)`: whole seconds. */
  function TryParseStringSeconds(value: string): (r: Result<Option<Timestamp>, Error>)
    ensures r == TryParseString(value, 0)
    ensures r.Success? && r.value.Some? ==>
              TryParseInt64(value).Some? && ToValue(r.value.value, 0) == Success(TryParseInt64(value).value)
  {
    var r := TryParseString(value, 0);
    if r.Success? && r.value.Some? then ParseThenValue(TryParseInt64(value).value, 0); r else r
  }

  // ---------------------------------------------------------------------------------
  // Serialising

  /** `ToValue(digitsAfterSeconds)`: the whole number of 10^-digitsAfterSeconds seconds
      between the epoch and the instant, truncated toward zero (C# `long` division), so
      on either side of the epoch the count is the one closer to the epoch. Beyond seven
      digits, `(int)Math.Pow(10, 7 - digitsAfterSeconds)` is 0 and the division throws. */
  function ToValue(t: Timestamp, digitsAfterSeconds: Int32): (r: Result<Long, Error>)
    requires digitsAfterSeconds >= -2
    ensures r.Failure? <==> digitsAfterSeconds > 7
    ensures r.Failure? ==> r.error == DivideByZero
    ensures r.Success? ==>
              IsTruncatedQuotient(r.value, t.utcTicks - EpochTicks, Pow10(7 - digitsAfterSeconds))
  {
    if digitsAfterSeconds > 7 then Failure(DivideByZero)
    else
      var elapsed := t.utcTicks - EpochTicks;
      var q := TruncDiv(elapsed, Pow10(7 - digitsAfterSeconds));
      QuotientWithinDividend(q, elapsed, Pow10(7 - digitsAfterSeconds));
      Success(q)
  }

  /** `ToString(digitsAfterSeconds)`: the invariant-culture decimal text of `ToValue`. */
  function ToStringWithDigits(t: Timestamp, digitsAfterSeconds: Int32): (r: Result<string, Error>)
    requires digitsAfterSeconds >= -2
    ensures r.Success? <==> digitsAfterSeconds <= 7
    ensures r.Success? ==> r.value == LongToString(ToValue(t, digitsAfterSeconds).value)
    ensures r.Success? ==> TryParseInt64(r.value) == Some(ToValue(t, digitsAfterSeconds).value)
    ensures r.Failure? ==> r.error == DivideByZero
  {
    match ToValue(t, digitsAfterSeconds)
    case Success(v) =>
      LongToStringRoundTrip(v);
      Success(LongToString(v))
    case Failure(e) => Failure(e)
  }

  /** `ToString()`: whole seconds. */
  function ToStringSeconds(t: Timestamp): (s: string)
    ensures ToValue(t, 0).Success? && s == LongToString(ToValue(t, 0).value)
    ensures TryParseInt64(s) == Some(ToValue(t, 0).value)
  {
    ToStringWithDigits(t, 0).value
  }

  /** `Timestamp.Now(digitsAfterSeconds)`, given the reading of the host's UTC clock. */
  function Now(utcNow: Ticks, digitsAfterSeconds: Int32): (r: Result<string, Error>)
    requires digitsAfterSeconds >= -2
    ensures r.Success? <==> digitsAfterSeconds <= 7
    ensures digitsAfterSeconds <= 7 ==>
              var v := ToValue(Timestamp(utcNow), digitsAfterSeconds).value;
              r == Success(LongToString(v)) &&
              TryParseInt64(r.value) == Some(v) &&
              IsTruncatedQuotient(v, utcNow - EpochTicks, Pow10(7 - digitsAfterSeconds))
  {
    if digitsAfterSeconds <= 7 then
      NowCount(utcNow, digitsAfterSeconds);
      ToStringWithDigits(Timestamp(utcNow), digitsAfterSeconds)
    else ToStringWithDigits(Timestamp(utcNow), digitsAfterSeconds)
  }

  /** The count `Now` writes is the truncated quotient of the clock reading's offset from
      the epoch. */
  lemma NowCount(utcNow: Ticks, digitsAfterSeconds: Int32)
    requires -2 <= digitsAfterSeconds <= 7
    ensures IsTruncatedQuotient(ToValue(Timestamp(utcNow), digitsAfterSeconds).value,
                                utcNow - EpochTicks, Pow10(7 - digitsAfterSeconds))
  {
    var t := Timestamp(utcNow);
    assert t.utcTicks - EpochTicks == utcNow - EpochTicks;
  }

  lemma QuotientWithinDividend(q: int, a: int, b: int)
    requires b >= 1 && IsTruncatedQuotient(q, a, b)
    ensures Abs(q) <= Abs(a)
  {
    MulMono(1, b, Abs(q));
  }

  // ---------------------------------------------------------------------------------
  // Round trips and precision

  /** Parsing a count and writing it back at the same precision gives the count again,
      before the epoch as well as after it. */
  lemma ParseThenValue(value: Long, d: Int32)
    requires 0 <= d <= 3
    requires TryParseLong(value, d).Success? && TryParseLong(value, d).value.Some?
    ensures ToValue(TryParseLong(value, d).value.value, d) == Success(value)
  {
    var t := TryParseLong(value, d).value.value;
    TruncDivExact(value, Pow10(7 - d));
    assert TruncDiv(t.utcTicks - EpochTicks, Pow10(7 - d)) == value;
  }

  /** Writing a timestamp as a count and parsing the count back always succeeds, and gives
      the timestamp truncated toward the epoch to a whole unit. */
  lemma ValueThenParse(t: Timestamp, d: Int32)
    requires 0 <= d <= 3
    ensures var r := TryParseLong(ToValue(t, d).value, d);
            r.Success? && r.value.Some? &&
            var back := r.value.value.utcTicks;
            back - EpochTicks == ToValue(t, d).value * Pow10(7 - d) &&
            Abs(t.utcTicks - back) < Pow10(7 - d) &&
            (EpochTicks <= back <= t.utcTicks || t.utcTicks <= back <= EpochTicks)
  {
    var v := ToValue(t, d).value;
    var unit := Pow10(7 - d);
    var elapsed := t.utcTicks - EpochTicks;
    UnitTicks(d);
    SignedProduct(v, unit, elapsed);
    assert EpochTicks + v * unit <= MaxTicks;
    assert EpochTicks + v * unit >= 0;
  }

  /** The truncated multiple of the unit lies between zero and the dividend, less than one
      unit away from it. */
  lemma SignedProduct(q: int, b: int, a: int)
    requires b >= 1 && IsTruncatedQuotient(q, a, b)
    ensures 0 <= a ==> 0 <= q * b <= a && a - q * b < b
    ensures a <= 0 ==> a <= q * b <= 0 && q * b - a < b
  {
    if q < 0 {
      assert Abs(q) * b == -(q * b);
    }
  }

  /** A later instant never gives a smaller count. */
  lemma ToValueMonotone(t1: Timestamp, t2: Timestamp, d: Int32)
    requires -2 <= d <= 7
    requires t1.utcTicks <= t2.utcTicks
    ensures ToValue(t1, d).value <= ToValue(t2, d).value
  {
    TruncDivMono(t1.utcTicks - EpochTicks, t2.utcTicks - EpochTicks, Pow10(7 - d));
  }

  /** One digit less precision is the count at one digit more, truncated by ten: the
      counts at all precisions agree with one another. */
  lemma ToValueDropDigit(t: Timestamp, d: Int32)
    requires -2 <= d < 7
    ensures ToValue(t, d).value == TruncDiv(ToValue(t, d + 1).value, 10)
  {
    var elapsed := t.utcTicks - EpochTicks;
    Pow10Add(7 - (d + 1), 1);
    TruncDivNested(elapsed, Pow10(7 - (d + 1)), 10);
    TruncDivUnique(elapsed, Pow10(7 - d), ToValue(t, d).value);
  }

  /** The text form parses to what the `long` form does. */
  lemma TryParseStringOfText(value: Long, d: Int32)
    requires 0 <= d <= 3
    ensures TryParseString(LongToString(value), d) == TryParseLong(value, d)
  {
    LongToStringRoundTrip(value);
  }

  /** Writing a timestamp as text and parsing the text gives what parsing the count does. */
  lemma ToStringThenParse(t: Timestamp, d: Int32)
    requires 0 <= d <= 3
    ensures TryParseString(ToStringWithDigits(t, d).value, d) == TryParseLong(ToValue(t, d).value, d)
  {
    TryParseStringOfText(ToValue(t, d).value, d);
  }

  /** A Utc-kind date after the epoch gives, at whole-second precision, the seconds
      elapsed since 1970-01-01 by the calendar, and at millisecond precision the same with
      its milliseconds added. */
  lemma CalendarCounts(host: Host, y: int, mo: int, d: int, h: int, mi: int, s: int, ms: int)
    requires ValidCalendar(y, mo, d, h, mi, s, ms) && y >= 1970
    ensures var t := NewTimestamp(host, DateTime(CalendarTicks(y, mo, d, h, mi, s, ms), Utc));
            var seconds := (DayNumber(y, mo, d) - DayNumber(1970, 1, 1)) * 86400 + (h * 60 + mi) * 60 + s;
            t.Success? && ToValue(t.value, 0) == Success(seconds) && ToValue(t.value, 3) == Success(seconds * 1000 + ms)
  {
    var t := Timestamp(CalendarTicks(y, mo, d, h, mi, s, ms));
    var seconds := (DayNumber(y, mo, d) - DayNumber(1970, 1, 1)) * 86400 + (h * 60 + mi) * 60 + s;
    YearDaysMono(1970, y);
    assert DayNumber(1970, 1, 1) * TicksPerDay == EpochTicks;
    assert t.utcTicks - EpochTicks == seconds * TicksPerSecond + ms * TicksPerMillisecond;
    assert seconds >= 0;
    TruncDivUnique(t.utcTicks - EpochTicks, Pow10(7), seconds);
    TruncDivUnique(t.utcTicks - EpochTicks, Pow10(4), seconds * 1000 + ms);
  }

  // ---------------------------------------------------------------------------------
  // Equality

  /** What an `object` reference can hold, as far as `Equals(object)` can tell. */
  datatype Object = NullObject | TimestampObject(timestamp: Timestamp) | OtherObject

  /** `Equals(Timestamp other)`: reads `other.UtcTime`, so a null `other` throws. */
  function EqualsTimestamp(self: Timestamp, other: Option<Timestamp>): (r: Result<bool, Error>)
    ensures r.Failure? <==> other.None?
    ensures r.Failure? ==> r.error == NullReference
    ensures r.Success? ==> (r.value <==> Some(self) == other)
  {
    match other
    case None => Failure(NullReference)
    case Some(o) => Success(o.utcTicks == self.utcTicks)
  }

  /** `operator ==(Timestamp a, Timestamp b)`: a null left side is equal to a null right
      side only; otherwise `a.Equals(b)` decides, and throws when `b` is null. */
  function OpEquals(a: Option<Timestamp>, b: Option<Timestamp>): (r: Result<bool, Error>)
    ensures a.None? ==> r == Success(b.None?)
    ensures r.Failure? <==> a.Some? && b.None?
    ensures r.Success? ==> (r.value <==> a == b)
  {
    if a.None? then Success(b.None?) else EqualsTimestamp(a.value, b)
  }

  /** `operator !=(Timestamp a, Timestamp b)`: the negation of `==`. */
  function OpNotEquals(a: Option<Timestamp>, b: Option<Timestamp>): (r: Result<bool, Error>)
    ensures r.Failure? <==> a.Some? && b.None?
    ensures r.Success? ==> (r.value <==> a != b)
  {
    match OpEquals(a, b)
    case Success(eq) => Success(!eq)
    case Failure(e) => Failure(e)
  }

  /** `Equals(object obj)` as written: `obj as Timestamp`, then `other != null`, which C#
      binds to the `!=` operator above; for a non-null `other` that operator calls
      `other.Equals((Timestamp)null)`, which throws. */
  function EqualsObject(self: Timestamp, obj: Object): (r: Result<bool, Error>)
    ensures r.Failure? <==> obj.TimestampObject?
    ensures r.Success? ==> !r.value
  {
    var other := if obj.TimestampObject? then Some(obj.timestamp) else None;
    match OpNotEquals(other, None)
    case Failure(e) => Failure(e)
    case Success(notNull) => if notNull then EqualsTimestamp(self, other) else Success(false)
  }

  /** `Equals(object)` called with any timestamp at all, itself included, throws. */
  lemma EqualsObjectThrowsOnTimestamp(self: Timestamp, other: Timestamp)
    ensures EqualsObject(self, TimestampObject(other)) == Failure(NullReference)
    ensures EqualsObject(self, TimestampObject(self)).Failure?
  {
  }

  /** `t == null` with a non-null `t` throws instead of answering false. */
  lemma OpEqualsThrowsOnNullRight(t: Timestamp)
    ensures OpEquals(Some(t), None) == Failure(NullReference)
    ensures OpNotEquals(Some(t), None) == Failure(NullReference)
  {
  }

  /** The null-safe equality the operators are meant to implement: two nulls are equal, a
      null and a timestamp are not, two timestamps are equal when their `UtcTime` ticks
      are. */
  function NullSafeEquals(a: Option<Timestamp>, b: Option<Timestamp>): (r: bool)
    ensures r <==> a == b
    ensures a.Some? && b.Some? ==> (r <==> a.value.utcTicks == b.value.utcTicks)
  {
    match (a, b)
    case (None, None) => true
    case (Some(x), Some(y)) => x.utcTicks == y.utcTicks
    case _ => false
  }

  /** `Equals(object)` as intended: true exactly for a timestamp of the same instant. */
  function EqualsObjectFixed(self: Timestamp, obj: Object): (r: bool)
    ensures r <==> obj == TimestampObject(self)
  {
    match obj
    case TimestampObject(other) => NullSafeEquals(Some(self), Some(other))
    case _ => false
  }

  /** The null-safe equality agrees with the operators wherever they answer, and answers
      false in the one case where they throw. */
  lemma NullSafeEqualsAgrees(a: Option<Timestamp>, b: Option<Timestamp>)
    ensures OpEquals(a, b).Success? ==> OpEquals(a, b).value == NullSafeEquals(a, b)
    ensures OpNotEquals(a, b).Success? ==> OpNotEquals(a, b).value == !NullSafeEquals(a, b)
    ensures OpEquals(a, b).Failure? ==> !NullSafeEquals(a, b)
  {
  }

  /** The corrected `Equals(object)` agrees with the corrected `==` on timestamps and is
      false for null and for other objects. */
  lemma EqualsObjectFixedAgrees(self: Timestamp, obj: Object)
    ensures obj.TimestampObject? ==> EqualsObjectFixed(self, obj) == NullSafeEquals(Some(self), Some(obj.timestamp))
    ensures !obj.TimestampObject? ==> !EqualsObjectFixed(self, obj)
  {
  }

  /** `TryParse(long)` throws instead of answering false for a count before year 1. */
  lemma TryParseLongThrowsBeforeYearOne()
    ensures TryParseLong(-62_135_596_801, 0) == Failure(OutOfRange)
    ensures TryParseLong(LongMin, 3) == Failure(OutOfRange)
  {
  }

  /** `TryParse(long)` with both bounds checked: a timestamp exactly when the instant is
      within the `DateTime` range, no result otherwise, and never an exception. */
  function TryParseLongInRange(value: Long, digitsAfterSeconds: Int32): (r: Option<Timestamp>)
    requires 0 <= digitsAfterSeconds <= 3
    ensures r.Some? <==> 0 <= EpochTicks + value * Pow10(7 - digitsAfterSeconds) <= MaxTicks
    ensures r.Some? ==> TryParseLong(value, digitsAfterSeconds) == Success(r)
    ensures TryParseLong(value, digitsAfterSeconds).Success? ==> TryParseLong(value, digitsAfterSeconds).value == r
  {
    match TryParseLong(value, digitsAfterSeconds)
    case Success(result) => result
    case Failure(_) => None
  }
}
