/** The parts of `System.DateTime` and `System.TimeZoneInfo` that the timestamp code uses.
    A `DateTime` is a count of 100 ns ticks since 0001-01-01T00:00:00 in the proleptic
    Gregorian calendar, with a kind tag saying which clock it was read from. Time-zone
    rules belong to the host, so they enter the model as the fields of a `Host` value that
    the model never looks inside. */
module DateTimes {
  import opened Runtime

  const TicksPerMillisecond: int := 10_000
  const TicksPerSecond: int := 10_000_000
  const TicksPerDay: int := 864_000_000_000

  /** `DateTime.MaxValue.Ticks`: the last tick of 9999-12-31. */
  const MaxTicks: int := 3_155_378_975_999_999_999

  /** The ticks a `DateTime` can hold, from `DateTime.MinValue` to `DateTime.MaxValue`. */
  type Ticks = t: int | 0 <= t <= MaxTicks

  /** `DateTimeKind`. */
  datatype Kind = Unspecified | Utc | Local

  /** A `DateTime`: its ticks and its kind. (`==` on `DateTime` compares the ticks only.) */
  datatype DateTime = DateTime(ticks: Ticks, kind: Kind)

  /** `DateTime.MinValue`, whose kind is Unspecified. */
  const MinValue: DateTime := DateTime(0, Unspecified)

  /** A `TimeZoneInfo` object: the `TimeZoneInfo.Utc` singleton, the object that
      `TimeZoneInfo.Local` caches (a fresh object, never the UTC one), or any other zone
      object, known by its id. */
  datatype Zone = UtcZone | LocalZone | OtherZone(id: string)

  /** The host's time-zone configuration, which the model treats as opaque: the id of its
      local zone; the local zone's wall-clock-to-UTC conversion, which `ToUniversalTime`
      and `ConvertTimeToUtc` both perform, and the wall-clock times it skips, where only
      `ConvertTimeToUtc` throws; `ToLocalTime` on a Utc-kind value; and the
      wall-clock-to-UTC rules of every other zone object, by id (`None` for a skipped
      time). Conversions past the `DateTime` range are clamped, so they are still ticks. */
  datatype Host = Host(
    localId: string,
    localToUtc: Ticks -> Ticks,
    localSkips: Ticks -> bool,
    utcToLocal: Ticks -> Ticks,
    otherToUtc: (string, Ticks) -> Option<Ticks>)

  /** `TimeZoneInfo.Id`. */
  function ZoneId(host: Host, zone: Zone): string
  {
    match zone
    case UtcZone => "UTC"
    case LocalZone => host.localId
    case OtherZone(id) => id
  }

  /** `TimeZoneInfo.Equals(TimeZoneInfo)`: two zone objects with the same id. Unlike the
      kind check inside `ConvertTimeToUtc`, this is not object identity: on a host whose
      local zone is UTC, `TimeZoneInfo.Local.Equals(TimeZoneInfo.Utc)` holds. */
  predicate ZoneEquals(host: Host, a: Zone, b: Zone)
  {
    ZoneId(host, a) == ZoneId(host, b)
  }

  /** The kind `TimeZoneInfo` associates with a zone object, by reference: Utc for the UTC
      singleton, Local for the cached local zone, Unspecified for any other object. */
  function CorrespondingKind(zone: Zone): Kind
  {
    match zone
    case UtcZone => Utc
    case LocalZone => Local
    case OtherZone(_) => Unspecified
  }

  /** `TimeZoneInfo.ConvertTimeToUtc(dateTime, zone)`: a Local- or Utc-kind value must come
      with the very zone object of its kind, or it throws ArgumentException; the UTC zone
      has no offset and no skipped times, so it keeps the ticks; the local zone applies
      the conversion `ToUniversalTime` applies, but throws on a skipped time; any other
      zone applies the host's rules for its id. */
  function ConvertTimeToUtc(host: Host, dateTime: DateTime, zone: Zone): (r: Result<Ticks, Error>)
    ensures r == Failure(KindMismatch) <==>
              dateTime.kind != Unspecified && dateTime.kind != CorrespondingKind(zone)
    ensures zone == UtcZone && (dateTime.kind == Utc || dateTime.kind == Unspecified) ==> r == Success(dateTime.ticks)
    ensures r.Failure? ==> r.error == KindMismatch || (r.error == InvalidTime && zone != UtcZone)
    ensures zone == LocalZone && (dateTime.kind == Local || dateTime.kind == Unspecified) ==>
              (r.Failure? <==> host.localSkips(dateTime.ticks)) &&
              (r.Success? ==> r.value == host.localToUtc(dateTime.ticks))
  {
    if dateTime.kind != Unspecified && dateTime.kind != CorrespondingKind(zone) then
      Failure(KindMismatch)
    else if zone == UtcZone then Success(dateTime.ticks)
    else if zone == LocalZone then
      if host.localSkips(dateTime.ticks) then Failure(InvalidTime)
      else Success(host.localToUtc(dateTime.ticks))
    else
      match host.otherToUtc(zone.id, dateTime.ticks)
      case Some(t) => Success(t)
      case None => Failure(InvalidTime)
  }

  /** `dateTime.AddMilliseconds(ms)` for a whole number of milliseconds: the kind is kept,
      and a result outside `[DateTime.MinValue, DateTime.MaxValue]` throws
      ArgumentOutOfRangeException. */
  function AddMilliseconds(dateTime: DateTime, ms: int): (r: Result<DateTime, Error>)
    ensures r.Success? <==> 0 <= dateTime.ticks + ms * TicksPerMillisecond <= MaxTicks
    ensures r.Success? ==> r.value.kind == dateTime.kind
    ensures r.Success? ==> r.value.ticks - dateTime.ticks == ms * TicksPerMillisecond
    ensures r.Failure? ==> r.error == OutOfRange
  {
    var t := dateTime.ticks + ms * TicksPerMillisecond;
    if 0 <= t <= MaxTicks then Success(DateTime(t, dateTime.kind)) else Failure(OutOfRange)
  }

  // The proleptic Gregorian calendar of `new DateTime(year, month, day, ...)`.

  predicate IsLeapYear(y: int) { y % 4 == 0 && (y % 100 != 0 || y % 400 == 0) }

  function DaysInYear(y: int): int { if IsLeapYear(y) then 366 else 365 }

  function DaysInMonth(y: int, m: int): int
    requires 1 <= m <= 12
  {
    if m == 2 then (if IsLeapYear(y) then 29 else 28)
    else if m == 4 || m == 6 || m == 9 || m == 11 then 30
    else 31
  }

  /** Days from 0001-01-01 to the first day of year y. */
  function DaysBeforeYear(y: int): int
    requires y >= 1
  {
    var p := y - 1;
    365 * p + p / 4 - p / 100 + p / 400
  }

  /** Days from the first day of year y to the first day of month m. */
  function DaysBeforeMonth(y: int, m: int): (n: int)
    requires 1 <= m <= 12
    ensures 0 <= n && n + DaysInMonth(y, m) <= DaysInYear(y)
  {
    [0, 31, 59, 90, 120, 151, 181, 212, 243, 273, 304, 334][m - 1]
      + (if m > 2 && IsLeapYear(y) then 1 else 0)
  }

  /** The arguments `new DateTime(year, month, day, hour, minute, second, millisecond)` accepts. */
  predicate ValidCalendar(y: int, mo: int, d: int, h: int, mi: int, s: int, ms: int)
  {
    1 <= y <= 9999 && 1 <= mo <= 12 && 1 <= d <= DaysInMonth(y, mo)
    && 0 <= h < 24 && 0 <= mi < 60 && 0 <= s < 60 && 0 <= ms < 1000
  }

  /** Days from 0001-01-01 to the given date. */
  function DayNumber(y: int, mo: int, d: int): (n: int)
    requires 1 <= y <= 9999 && 1 <= mo <= 12 && 1 <= d <= DaysInMonth(y, mo)
    ensures 0 <= n < DaysBeforeYear(10000)
  {
    YearDaysAdd(y);
    YearDaysMono(y + 1, 10000);
    DaysBeforeYear(y) + DaysBeforeMonth(y, mo) + d - 1
  }

  lemma YearDaysAdd(y: int)
    requires y >= 1
    ensures DaysBeforeYear(y + 1) == DaysBeforeYear(y) + DaysInYear(y)
  {
    StepBy4(y);
    StepBy100(y);
    StepBy400(y);
  }

  // Going from y - 1 to y, the count of multiples of 4, 100 and 400 grows exactly at a multiple.

  lemma StepBy4(y: int)
    ensures y / 4 == (y - 1) / 4 + (if y % 4 == 0 then 1 else 0)
  {
  }

  lemma StepBy100(y: int)
    ensures y / 100 == (y - 1) / 100 + (if y % 100 == 0 then 1 else 0)
  {
  }

  lemma StepBy400(y: int)
    ensures y / 400 == (y - 1) / 400 + (if y % 400 == 0 then 1 else 0)
  {
  }

  lemma {:induction false} YearDaysMono(y1: int, y2: int)
    requires 1 <= y1 <= y2
    ensures DaysBeforeYear(y1) <= DaysBeforeYear(y2)
    decreases y2 - y1
  {
    if y1 < y2 {
      YearDaysAdd(y1);
      YearDaysMono(y1 + 1, y2);
    }
  }

  /** The ticks of `new DateTime(y, mo, d, h, mi, s, ms)`; every valid date lies within
      `[DateTime.MinValue, DateTime.MaxValue]`. */
  function CalendarTicks(y: int, mo: int, d: int, h: int, mi: int, s: int, ms: int): (t: Ticks)
    requires ValidCalendar(y, mo, d, h, mi, s, ms)
    ensures t % TicksPerMillisecond == 0
  {
    var day := DayNumber(y, mo, d);
    var inDay := ((h * 60 + mi) * 60 + s) * TicksPerSecond + ms * TicksPerMillisecond;
    TicksWithinRange(day, ((h * 60 + mi) * 60 + s) * 1000 + ms);
    day * TicksPerDay + inDay
  }

  /** A day number before year 10000 and a time of day in milliseconds give whole
      milliseconds within the `DateTime` range. */
  lemma TicksWithinRange(day: int, msInDay: int)
    requires 0 <= day < DaysBeforeYear(10000) && 0 <= msInDay < 86_400_000
    ensures 0 <= day * TicksPerDay + msInDay * TicksPerMillisecond <= MaxTicks
    ensures (day * TicksPerDay + msInDay * TicksPerMillisecond) % TicksPerMillisecond == 0
  {
    var n := day * 86_400_000 + msInDay;
    assert day * TicksPerDay + msInDay * TicksPerMillisecond == n * TicksPerMillisecond;
    assert DaysBeforeYear(10000) == 3_652_059;
    assert n < 3_652_059 * 86_400_000;
  }
}
