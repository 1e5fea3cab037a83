/** Concrete scenarios for the timestamp model: the dates, counts and texts that the
    repository's unit tests exercise, and the parse bound at its edge. */
module TimestampScenarios {
  import opened Runtime
  import opened DateTimes
  import opened Int64Text
  import opened UnixTimestamp

  /** `Timestamp.Epoch` is 1970-01-01T00:00:00 by the calendar. */
  lemma EpochIsCalendarEpoch()
    ensures Epoch == DateTime(CalendarTicks(1970, 1, 1, 0, 0, 0, 0), Utc)
    ensures EpochTicks + MaxMilliseconds * TicksPerMillisecond == CalendarTicks(9999, 12, 31, 23, 59, 59, 999) + TicksPerMillisecond
  {
  }

  /** Two nulls compare equal; two timestamps of one local time are equal; a timestamp of
      the current time differs from one of `DateTime.MinValue` read in the UTC zone. */
  lemma EqualityScenario(host: Host, now: Ticks)
    requires host.localToUtc(now) != 0
    ensures OpEquals(None, None) == Success(true)
    ensures var t1 := NewTimestamp(host, DateTime(now, Local));
            var t2 := NewTimestamp(host, DateTime(now, Local));
            var t3 := NewTimestampInZone(host, MinValue, UtcZone);
            t1.Success? && t2.Success? && t3.Success? &&
            OpEquals(Some(t1.value), Some(t2.value)) == Success(true) &&
            OpEquals(Some(t1.value), Some(t3.value)) == Success(false)
  {
  }

  /** 1970-01-01T00:00:01 of Utc kind is one second; of Local kind it is one second less
      the host's offset from UTC; of Unspecified kind it is refused, and of Utc kind with
      the local zone it is refused too, on every host: by the constructor's own check when
      the local zone is not UTC, and by `ConvertTimeToUtc` when it is. */
  lemma ConstructionScenario(host: Host, offsetSeconds: int)
    requires -50400 <= offsetSeconds <= 50400
    requires host.localToUtc(CalendarTicks(1970, 1, 1, 0, 0, 1, 0))
               == CalendarTicks(1970, 1, 1, 0, 0, 1, 0) - offsetSeconds * TicksPerSecond
    ensures var t := NewTimestamp(host, DateTime(CalendarTicks(1970, 1, 1, 0, 0, 1, 0), Utc));
            t.Success? && ToValue(t.value, 0) == Success(1)
    ensures var t := NewTimestamp(host, DateTime(CalendarTicks(1970, 1, 1, 0, 0, 1, 0), Local));
            t.Success? && ToValue(t.value, 0) == Success(1 - offsetSeconds)
    ensures NewTimestamp(host, DateTime(CalendarTicks(1970, 1, 1, 0, 0, 1, 0), Unspecified)) == Failure(UnspecifiedKind)
    ensures var r := NewTimestampInZone(host, DateTime(CalendarTicks(1970, 1, 1, 0, 0, 1, 0), Utc), LocalZone);
            r.Failure? && IsArgumentException(r.error) &&
            r.error == (if host.localId == "UTC" then KindMismatch else TimeZoneMismatch)
  {
    var t := NewTimestamp(host, DateTime(CalendarTicks(1970, 1, 1, 0, 0, 1, 0), Local)).value;
    assert t.utcTicks - EpochTicks == (1 - offsetSeconds) * Pow10(7);
    TruncDivExact(1 - offsetSeconds, Pow10(7));
  }

  lemma TextOfSeconds1999()
    ensures LongToString(936868149) == "936868149"
  {
    AppendDigit(9, 3);
    AppendDigit(93, 6);
    AppendDigit(936, 8);
    AppendDigit(9368, 6);
    AppendDigit(93686, 8);
    AppendDigit(936868, 1);
    AppendDigit(9368681, 4);
    AppendDigit(93686814, 9);
  }

  lemma TextOfMilliseconds1999()
    ensures LongToString(936868149000) == "936868149000"
  {
    TextOfSeconds1999();
    AppendDigit(936868149, 0);
    AppendDigit(9368681490, 0);
    AppendDigit(93686814900, 0);
  }

  /** Counts of one second, one millisecond and of 1999-09-09T09:09:09. */
  lemma ParseLongScenario()
    ensures TryParseLong(1, 0) == Success(Some(Timestamp(CalendarTicks(1970, 1, 1, 0, 0, 1, 0))))
    ensures TryParseLong(1, 3) == Success(Some(Timestamp(CalendarTicks(1970, 1, 1, 0, 0, 0, 1))))
    ensures TryParseLong(936868149, 0) == Success(Some(Timestamp(CalendarTicks(1999, 9, 9, 9, 9, 9, 0))))
  {
  }

  /** The same counts given as text. */
  lemma ParseStringScenario()
    ensures TryParseString("1", 0) == Success(Some(Timestamp(CalendarTicks(1970, 1, 1, 0, 0, 1, 0))))
    ensures TryParseString("1", 3) == Success(Some(Timestamp(CalendarTicks(1970, 1, 1, 0, 0, 0, 1))))
    ensures TryParseString("936868149", 0) == Success(Some(Timestamp(CalendarTicks(1999, 9, 9, 9, 9, 9, 0))))
  {
    ParseLongScenario();
    TryParseStringOfText(1, 0);
    TryParseStringOfText(1, 3);
    TryParseStringOfText(936868149, 0);
    assert LongToString(1) == "1";
    TextOfSeconds1999();
  }

  /** 1.234 seconds after the epoch is 1 whole second and 1234 milliseconds. */
  lemma FractionScenario(host: Host)
    ensures var t := NewTimestamp(host, DateTime(CalendarTicks(1970, 1, 1, 0, 0, 1, 234), Utc)).value;
            ToValue(t, 0) == Success(1) && ToValue(t, 3) == Success(1234) &&
            ToStringSeconds(t) == "1" && ToStringWithDigits(t, 3) == Success("1234")
  {
    CalendarCounts(host, 1970, 1, 1, 0, 0, 1, 234);
    assert LongToString(1) == "1";
    TextOf1234();
  }

  lemma TextOf1234()
    ensures LongToString(1234) == "1234"
  {
    AppendDigit(1, 2);
    AppendDigit(12, 3);
    AppendDigit(123, 4);
  }

  /** 1999-09-09T09:09:09 is 936868149 seconds and 936868149000 milliseconds. */
  lemma Date1999Scenario(host: Host)
    ensures var t := NewTimestamp(host, DateTime(CalendarTicks(1999, 9, 9, 9, 9, 9, 0), Utc)).value;
            ToValue(t, 0) == Success(936868149) && ToValue(t, 3) == Success(936868149000) &&
            ToStringSeconds(t) == "936868149" && ToStringWithDigits(t, 3) == Success("936868149000")
  {
    Date1999Counts(host);
    TextOfSeconds1999();
    TextOfMilliseconds1999();
  }

  lemma Date1999Counts(host: Host)
    ensures var t := NewTimestamp(host, DateTime(CalendarTicks(1999, 9, 9, 9, 9, 9, 0), Utc)).value;
            ToValue(t, 0) == Success(936868149) && ToValue(t, 3) == Success(936868149000)
  {
    CalendarCounts(host, 1999, 9, 9, 9, 9, 9, 0);
    assert DayNumber(1999, 9, 9) - DayNumber(1970, 1, 1) == 10843;
  }

  /** The last millisecond before year 10000 parses; the next one does not. */
  lemma BoundaryScenario()
    ensures TryParseLong(253402300799999, 3) == Success(Some(Timestamp(CalendarTicks(9999, 12, 31, 23, 59, 59, 999))))
    ensures TryParseLong(253402300800000, 3) == Success(None)
    ensures TryParseLong(253402300800, 0) == Success(None)
  {
  }
}
