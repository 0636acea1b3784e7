/** The per-point classifiers of `get_trajectory_metadata.py`: compass label of a heading,
    weekday, day type, time type, time bin, and the difference of two timestamps. */
module TrajectoryMetadata {
  import opened Wrappers
  import opened Constants
  import opened Timestamps

  /** What `return_datetime_type` may be handed. `PandasTimestamp` is an instance of a
      strict subclass of `datetime.datetime`, such as a pandas `Timestamp`. */
  datatype Stamp =
    | DateTimeObject(dt: DateTime)
    | PandasTimestamp(dt: DateTime)
    | Text(s: string)
    | OtherObject

  /** A `datetime` object always holds fields in range. */
  predicate StampValid(p: Stamp) {
    (p.DateTimeObject? || p.PandasTimestamp?) ==> Valid(p.dt)
  }

  /** `return_datetime_type`: a `datetime` unchanged, text through `strptime`, and
      `TypeError` otherwise. A strict subclass of `datetime` passes the first test but
      not `type(p) == datetime.datetime`, so it goes to `strptime`, which raises
      `TypeError` on a non-string. */
  function ToDateTime(p: Stamp): (r: Result<DateTime>)
    requires StampValid(p)
    ensures r.Ok? ==> Valid(r.value)
  {
    match p
    case DateTimeObject(dt) => Ok(dt)
    case PandasTimestamp(_) => Err(TypeError)
    case Text(s) => Parse(s)
    case OtherObject => Err(TypeError)
  }

  /** The outcomes of `return_datetime_type`, case by case. */
  lemma ToDateTimeCases(p: Stamp)
    requires StampValid(p)
    ensures p.DateTimeObject? ==> ToDateTime(p) == Ok(p.dt)
    ensures ToDateTime(p) == Err(TypeError) <==> p.PandasTimestamp? || p.OtherObject?
    ensures p.Text? ==> ToDateTime(p) == Parse(p.s)
  {
  }

  /** A timestamp written as text in the trajectory file's format reads back as itself. */
  lemma ToDateTimeOfFormat(dt: DateTime)
    requires Valid(dt) && dt.microsecond == 0
    ensures ToDateTime(Text(Format(dt))) == Ok(dt)
  {
    ParseFormat(dt);
  }

  /** A timedelta in hours, its microseconds divided by `microsDivisor`. */
  function InHours(d: Timedelta, microsDivisor: real): real
    requires microsDivisor > 0.0
  {
    (d.days * 24) as real + d.seconds as real / 3600.0 + d.microseconds as real / microsDivisor
  }

  /** A timedelta in minutes, its microseconds divided by `microsDivisor`. */
  function InMinutes(d: Timedelta, microsDivisor: real): real
    requires microsDivisor > 0.0
  {
    (d.days * 1440) as real + d.seconds as real / 60.0 + d.microseconds as real / microsDivisor
  }

  /** `time_difference(p_1, p_2, units)` as written: the microseconds of the difference are
      divided by the number of milliseconds in an hour (or a minute). */
  function TimeDifferenceAsWritten(p1: Stamp, p2: Stamp, units: string): Result<real>
    requires StampValid(p1) && StampValid(p2)
  {
    match ToDateTime(p1)
    case Err(e) => Err(e)
    case Ok(dt1) =>
      match ToDateTime(p2)
      case Err(e) => Err(e)
      case Ok(dt2) =>
        var d := Subtract(dt2, dt1);
        if units == "hours" then
          Ok(InHours(d, 3600000.0))
        else if units == "minutes" then
          Ok(InMinutes(d, 60000.0))
        else Err(ValueError)
  }

  /** `time_difference` with the microseconds divided by the microseconds in an hour
      (or a minute), so that the result is the exact length of the interval. */
  function TimeDifference(p1: Stamp, p2: Stamp, units: string): Result<real>
    requires StampValid(p1) && StampValid(p2)
  {
    match ToDateTime(p1)
    case Err(e) => Err(e)
    case Ok(dt1) =>
      match ToDateTime(p2)
      case Err(e) => Err(e)
      case Ok(dt2) =>
        var d := Subtract(dt2, dt1);
        if units == "hours" then
          Ok(InHours(d, 3600000000.0))
        else if units == "minutes" then
          Ok(InMinutes(d, 60000000.0))
        else Err(ValueError)
  }

  /** The exact length in minutes of the interval from `dt1` to `dt2`. */
  function MinutesBetween(dt1: DateTime, dt2: DateTime): real
    requires Valid(dt1) && Valid(dt2)
  {
    (TotalMicros(dt2) - TotalMicros(dt1)) as real / 60000000.0
  }

  function HoursBetween(dt1: DateTime, dt2: DateTime): real
    requires Valid(dt1) && Valid(dt2)
  {
    (TotalMicros(dt2) - TotalMicros(dt1)) as real / 3600000000.0
  }

  lemma MicrosAsMinutes(d: Timedelta)
    ensures InMinutes(d, 60000000.0)
      == TotalOf(d) as real / 60000000.0
  {
  }

  lemma MicrosAsHours(d: Timedelta)
    ensures InHours(d, 3600000000.0)
      == TotalOf(d) as real / 3600000000.0
  {
  }

  /** In minutes, the difference is the exact length of the interval. */
  lemma TimeDifferenceMinutes(p1: Stamp, p2: Stamp)
    requires StampValid(p1) && StampValid(p2) && ToDateTime(p1).Ok? && ToDateTime(p2).Ok?
    ensures TimeDifference(p1, p2, "minutes") == Ok(MinutesBetween(ToDateTime(p1).value, ToDateTime(p2).value))
  {
    var dt1, dt2 := ToDateTime(p1).value, ToDateTime(p2).value;
    var d := Subtract(dt2, dt1);
    MicrosAsMinutes(d);
    assert TimeDifference(p1, p2, "minutes") == Ok(TotalOf(d) as real / 60000000.0);
  }

  /** In hours, likewise. */
  lemma TimeDifferenceHours(p1: Stamp, p2: Stamp)
    requires StampValid(p1) && StampValid(p2) && ToDateTime(p1).Ok? && ToDateTime(p2).Ok?
    ensures TimeDifference(p1, p2, "hours") == Ok(HoursBetween(ToDateTime(p1).value, ToDateTime(p2).value))
  {
    var dt1, dt2 := ToDateTime(p1).value, ToDateTime(p2).value;
    var d := Subtract(dt2, dt1);
    MicrosAsHours(d);
    assert TimeDifference(p1, p2, "hours") == Ok(TotalOf(d) as real / 3600000000.0);
  }

  /** The errors are those of converting the first argument, then the second, then
      `ValueError` for a unit other than hours and minutes. */
  lemma TimeDifferenceErrors(p1: Stamp, p2: Stamp, units: string)
    requires StampValid(p1) && StampValid(p2)
    ensures ToDateTime(p1).Err? ==> TimeDifference(p1, p2, units) == Err(ToDateTime(p1).error)
    ensures ToDateTime(p1).Ok? && ToDateTime(p2).Err? ==> TimeDifference(p1, p2, units) == Err(ToDateTime(p2).error)
    ensures ToDateTime(p1).Ok? && ToDateTime(p2).Ok? ==>
      (TimeDifference(p1, p2, units).Err? <==> units != "hours" && units != "minutes")
    ensures TimeDifference(p1, p2, units).Err? && ToDateTime(p1).Ok? && ToDateTime(p2).Ok? ==>
      TimeDifference(p1, p2, units).error == ValueError
  {
  }

  /** The difference is negative exactly when the second time comes first. */
  lemma TimeDifferenceSign(dt1: DateTime, dt2: DateTime)
    requires Valid(dt1) && Valid(dt2)
    ensures TimeDifference(DateTimeObject(dt1), DateTimeObject(dt2), "minutes") == Ok(MinutesBetween(dt1, dt2))
    ensures MinutesBetween(dt1, dt2) < 0.0 <==> TotalMicros(dt2) < TotalMicros(dt1)
  {
    TimeDifferenceMinutes(DateTimeObject(dt1), DateTimeObject(dt2));
  }

  /** On whole-second differences, which is all that text timestamps produce, the
      formula as written is exact. */
  lemma TimeDifferenceAsWrittenWholeSeconds(p1: Stamp, p2: Stamp, units: string)
    requires StampValid(p1) && StampValid(p2)
    requires ToDateTime(p1).Ok? && ToDateTime(p2).Ok?
    requires ToDateTime(p1).value.microsecond == ToDateTime(p2).value.microsecond
    ensures TimeDifferenceAsWritten(p1, p2, units) == TimeDifference(p1, p2, units)
  {
    var dt1, dt2 := ToDateTime(p1).value, ToDateTime(p2).value;
    SubtractWholeSeconds(dt2, dt1);
  }

  /** Half a second apart, the formula as written gives 8.33 minutes instead of 1/120. */
  lemma TimeDifferenceAsWrittenHalfSecond()
    ensures TimeDifferenceAsWritten(DateTimeObject(DateTime(2020, 1, 1, 0, 0, 0, 0)),
                                    DateTimeObject(DateTime(2020, 1, 1, 0, 0, 0, 500000)), "minutes")
      == Ok(500000.0 / 60000.0)
    ensures TimeDifference(DateTimeObject(DateTime(2020, 1, 1, 0, 0, 0, 0)),
                           DateTimeObject(DateTime(2020, 1, 1, 0, 0, 0, 500000)), "minutes")
      == Ok(1.0 / 120.0)
  {
    var a, b := DateTime(2020, 1, 1, 0, 0, 0, 0), DateTime(2020, 1, 1, 0, 0, 0, 500000);
    assert TotalMicros(b) - TotalMicros(a) == 500000;
    NormalisedUnique(Subtract(b, a), Timedelta(0, 0, 500000));
  }

  /** `get_compass_dir`: the compass label of a heading in degrees.
      N covers `[337.5, 360]` and `[0, 22.5)`; headings outside `[0, 360]` are a `ValueError`. */
  function CompassDir(x: real): Result<Heading>
  {
    if 337.5 <= x <= 360.0 || 0.0 <= x < 22.5 then Ok(N)
    else if 22.5 <= x < 67.5 then Ok(NE)
    else if 67.5 <= x < 112.5 then Ok(E)
    else if 112.5 <= x < 157.5 then Ok(SE)
    else if 157.5 <= x < 202.5 then Ok(S)
    else if 202.5 <= x < 247.5 then Ok(SW)
    else if 247.5 <= x < 292.5 then Ok(W)
    else if 292.5 <= x < 337.5 then Ok(NW)
    else Err(ValueError)
  }

  /** Every heading in `[0, 360]` gets a label, and no other heading does. */
  lemma CompassDirTotal(x: real)
    ensures CompassDir(x).Ok? <==> 0.0 <= x <= 360.0
    ensures CompassDir(x).Err? ==> CompassDir(x).error == ValueError
  {
  }

  /** A label other than N is given exactly on its `HEADING_DICT` sector. */
  lemma CompassDirSector(x: real, h: Heading)
    requires h != N
    ensures CompassDir(x) == Ok(h) <==> InSector(h, x)
  {
  }

  /** N is given on `[337.5, 360]` and `[0, 22.5)`, so 360 itself is north. */
  lemma CompassDirNorth(x: real)
    ensures CompassDir(x) == Ok(N) <==> (337.5 <= x <= 360.0 || 0.0 <= x < 22.5)
    ensures CompassDir(360.0) == Ok(N)
  {
  }

  /** `get_day`: the ISO weekday. */
  function Day(p: Stamp): Result<int>
    requires StampValid(p)
  {
    match ToDateTime(p)
    case Err(e) => Err(e)
    case Ok(dt) =>
      var w := IsoWeekday(dt);
      if 1 <= w <= 7 then Ok(w) else Err(ValueError)
  }

  /** `get_day_type`: 1 on a weekday, 0 at the weekend. */
  function DayType(p: Stamp): Result<int>
    requires StampValid(p)
  {
    match ToDateTime(p)
    case Err(e) => Err(e)
    case Ok(dt) =>
      var w := IsoWeekday(dt);
      if 1 <= w <= 5 then Ok(1)
      else if 6 <= w <= 7 then Ok(0)
      else Err(ValueError)
  }

  /** `get_time_type`: 1 from 04:00 to 18:59, -1 otherwise. */
  function TimeType(p: Stamp): Result<int>
    requires StampValid(p)
  {
    match ToDateTime(p)
    case Err(e) => Err(e)
    case Ok(dt) =>
      var h := dt.hour;
      if 0 <= h < 4 then Ok(-1)
      else if 4 <= h <= 18 then Ok(1)
      else if 18 < h <= 23 then Ok(-1)
      else Err(ValueError)
  }

  /** The weekday is in 1..7, and each classifier fails only when the conversion does. */
  lemma DayClassifiers(p: Stamp)
    requires StampValid(p)
    ensures Day(p).Ok? <==> ToDateTime(p).Ok?
    ensures DayType(p).Ok? <==> ToDateTime(p).Ok?
    ensures TimeType(p).Ok? <==> ToDateTime(p).Ok?
    ensures Day(p).Ok? ==> 1 <= Day(p).value <= 7 && Day(p).value == IsoWeekday(ToDateTime(p).value)
    ensures DayType(p).Ok? ==> (DayType(p).value == 1 <==> Day(p).value <= 5)
    ensures DayType(p).Ok? ==> (DayType(p).value == 0 <==> Day(p).value >= 6)
    ensures TimeType(p).Ok? ==> (TimeType(p).value == 1 <==> 4 <= ToDateTime(p).value.hour <= 18)
    ensures TimeType(p).Ok? ==> (TimeType(p).value == -1 <==> !(4 <= ToDateTime(p).value.hour <= 18))
  {
    match ToDateTime(p)
    case Err(_) =>
    case Ok(dt) =>
      assert Valid(dt);
  }

  /** 1 January 2024 was a Monday, here at half past eight: a working day, daytime. */
  lemma NewYear2024()
    ensures Day(DateTimeObject(DateTime(2024, 1, 1, 8, 30, 0, 0))) == Ok(1)
    ensures DayType(DateTimeObject(DateTime(2024, 1, 1, 8, 30, 0, 0))) == Ok(1)
    ensures TimeType(DateTimeObject(DateTime(2024, 1, 1, 8, 30, 0, 0))) == Ok(1)
  {
    assert 2023 / 4 == 505 && 2023 / 100 == 20 && 2023 / 400 == 5;
    assert DaysBeforeYear(2024) == 738885;
    assert DaysBeforeMonth(2024, 1) == 0;
    assert Ordinal(DateTime(2024, 1, 1, 8, 30, 0, 0)) == 738886;
    assert (738886 + 6) % 7 == 0;
  }

  /** A Python value handed to `get_time_bin`. */
  datatype Value = IntValue(i: int) | FloatValue(r: real) | TextValue(s: string)

  /** Python's `+` on two such values. */
  function Add(a: Value, b: Value): Result<Value>
  {
    match (a, b)
    case (IntValue(x), IntValue(y)) => Ok(IntValue(x + y))
    case (IntValue(x), FloatValue(y)) => Ok(FloatValue(x as real + y))
    case (FloatValue(x), IntValue(y)) => Ok(FloatValue(x + y as real))
    case (FloatValue(x), FloatValue(y)) => Ok(FloatValue(x + y))
    case (TextValue(x), TextValue(y)) => Ok(TextValue(x + y))
    case _ => Err(TypeError)
  }

  /** `get_time_bin` as written: the guard raises only when neither argument is an int. */
  function TimeBinAsWritten(d: Value, t: Value): Result<Value>
  {
    if !d.IntValue? && !t.IntValue? then Err(TypeError) else Add(d, t)
  }

  /** A float time type gets past the guard and yields a fractional bin. */
  lemma TimeBinAsWrittenAcceptsFloat()
    ensures TimeBinAsWritten(IntValue(1), FloatValue(0.5)) == Ok(FloatValue(1.5))
    ensures TimeBin(IntValue(1), FloatValue(0.5)) == Err(TypeError)
  {
  }

  /** `get_time_bin` with the guard its message describes: both arguments must be ints. */
  function TimeBin(d: Value, t: Value): Result<Value>
  {
    if !d.IntValue? || !t.IntValue? then Err(TypeError) else Add(d, t)
  }

  /** The corrected bin is defined exactly on two ints, and is their sum. */
  lemma TimeBinSpec(d: Value, t: Value)
    ensures TimeBin(d, t).Ok? <==> d.IntValue? && t.IntValue?
    ensures TimeBin(d, t).Ok? ==> TimeBin(d, t).value == IntValue(d.i + t.i)
    ensures TimeBin(d, t).Err? ==> TimeBin(d, t).error == TypeError
  {
  }

  /** With a day type and a time type, the bin is one of -1, 0, 1, 2. */
  lemma TimeBinRange(p: Stamp)
    requires StampValid(p) && ToDateTime(p).Ok?
    ensures DayType(p).Ok? && TimeType(p).Ok?
    ensures TimeBin(IntValue(DayType(p).value), IntValue(TimeType(p).value)).Ok?
    ensures TimeBin(IntValue(DayType(p).value), IntValue(TimeType(p).value)).value.i in {-1, 0, 1, 2}
  {
  }
}
