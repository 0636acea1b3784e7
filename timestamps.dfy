/** Python's `datetime`: the calendar fields, `isoweekday`, subtraction giving a
    normalised `timedelta`, and `strptime` / `strftime` with the format
    `'%Y-%m-%d %H:%M:%S'` that the trajectory files use. */
module Timestamps {
  import opened Wrappers

  datatype DateTime = DateTime(year: int, month: int, day: int,
                               hour: int, minute: int, second: int, microsecond: int)

  predicate IsLeap(y: int) {
    y % 4 == 0 && (y % 100 != 0 || y % 400 == 0)
  }

  function DaysInMonth(y: int, m: int): int
    requires 1 <= m <= 12
  {
    if m == 2 then (if IsLeap(y) then 29 else 28)
    else if m == 4 || m == 6 || m == 9 || m == 11 then 30
    else 31
  }

  function DaysInYear(y: int): int {
    if IsLeap(y) then 366 else 365
  }

  /** The ranges `datetime` accepts for each field. */
  predicate Valid(dt: DateTime) {
    && 1 <= dt.year <= 9999
    && 1 <= dt.month <= 12
    && 1 <= dt.day <= DaysInMonth(dt.year, dt.month)
    && 0 <= dt.hour < 24
    && 0 <= dt.minute < 60
    && 0 <= dt.second < 60
    && 0 <= dt.microsecond < 1000000
  }

  /** A `datetime` object: its fields are always in range. */
  type ValidDateTime = dt: DateTime | Valid(dt) witness DateTime(1, 1, 1, 0, 0, 0, 0)

  /** Days in the years before `y` of the proleptic Gregorian calendar. */
  function DaysBeforeYear(y: int): int
    requires y >= 1
  {
    var z := y - 1;
    365 * z + z / 4 - z / 100 + z / 400
  }

  /** Days in the months of year `y` before month `m`, from the cumulative table
      `datetime` keeps for a common year plus a leap day after February. */
  function DaysBeforeMonth(y: int, m: int): int
    requires 1 <= m <= 12
  {
    [0, 31, 59, 90, 120, 151, 181, 212, 243, 273, 304, 334][m - 1]
      + (if m > 2 && IsLeap(y) then 1 else 0)
  }

  /** The table agrees with the month lengths. */
  lemma DaysBeforeNextMonth(y: int, m: int)
    requires 1 <= m < 12
    ensures DaysBeforeMonth(y, m + 1) == DaysBeforeMonth(y, m) + DaysInMonth(y, m)
  {
  }

  /** `toordinal()`: 1 for 1 January of year 1. */
  function Ordinal(dt: DateTime): int
    requires Valid(dt)
  {
    DaysBeforeYear(dt.year) + DaysBeforeMonth(dt.year, dt.month) + dt.day
  }

  /** `isoweekday()`: 1 for Monday through 7 for Sunday; 1 January of year 1 was a Monday. */
  function IsoWeekday(dt: DateTime): (w: int)
    requires Valid(dt)
    ensures 1 <= w <= 7
  {
    (Ordinal(dt) + 6) % 7 + 1
  }

  lemma DaysBeforeNextYear(y: int)
    requires y >= 1
    ensures DaysBeforeYear(y + 1) == DaysBeforeYear(y) + DaysInYear(y)
  {
    var z := y - 1;
    assert y / 4 == z / 4 + (if y % 4 == 0 then 1 else 0);
    assert y / 100 == z / 100 + (if y % 100 == 0 then 1 else 0);
    assert y / 400 == z / 400 + (if y % 400 == 0 then 1 else 0);
  }

  lemma DaysBeforeDecember(y: int)
    ensures DaysBeforeMonth(y, 12) + 31 == DaysInYear(y)
  {
  }

  /** The calendar date after that of `dt`, at the same time of day. */
  function NextDay(dt: DateTime): DateTime
    requires Valid(dt)
  {
    if dt.day < DaysInMonth(dt.year, dt.month) then dt.(day := dt.day + 1)
    else if dt.month < 12 then dt.(month := dt.month + 1, day := 1)
    else dt.(year := dt.year + 1, month := 1, day := 1)
  }

  /** Consecutive dates have consecutive ordinals. */
  lemma OrdinalNextDay(dt: DateTime)
    requires Valid(dt) && !(dt.year == 9999 && dt.month == 12 && dt.day == 31)
    ensures Valid(NextDay(dt)) && Ordinal(NextDay(dt)) == Ordinal(dt) + 1
  {
    if dt.day == DaysInMonth(dt.year, dt.month) && dt.month == 12 {
      DaysBeforeNextYear(dt.year);
      DaysBeforeDecember(dt.year);
    }
  }

  /** The weekday advances by one each day, Sunday (7) wrapping to Monday (1). */
  lemma IsoWeekdayNextDay(dt: DateTime)
    requires Valid(dt) && !(dt.year == 9999 && dt.month == 12 && dt.day == 31)
    ensures Valid(NextDay(dt)) && IsoWeekday(NextDay(dt)) == IsoWeekday(dt) % 7 + 1
  {
    OrdinalNextDay(dt);
    WeekdayStep(Ordinal(dt));
  }

  lemma WeekdayStep(o: int)
    ensures (o + 1 + 6) % 7 + 1 == ((o + 6) % 7 + 1) % 7 + 1
  {
    var w := (o + 6) % 7;
    assert o + 6 == 7 * ((o + 6) / 7) + w;
    assert o + 7 == 7 * ((o + 6) / 7) + w + 1;
    if w < 6 {
      assert (o + 7) % 7 == w + 1;
    } else {
      assert o + 7 == 7 * ((o + 6) / 7 + 1);
    }
  }

  lemma {:induction false} DaysBeforeMonthMonotone(y: int, m1: int, m2: int)
    requires 1 <= m1 < m2 <= 12
    ensures DaysBeforeMonth(y, m1) + DaysInMonth(y, m1) <= DaysBeforeMonth(y, m2)
    decreases m2 - m1
  {
    DaysBeforeNextMonth(y, m1);
    if m1 + 1 < m2 {
      DaysBeforeMonthMonotone(y, m1 + 1, m2);
    }
  }

  lemma {:induction false} DaysBeforeYearMonotone(y1: int, y2: int)
    requires 1 <= y1 < y2
    ensures DaysBeforeYear(y1) + DaysInYear(y1) <= DaysBeforeYear(y2)
    decreases y2 - y1
  {
    DaysBeforeNextYear(y1);
    if y1 + 1 < y2 {
      DaysBeforeYearMonotone(y1 + 1, y2);
    }
  }

  lemma OrdinalWithinYear(dt: DateTime)
    requires Valid(dt)
    ensures DaysBeforeYear(dt.year) < Ordinal(dt) <= DaysBeforeYear(dt.year) + DaysInYear(dt.year)
  {
    if dt.month < 12 {
      DaysBeforeMonthMonotone(dt.year, dt.month, 12);
    }
    DaysBeforeDecember(dt.year);
  }

  /** Calendar dates in order have ordinals in order. */
  lemma OrdinalOrdered(a: DateTime, b: DateTime)
    requires Valid(a) && Valid(b)
    requires a.year < b.year || (a.year == b.year && (a.month < b.month || (a.month == b.month && a.day < b.day)))
    ensures Ordinal(a) < Ordinal(b)
  {
    if a.year < b.year {
      OrdinalWithinYear(a);
      OrdinalWithinYear(b);
      DaysBeforeYearMonotone(a.year, b.year);
    } else if a.month < b.month {
      DaysBeforeMonthMonotone(a.year, a.month, b.month);
    }
  }

  /** Microseconds since the start of the ordinal calendar. */
  function TotalMicros(dt: DateTime): int
    requires Valid(dt)
  {
    (((Ordinal(dt) * 24 + dt.hour) * 60 + dt.minute) * 60 + dt.second) * 1000000 + dt.microsecond
  }

  const MicrosPerDay: int := 86400000000

  /** A `timedelta`: `days` of any sign, then `0 <= seconds < 86400`, `0 <= microseconds < 10**6`. */
  datatype Timedelta = Timedelta(days: int, seconds: int, microseconds: int)

  function TotalOf(d: Timedelta): int {
    d.days * MicrosPerDay + d.seconds * 1000000 + d.microseconds
  }

  predicate Normalised(d: Timedelta) {
    0 <= d.seconds < 86400 && 0 <= d.microseconds < 1000000
  }

  /** `dt2 - dt1`, normalised as Python normalises a `timedelta`. */
  function Subtract(dt2: DateTime, dt1: DateTime): (d: Timedelta)
    requires Valid(dt2) && Valid(dt1)
    ensures Normalised(d)
    ensures TotalOf(d) == TotalMicros(dt2) - TotalMicros(dt1)
  {
    var t := TotalMicros(dt2) - TotalMicros(dt1);
    var q, r := t / MicrosPerDay, t % MicrosPerDay;
    assert t == q * MicrosPerDay + r && 0 <= r < MicrosPerDay;
    var sec, us := r / 1000000, r % 1000000;
    assert r == sec * 1000000 + us && 0 <= sec < 86400;
    Timedelta(q, sec, us)
  }

  /** A duration has exactly one normalised form, so `Subtract` is Python's. */
  lemma NormalisedUnique(a: Timedelta, b: Timedelta)
    requires Normalised(a) && Normalised(b) && TotalOf(a) == TotalOf(b)
    ensures a == b
  {
    var sa := a.seconds * 1000000 + a.microseconds;
    var sb := b.seconds * 1000000 + b.microseconds;
    assert 0 <= sa < MicrosPerDay && 0 <= sb < MicrosPerDay;
    assert a.days == b.days;
    assert sa == sb;
  }

  /** Two times with the same microsecond field differ by whole seconds. */
  lemma SubtractWholeSeconds(dt2: DateTime, dt1: DateTime)
    requires Valid(dt2) && Valid(dt1) && dt2.microsecond == dt1.microsecond
    ensures Subtract(dt2, dt1).microseconds == 0
  {
    var k := ((Ordinal(dt2) - Ordinal(dt1)) * 24 + dt2.hour - dt1.hour) * 3600
      + (dt2.minute - dt1.minute) * 60 + dt2.second - dt1.second;
    assert TotalMicros(dt2) - TotalMicros(dt1) == k * 1000000;
    var d := Timedelta(k / 86400, k % 86400, 0);
    assert TotalOf(d) == k * 1000000;
    NormalisedUnique(d, Subtract(dt2, dt1));
  }

  // ---- strptime / strftime with '%Y-%m-%d %H:%M:%S' ----

  predicate IsDigit(c: char) {
    '0' <= c <= '9'
  }

  function DigitChar(n: int): char
    requires 0 <= n < 10
  {
    (n + '0' as int) as char
  }

  /** `n` written with exactly `width` decimal digits, leading zeros included. */
  function Padded(n: int, width: nat): (s: string)
    requires n >= 0
    ensures |s| == width
    ensures forall i :: 0 <= i < |s| ==> IsDigit(s[i])
  {
    if width == 0 then [] else Padded(n / 10, width - 1) + [DigitChar(n % 10)]
  }

  /** The number a string of digits spells. */
  function DigitsValue(s: string): (n: int)
    requires forall i :: 0 <= i < |s| ==> IsDigit(s[i])
    ensures n >= 0
  {
    if s == [] then 0
    else
      var init := s[..|s| - 1];
      assert forall i :: 0 <= i < |init| ==> init[i] == s[i];
      assert IsDigit(s[|s| - 1]);
      DigitsValue(init) * 10 + (s[|s| - 1] as int - '0' as int)
  }

  function Pow10(n: nat): int {
    if n == 0 then 1 else 10 * Pow10(n - 1)
  }

  lemma {:induction false} DigitsValuePadded(n: int, width: nat)
    requires 0 <= n < Pow10(width)
    ensures DigitsValue(Padded(n, width)) == n
  {
    if width > 0 {
      DigitsValuePadded(n / 10, width - 1);
      var s := Padded(n, width);
      assert s[..|s| - 1] == Padded(n / 10, width - 1);
    }
  }

  lemma {:induction false} PaddedDigitsValue(s: string)
    requires forall i :: 0 <= i < |s| ==> IsDigit(s[i])
    ensures DigitsValue(s) < Pow10(|s|)
    ensures Padded(DigitsValue(s), |s|) == s
  {
    if s != [] {
      var init := s[..|s| - 1];
      PaddedDigitsValue(init);
      var v := DigitsValue(s);
      assert v / 10 == DigitsValue(init);
      assert s == init + [s[|s| - 1]];
    }
  }

  /** `strftime('%Y-%m-%d %H:%M:%S')`. */
  function Format(dt: DateTime): (s: string)
    requires Valid(dt)
    ensures |s| == 19
  {
    Padded(dt.year, 4) + "-" + Padded(dt.month, 2) + "-" + Padded(dt.day, 2) + " "
      + Padded(dt.hour, 2) + ":" + Padded(dt.minute, 2) + ":" + Padded(dt.second, 2)
  }

  /** Python's `\s` in a text pattern: the characters `str.isspace` accepts. */
  predicate IsSpace(c: char) {
    || '\U{0009}' <= c <= '\U{000D}' || '\U{001C}' <= c <= '\U{0020}'
    || c == '\U{0085}' || c == '\U{00A0}' || c == '\U{1680}' || '\U{2000}' <= c <= '\U{200A}'
    || c == '\U{2028}' || c == '\U{2029}' || c == '\U{202F}' || c == '\U{205F}' || c == '\U{3000}'
  }

  /** The length of the longest prefix of `s` whose characters all satisfy `p`. */
  function Span(p: char -> bool, s: string): (n: nat)
    ensures n <= |s|
    ensures forall i :: 0 <= i < n ==> p(s[i])
    ensures n == |s| || !p(s[n])
  {
    if s == [] || !p(s[0]) then 0 else 1 + Span(p, s[1..])
  }

  lemma {:induction false} SpanPrefix(p: char -> bool, t: string, rest: string)
    requires forall i :: 0 <= i < |t| ==> p(t[i])
    requires rest == [] || !p(rest[0])
    ensures Span(p, t + rest) == |t|
  {
    if t != [] {
      assert (t + rest)[1..] == t[1..] + rest;
      SpanPrefix(p, t[1..], rest);
    }
  }

  /** One of the fields `%m`, `%d`, `%H`, `%M`, `%S` written with digits at the front of
      `s`: its value and the rest of the text. The pattern `strptime` builds reads one or
      two digits there, and as no item of the format that follows such a field starts
      with a digit, the field is the whole run of digits. */
  function Number(s: string): Option<(int, string)> {
    var n := Span(IsDigit, s);
    if 1 <= n <= 2 then Some((DigitsValue(s[..n]), s[n..])) else None
  }

  /** The field `%d` at the front of `s`: as `Number`, or a space and one digit from 1 to 9. */
  function Day(s: string): Option<(int, string)> {
    if s != [] && s[0] == ' ' then
      if |s| >= 2 && '1' <= s[1] <= '9' then Some((s[1] as int - '0' as int, s[2..])) else None
    else Number(s)
  }

  /** The separator `c` and a field after it, at the front of `s`. */
  function After(c: char, s: string): Option<(int, string)> {
    if s == [] || s[0] != c then None else Number(s[1..])
  }

  /** `%H:%M:%S` filling the whole of `s`: the hour, minute and second it writes. */
  function Clock(s: string): Option<(int, int, int)> {
    match Number(s)
    case None => None
    case Some((hour, r1)) =>
      match After(':', r1)
      case None => None
      case Some((minute, r2)) =>
        match After(':', r2)
        case None => None
        case Some((second, r3)) => if r3 == [] then Some((hour, minute, second)) else None
  }

  /** The numbers that the pattern `strptime` builds from `'%Y-%m-%d %H:%M:%S'` picks out of
      `s`: four digits, `-`, a field, `-`, a day, a run of white space (the pattern's `\s+`
      for the space of the format), then the clock, with no characters left over. `None`
      when the text does not match. */
  function Fields(s: string): Option<DateTime> {
    if Span(IsDigit, s) != 4 then None else FromMonth(DigitsValue(s[..4]), s[4..])
  }

  /** `-`, the month, and the rest of the text after the year. */
  function FromMonth(year: int, s: string): Option<DateTime> {
    match After('-', s)
    case None => None
    case Some((month, r)) => FromDay(year, month, r)
  }

  /** `-`, the day, and the rest of the text after the month. */
  function FromDay(year: int, month: int, s: string): Option<DateTime> {
    if s == [] || s[0] != '-' then None
    else
      match Day(s[1..])
      case None => None
      case Some((day, r)) => FromClock(year, month, day, r)
  }

  /** The white space between date and time, then the clock to the end of the text. */
  function FromClock(year: int, month: int, day: int, s: string): Option<DateTime> {
    var g := Span(IsSpace, s);
    if g == 0 then None
    else
      match Clock(s[g..])
      case None => None
      case Some((hour, minute, second)) => Some(DateTime(year, month, day, hour, minute, second, 0))
  }

  /** `datetime.strptime(s, '%Y-%m-%d %H:%M:%S')`: `ValueError` when the text does not match
      the pattern or names a date or time that does not exist. The pattern also bounds the
      fields (month 1 to 12, day 1 to 31, hour 0 to 23, minute 0 to 59, second 0 to 61);
      every value it turns down `datetime` turns down as well, and both raise `ValueError`,
      so the numbers read are checked by `Valid` alone. */
  function Parse(s: string): (r: Result<DateTime>)
    ensures r.Ok? ==> Valid(r.value) && r.value.microsecond == 0
    ensures r.Err? ==> r.error == ValueError
  {
    match Fields(s)
    case None => Err(ValueError)
    case Some(dt) => if Valid(dt) then Ok(dt) else Err(ValueError)
  }

  /** A field of `w` digits can hold `v`: `w` is one or two. */
  predicate FieldFits(w: nat, v: int) {
    (w == 1 || w == 2) && 0 <= v < Pow10(w)
  }

  /** How the day of a time is written: with one or two digits, or as a space and a digit. */
  datatype DayForm = DayDigits(width: nat) | DaySpace

  predicate DayFits(f: DayForm, day: int) {
    match f
    case DayDigits(w) => FieldFits(w, day)
    case DaySpace => 1 <= day <= 9
  }

  function DayText(f: DayForm, day: int): string
    requires day >= 0
  {
    match f
    case DayDigits(w) => Padded(day, w)
    case DaySpace => " " + Padded(day, 1)
  }

  /** A way of writing a whole-second time that `strptime` reads with the trajectory files'
      format: the widths of month, hour, minute and second, the form of the day, and the
      white space between date and time. */
  datatype Spelling = Spelling(month: nat, day: DayForm, gap: string, hour: nat, minute: nat, second: nat)

  /** `sp` can write `dt`: each width holds its field and the gap is white space. */
  predicate Spells(sp: Spelling, dt: DateTime) {
    && FieldFits(sp.month, dt.month)
    && DayFits(sp.day, dt.day)
    && sp.gap != [] && (forall i :: 0 <= i < |sp.gap| ==> IsSpace(sp.gap[i]))
    && FieldFits(sp.hour, dt.hour)
    && FieldFits(sp.minute, dt.minute)
    && FieldFits(sp.second, dt.second)
  }

  /** The text of `dt` in spelling `sp`. */
  function Spell(dt: DateTime, sp: Spelling): string
    requires Valid(dt) && Spells(sp, dt)
  {
    Padded(dt.year, 4) + ("-" + (Padded(dt.month, sp.month) + ("-" + (DayText(sp.day, dt.day)
      + (sp.gap + ClockText(dt, sp))))))
  }

  /** The hour, minute and second of `dt` in spelling `sp`. */
  function ClockText(dt: DateTime, sp: Spelling): string
    requires Valid(dt) && Spells(sp, dt)
  {
    Padded(dt.hour, sp.hour) + (":" + (Padded(dt.minute, sp.minute) + (":" + Padded(dt.second, sp.second))))
  }

  /** The spelling `strftime` writes: every field zero-padded to two digits, one space. */
  const Canonical := Spelling(2, DayDigits(2), " ", 2, 2, 2)

  lemma FormatIsCanonical(dt: DateTime)
    requires Valid(dt)
    ensures Spells(Canonical, dt)
    ensures Format(dt) == Spell(dt, Canonical)
  {
  }

  lemma NumberOfPadded(v: int, w: nat, rest: string)
    requires FieldFits(w, v)
    requires rest == [] || !IsDigit(rest[0])
    ensures Number(Padded(v, w) + rest) == Some((v, rest))
  {
    var t := Padded(v, w) + rest;
    SpanPrefix(IsDigit, Padded(v, w), rest);
    assert t[..w] == Padded(v, w);
    assert t[w..] == rest;
    DigitsValuePadded(v, w);
  }

  lemma PaddedOfNumber(s: string) returns (w: nat)
    requires Number(s).Some?
    ensures FieldFits(w, Number(s).value.0)
    ensures s == Padded(Number(s).value.0, w) + Number(s).value.1
  {
    w := Span(IsDigit, s);
    PaddedDigitsValue(s[..w]);
    assert s == s[..w] + s[w..];
  }

  lemma AfterOfPadded(c: char, v: int, w: nat, rest: string)
    requires FieldFits(w, v)
    requires rest == [] || !IsDigit(rest[0])
    ensures After(c, [c] + (Padded(v, w) + rest)) == Some((v, rest))
  {
    assert ([c] + (Padded(v, w) + rest))[1..] == Padded(v, w) + rest;
    NumberOfPadded(v, w, rest);
  }

  lemma PaddedOfAfter(c: char, s: string) returns (w: nat)
    requires After(c, s).Some?
    ensures FieldFits(w, After(c, s).value.0)
    ensures s == [c] + (Padded(After(c, s).value.0, w) + After(c, s).value.1)
  {
    w := PaddedOfNumber(s[1..]);
    assert s == [c] + s[1..];
  }

  lemma DayOfText(f: DayForm, day: int, rest: string)
    requires DayFits(f, day)
    requires rest == [] || !IsDigit(rest[0])
    ensures Day(DayText(f, day) + rest) == Some((day, rest))
  {
    match f
    case DayDigits(w) =>
      NumberOfPadded(day, w, rest);
    case DaySpace =>
      var t := DayText(f, day) + rest;
      assert Padded(day, 1) == [DigitChar(day)];
      assert t[2..] == rest;
  }

  lemma TextOfDay(s: string) returns (f: DayForm)
    requires Day(s).Some?
    ensures DayFits(f, Day(s).value.0)
    ensures s == DayText(f, Day(s).value.0) + Day(s).value.1
  {
    if s[0] == ' ' {
      f := DaySpace;
      var day := Day(s).value.0;
      assert Padded(day, 1) == [DigitChar(day)];
      assert s == [s[0], s[1]] + s[2..];
    } else {
      var w := PaddedOfNumber(s);
      f := DayDigits(w);
    }
  }

  lemma ClockOfText(dt: DateTime, sp: Spelling)
    requires Valid(dt) && Spells(sp, dt)
    ensures Clock(ClockText(dt, sp)) == Some((dt.hour, dt.minute, dt.second))
  {
    var r2 := ":" + Padded(dt.second, sp.second);
    var r1 := ":" + (Padded(dt.minute, sp.minute) + r2);
    assert Padded(dt.second, sp.second) + [] == Padded(dt.second, sp.second);
    AfterOfPadded(':', dt.second, sp.second, []);
    AfterOfPadded(':', dt.minute, sp.minute, r2);
    NumberOfPadded(dt.hour, sp.hour, r1);
  }

  lemma TextOfClock(s: string, hour: int, minute: int, second: int) returns (wh: nat, wm: nat, ws: nat)
    requires Clock(s) == Some((hour, minute, second))
    ensures FieldFits(wh, hour) && FieldFits(wm, minute) && FieldFits(ws, second)
    ensures s == Padded(hour, wh) + (":" + (Padded(minute, wm) + (":" + Padded(second, ws))))
  {
    wh := PaddedOfNumber(s);
    var r1 := Number(s).value.1;
    wm := PaddedOfAfter(':', r1);
    var r2 := After(':', r1).value.1;
    ws := PaddedOfAfter(':', r2);
    assert After(':', r2).value.1 == [];
    assert Padded(second, ws) + [] == Padded(second, ws);
  }

  lemma FromClockOfText(dt: DateTime, sp: Spelling)
    requires Valid(dt) && Spells(sp, dt)
    ensures FromClock(dt.year, dt.month, dt.day, sp.gap + ClockText(dt, sp)) == Some(dt.(microsecond := 0))
  {
    var c := ClockText(dt, sp);
    ClockOfText(dt, sp);
    assert IsDigit(c[0]);
    SpanPrefix(IsSpace, sp.gap, c);
    assert (sp.gap + c)[|sp.gap|..] == c;
  }

  lemma FromDayOfText(dt: DateTime, sp: Spelling)
    requires Valid(dt) && Spells(sp, dt)
    ensures FromDay(dt.year, dt.month, "-" + (DayText(sp.day, dt.day) + (sp.gap + ClockText(dt, sp))))
      == Some(dt.(microsecond := 0))
  {
    var r := sp.gap + ClockText(dt, sp);
    var t := "-" + (DayText(sp.day, dt.day) + r);
    FromClockOfText(dt, sp);
    assert IsSpace(r[0]);
    DayOfText(sp.day, dt.day, r);
    assert t[1..] == DayText(sp.day, dt.day) + r;
  }

  lemma FromMonthOfText(dt: DateTime, sp: Spelling)
    requires Valid(dt) && Spells(sp, dt)
    ensures FromMonth(dt.year, "-" + (Padded(dt.month, sp.month) + ("-" + (DayText(sp.day, dt.day)
      + (sp.gap + ClockText(dt, sp)))))) == Some(dt.(microsecond := 0))
  {
    var r := "-" + (DayText(sp.day, dt.day) + (sp.gap + ClockText(dt, sp)));
    FromDayOfText(dt, sp);
    AfterOfPadded('-', dt.month, sp.month, r);
  }

  lemma FieldsOfSpell(dt: DateTime, sp: Spelling)
    requires Valid(dt) && Spells(sp, dt)
    ensures Fields(Spell(dt, sp)) == Some(dt.(microsecond := 0))
  {
    var t := "-" + (Padded(dt.month, sp.month) + ("-" + (DayText(sp.day, dt.day) + (sp.gap + ClockText(dt, sp)))));
    var s := Spell(dt, sp);
    assert s == Padded(dt.year, 4) + t;
    FromMonthOfText(dt, sp);
    SpanPrefix(IsDigit, Padded(dt.year, 4), t);
    assert s[..4] == Padded(dt.year, 4);
    assert s[4..] == t;
    DigitsValuePadded(dt.year, 4);
  }

  /** Every spelling of a whole-second time reads back as that time. */
  lemma ParseSpell(dt: DateTime, sp: Spelling)
    requires Valid(dt) && dt.microsecond == 0 && Spells(sp, dt)
    ensures Parse(Spell(dt, sp)) == Ok(dt)
  {
    FieldsOfSpell(dt, sp);
  }

  lemma TextOfFromClock(y: int, m: int, d: int, s: string, dt: DateTime) returns (gap: string, wh: nat, wm: nat, ws: nat)
    requires FromClock(y, m, d, s) == Some(dt)
    ensures dt.year == y && dt.month == m && dt.day == d && dt.microsecond == 0
    ensures gap != [] && forall i :: 0 <= i < |gap| ==> IsSpace(gap[i])
    ensures FieldFits(wh, dt.hour) && FieldFits(wm, dt.minute) && FieldFits(ws, dt.second)
    ensures s == gap + (Padded(dt.hour, wh) + (":" + (Padded(dt.minute, wm) + (":" + Padded(dt.second, ws)))))
  {
    var g := Span(IsSpace, s);
    gap := s[..g];
    forall i | 0 <= i < |gap|
      ensures IsSpace(gap[i])
    {
      assert gap[i] == s[i];
    }
    wh, wm, ws := TextOfClock(s[g..], dt.hour, dt.minute, dt.second);
    Rejoin(s, g);
  }

  lemma TextOfFromDay(y: int, m: int, s: string, dt: DateTime) returns (f: DayForm, rest: string)
    requires FromDay(y, m, s) == Some(dt)
    ensures DayFits(f, dt.day)
    ensures s == "-" + (DayText(f, dt.day) + rest)
    ensures FromClock(y, m, dt.day, rest) == Some(dt)
  {
    f := TextOfDay(s[1..]);
    rest := Day(s[1..]).value.1;
    Rejoin(s, 1);
    assert s[..1] == "-";
  }

  lemma TextOfFromMonth(y: int, s: string, dt: DateTime) returns (w: nat, rest: string)
    requires FromMonth(y, s) == Some(dt)
    ensures FieldFits(w, dt.month)
    ensures s == "-" + (Padded(dt.month, w) + rest)
    ensures FromDay(y, dt.month, rest) == Some(dt)
  {
    w := PaddedOfAfter('-', s);
    rest := After('-', s).value.1;
  }

  lemma SpellOfFields(s: string) returns (sp: Spelling)
    requires Fields(s).Some? && Valid(Fields(s).value)
    ensures Spells(sp, Fields(s).value) && Spell(Fields(s).value, sp) == s
  {
    var dt := Fields(s).value;
    var year := DigitsValue(s[..4]);
    var wm, r1 := TextOfFromMonth(year, s[4..], dt);
    var fd, r2 := TextOfFromDay(year, dt.month, r1, dt);
    var gap, wh, wmi, ws := TextOfFromClock(year, dt.month, dt.day, r2, dt);
    PaddedDigitsValue(s[..4]);
    Rejoin(s, 4);
    sp := Spelling(wm, fd, gap, wh, wmi, ws);
    assert Spells(sp, dt);
    assert r2 == sp.gap + ClockText(dt, sp);
    assert s == Padded(dt.year, 4) + ("-" + (Padded(dt.month, wm) + ("-" + (DayText(fd, dt.day) + r2))));
  }

  lemma Rejoin(s: string, k: nat)
    requires k <= |s|
    ensures s == s[..k] + s[k..]
  {
  }

  /** Nothing else reads: every text `strptime` accepts is a spelling of its result. */
  lemma SpellParse(s: string)
    requires Parse(s).Ok?
    ensures exists sp :: Spells(sp, Parse(s).value) && Spell(Parse(s).value, sp) == s
  {
    var sp := SpellOfFields(s);
  }

  /** Formatting a whole-second time and parsing it back gives the time. */
  lemma ParseFormat(dt: DateTime)
    requires Valid(dt) && dt.microsecond == 0
    ensures Parse(Format(dt)) == Ok(dt)
  {
    FormatIsCanonical(dt);
    ParseSpell(dt, Canonical);
  }

  /** What parses has zero microseconds, and its canonical text names the same time. */
  lemma FormatParse(s: string)
    requires Parse(s).Ok?
    ensures Parse(s).value.microsecond == 0
    ensures Parse(Format(Parse(s).value)) == Parse(s)
  {
    ParseFormat(Parse(s).value);
  }
}
