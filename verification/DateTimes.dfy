/** Date and time shifts: months, days and seconds, and conversion to and from seconds since 1970. */
module DateTimes {
  import opened Options
  import opened Calendar

  // ---------- days and months ----------

  method DateAddDays(d: Date, dias: int) returns (r: Date)
    ensures r == DateOf(DayNumber(d) + dias)
  {
    var total := DaysSinceEpoch(d);
    r := DateFromEpochDays(total + dias);
    AddedDays(r, DayNumber(d), dias);
  }

  lemma AddedDays(r: Date, n: int, dias: int)
    requires ValidDate(r) && DayNumber(r) == n + dias
    ensures r == DateOf(n + dias)
  {
    IsDateOf(r, n + dias);
  }

  function MinInt(a: int, b: int): int {
    if a < b then a else b
  }

  /** Months counted from January of year 0. */
  function MonthIndex(d: Date): int {
    12 * d.ano + d.mes - 1
  }

  /** The day `dia`, or the last day when the month is shorter, of a month given by its index. */
  function Clamped(index: int, dia: int): Date {
    var ano, mes := index / 12, index % 12 + 1;
    Date(ano, mes, MinInt(dia, DaysInMonth(ano, mes)))
  }

  function MonthShift(d: Date, meses: int): Date {
    Clamped(MonthIndex(d) + meses, d.dia)
  }

  method DateAddMonths(d: Date, meses: int) returns (r: Date)
    ensures r == MonthShift(d, meses)
  {
    var ano, mes := d.ano, d.mes + meses;
    while mes > 12
      invariant 12 * ano + mes - 1 == MonthIndex(d) + meses && (mes >= 1 || mes == d.mes + meses)
    {
      mes := mes - 12;
      ano := ano + 1;
    }
    while mes < 1
      invariant 12 * ano + mes - 1 == MonthIndex(d) + meses && mes <= 12
    {
      mes := mes + 12;
      ano := ano - 1;
    }
    IndexParts(ano, mes);
    var dia := MinInt(d.dia, DaysInMonth(ano, mes));
    return Date(ano, mes, dia);
  }

  lemma IndexParts(ano: int, mes: int)
    requires 1 <= mes <= 12
    ensures (12 * ano + mes - 1) / 12 == ano && (12 * ano + mes - 1) % 12 == mes - 1
  {
  }

  /** Shifting by months moves the month index by exactly the argument, stays valid, keeps the day when the
      month has it, and otherwise takes the last day. */
  lemma MonthShiftMeaning(d: Date, k: int)
    requires ValidDate(d)
    ensures var r := MonthShift(d, k);
            && ValidDate(r) && MonthIndex(r) == MonthIndex(d) + k && r.dia <= d.dia
            && (r.dia == d.dia || r.dia == DaysInMonth(r.ano, r.mes))
    ensures MonthShift(d, 0) == d
  {
    var i := MonthIndex(d) + k;
    MonthLength(i / 12, i % 12 + 1);
    IndexParts(d.ano, d.mes);
  }

  /** The length of the month with a given index. */
  function LengthOf(index: int): int {
    DaysInMonth(index / 12, index % 12 + 1)
  }

  /** Two shifts compose exactly when the day fits the month in between, or that month is no shorter than the
      last one. */
  lemma MonthShiftsCompose(d: Date, j: int, k: int)
    requires ValidDate(d)
    ensures var mid, last := LengthOf(MonthIndex(d) + j), LengthOf(MonthIndex(d) + j + k);
            MonthShift(MonthShift(d, j), k) == MonthShift(d, j + k) <==> d.dia <= mid || last <= mid
  {
    MonthShiftMeaning(d, j);
    MonthShiftMeaning(d, j + k);
    MonthShiftMeaning(MonthShift(d, j), k);
  }

  lemma EarlyDaysCompose(d: Date, j: int, k: int)
    requires ValidDate(d) && d.dia <= 28
    ensures MonthShift(MonthShift(d, j), k) == MonthShift(d, j + k)
    ensures MonthShift(MonthShift(d, j), -j) == d
  {
    MonthShiftMeaning(d, j);
    MonthShiftMeaning(d, j + k);
    MonthShiftMeaning(d, j - j);
    var mid := MonthShift(d, j);
    MonthLength(mid.ano, mid.mes);
    MonthShiftsCompose(d, j, k);
    MonthShiftsCompose(d, j, -j);
  }

  /** January 31 plus one month plus one month is March 28, not March 31. */
  lemma LateDaysDoNotCompose()
    ensures MonthShift(MonthShift(Date(2023, 1, 31), 1), 1) == Date(2023, 3, 28)
    ensures MonthShift(Date(2023, 1, 31), 2) == Date(2023, 3, 31)
  {
    LeapRule(2023);
    IndexParts(2023, 2);
    IndexParts(2023, 3);
    assert MonthShift(Date(2023, 1, 31), 1) == Clamped(12 * 2023 + 2 - 1, 31) == Date(2023, 2, 28);
    assert MonthShift(Date(2023, 2, 28), 1) == Clamped(12 * 2023 + 3 - 1, 28);
  }

  // ---------- date and time ----------

  datatype DateTime = DateTime(ano: int, mes: int, dia: int, hora: int, minuto: int, segundo: int, offsetUtc: int)

  function DateOfDateTime(dt: DateTime): Date {
    Date(dt.ano, dt.mes, dt.dia)
  }

  /** What `datetime_new` accepts. */
  predicate ValidDateTime(dt: DateTime) {
    && ValidDate(DateOfDateTime(dt))
    && 0 <= dt.hora <= 23 && 0 <= dt.minuto <= 59 && 0 <= dt.segundo <= 59
    && -720 <= dt.offsetUtc <= 840
  }

  function SecondsInDay(dt: DateTime): int {
    dt.hora * 3600 + dt.minuto * 60 + dt.segundo
  }

  function ToUnix(dt: DateTime): int {
    DayNumber(DateOfDateTime(dt)) * 86400 + SecondsInDay(dt) - dt.offsetUtc * 60
  }

  method DatetimeToUnix(dt: DateTime) returns (segundos: int)
    ensures segundos == ToUnix(dt)
  {
    var dias := DaysSinceEpoch(Date(dt.ano, dt.mes, dt.dia));
    segundos := dias * 86400;
    segundos := segundos + dt.hora * 3600;
    segundos := segundos + dt.minuto * 60;
    segundos := segundos + dt.segundo;
    segundos := segundos - dt.offsetUtc * 60;
  }

  /** The UTC date and time at a number of seconds: the day by floor division, then the clock. */
  ghost function UnixTime(t: int): DateTime {
    AtClock(DateOf(t / 86400), t % 86400)
  }

  /** A date with a second of the day, in UTC. */
  function AtClock(d: Date, s: int): DateTime {
    DateTime(d.ano, d.mes, d.dia, s / 3600, s % 3600 / 60, s % 60, 0)
  }

  /** Truncating division, corrected when the remainder comes out negative. */
  method DatetimeFromUnix(t: int) returns (dt: DateTime)
    ensures dt == UnixTime(t)
  {
    var dias := TruncDiv(t, 86400);
    var noDia := t - dias * 86400;
    if noDia < 0 {
      dias := dias - 1;
      noDia := noDia + 86400;
    }
    FloorIs(t, dias, noDia);
    var d := DateFromEpochDays(dias);
    DateOfIsInverse(d, dias);
    var hora := TruncDiv(noDia, 3600);
    var resto := noDia - hora * 3600;
    var minuto := TruncDiv(resto, 60);
    var segundo := resto - minuto * 60;
    ClockParts(noDia);
    return DateTime(d.ano, d.mes, d.dia, hora, minuto, segundo, 0);
  }

  lemma FloorIs(t: int, q: int, r: int)
    requires t == q * 86400 + r && 0 <= r < 86400
    ensures t / 86400 == q && t % 86400 == r
  {
  }

  lemma ClockParts(s: int)
    requires 0 <= s < 86400
    ensures var h, r := s / 3600, s - s / 3600 * 3600;
            && 0 <= h <= 23 && s % 3600 == r && 0 <= r / 60 <= 59 && s % 60 == r - r / 60 * 60
            && s == h * 3600 + r / 60 * 60 + (r - r / 60 * 60)
  {
  }

  /** Every number of seconds is the time of a valid UTC date and time. */
  lemma UnixTimeMeaning(t: int)
    ensures ValidDateTime(UnixTime(t)) && ToUnix(UnixTime(t)) == t && UnixTime(t).offsetUtc == 0
  {
    ClockParts(t % 86400);
    FloorIs(t, t / 86400, t % 86400);
  }

  lemma ClockIsOrdered(a: DateTime, b: DateTime)
    requires ValidDateTime(a) && ValidDateTime(b)
    ensures 0 <= SecondsInDay(a) < 86400
    ensures SecondsInDay(a) == SecondsInDay(b) <==> a.hora == b.hora && a.minuto == b.minuto && a.segundo == b.segundo
  {
    if SecondsInDay(a) == SecondsInDay(b) {
      SixtyParts(a.hora * 60 + a.minuto, a.segundo, b.hora * 60 + b.minuto, b.segundo);
      SixtyParts(a.hora, a.minuto, b.hora, b.minuto);
    }
  }

  lemma SixtyParts(a: int, r: int, b: int, t: int)
    requires 60 * a + r == 60 * b + t && 0 <= r < 60 && 0 <= t < 60
    ensures a == b && r == t
  {
  }

  /** At one offset, an instant has exactly one valid date and time. */
  lemma ToUnixIsInjective(a: DateTime, b: DateTime)
    requires ValidDateTime(a) && ValidDateTime(b) && a.offsetUtc == b.offsetUtc
    ensures ToUnix(a) == ToUnix(b) <==> a == b
  {
    ClockIsOrdered(a, b);
    ClockIsOrdered(b, a);
    CompareIsSignOfDiff(DateOfDateTime(a), DateOfDateTime(b));
  }

  /** `from_unix` undoes `to_unix` exactly on offset 0. */
  lemma UnixRoundTrip(dt: DateTime)
    requires ValidDateTime(dt)
    ensures UnixTime(ToUnix(dt)) == dt <==> dt.offsetUtc == 0
  {
    UnixTimeMeaning(ToUnix(dt));
    if dt.offsetUtc == 0 { ToUnixIsInjective(UnixTime(ToUnix(dt)), dt); }
  }

  // ---------- seconds ----------

  ghost function SecondShift(dt: DateTime, s: int): DateTime {
    UnixTime(ToUnix(dt) + s + dt.offsetUtc * 60).(offsetUtc := dt.offsetUtc)
  }

  method DatetimeAddSeconds(dt: DateTime, segundos: int) returns (out: DateTime)
    ensures out == SecondShift(dt, segundos)
  {
    var unix := DatetimeToUnix(dt);
    var novoUtc := unix + segundos;
    var local := novoUtc + dt.offsetUtc * 60;
    ShiftIs(dt, segundos, local);
    out := DatetimeFromUnix(local);
    out := out.(offsetUtc := dt.offsetUtc);
  }

  lemma ShiftIs(dt: DateTime, segundos: int, local: int)
    requires local == ToUnix(dt) + segundos + dt.offsetUtc * 60
    ensures UnixTime(local).(offsetUtc := dt.offsetUtc) == SecondShift(dt, segundos)
  {
  }

  /** Adding seconds is an action of the integers: it stays valid, keeps the offset, moves the instant by
      exactly the argument, does nothing for 0 and composes additively. */
  lemma SecondShiftMeaning(dt: DateTime, s: int)
    requires ValidDateTime(dt)
    ensures var r := SecondShift(dt, s);
            ValidDateTime(r) && r.offsetUtc == dt.offsetUtc && ToUnix(r) == ToUnix(dt) + s
  {
    UnixTimeMeaning(ToUnix(dt) + s + dt.offsetUtc * 60);
  }

  lemma SecondShiftIsAnAction(dt: DateTime, s: int, t: int)
    requires ValidDateTime(dt)
    ensures SecondShift(dt, 0) == dt
    ensures SecondShift(SecondShift(dt, s), t) == SecondShift(dt, s + t)
  {
    ShiftIsUnique(dt, dt, 0);
    SecondShiftMeaning(dt, s);
    ShiftAgain(dt, SecondShift(dt, s), s, t);
  }

  lemma ShiftAgain(dt: DateTime, mid: DateTime, s: int, t: int)
    requires ValidDateTime(dt) && ValidDateTime(mid) && mid.offsetUtc == dt.offsetUtc && ToUnix(mid) == ToUnix(dt) + s
    ensures SecondShift(mid, t) == SecondShift(dt, s + t)
  {
    assert ToUnix(mid) + t + mid.offsetUtc * 60 == ToUnix(dt) + (s + t) + dt.offsetUtc * 60;
  }

  lemma ShiftIsUnique(dt: DateTime, r: DateTime, s: int)
    requires ValidDateTime(dt) && ValidDateTime(r) && r.offsetUtc == dt.offsetUtc && ToUnix(r) == ToUnix(dt) + s
    ensures r == SecondShift(dt, s)
  {
    SecondShiftMeaning(dt, s);
    ToUnixIsInjective(r, SecondShift(dt, s));
  }

  function DatetimeDiffSeconds(a: DateTime, b: DateTime): int {
    ToUnix(a) - ToUnix(b)
  }

  function DatetimeCompare(a: DateTime, b: DateTime): int {
    if ToUnix(a) < ToUnix(b) then -1 else if ToUnix(a) > ToUnix(b) then 1 else 0
  }

  /** Shifting `b` by the difference reaches the instant of `a`; it reaches `a` itself exactly at one offset. */
  lemma DiffThenShift(a: DateTime, b: DateTime)
    requires ValidDateTime(a) && ValidDateTime(b)
    ensures DatetimeCompare(SecondShift(b, DatetimeDiffSeconds(a, b)), a) == 0
    ensures SecondShift(b, DatetimeDiffSeconds(a, b)) == a <==> a.offsetUtc == b.offsetUtc
  {
    SecondShiftMeaning(b, DatetimeDiffSeconds(a, b));
    if a.offsetUtc == b.offsetUtc { ToUnixIsInjective(SecondShift(b, DatetimeDiffSeconds(a, b)), a); }
  }

  /** Midnight-aligned shifts of a UTC time are day shifts of its date. */
  lemma SecondsMoveDays(dt: DateTime, dias: int)
    requires ValidDateTime(dt)
    ensures DateOfDateTime(SecondShift(dt, dias * 86400)) == DateOf(DayNumber(DateOfDateTime(dt)) + dias)
    ensures SecondsInDay(SecondShift(dt, dias * 86400)) == SecondsInDay(dt)
  {
    SecondShiftMeaning(dt, dias * 86400);
    ShiftedDay(dt, SecondShift(dt, dias * 86400), dias);
  }

  lemma ShiftedDay(dt: DateTime, r: DateTime, dias: int)
    requires ValidDateTime(dt) && ValidDateTime(r) && r.offsetUtc == dt.offsetUtc
    requires ToUnix(r) == ToUnix(dt) + dias * 86400
    ensures DateOfDateTime(r) == DateOf(DayNumber(DateOfDateTime(dt)) + dias) && SecondsInDay(r) == SecondsInDay(dt)
  {
    SameClock(dt, r, dias);
    AddedDays(DateOfDateTime(r), DayNumber(DateOfDateTime(dt)), dias);
  }

  lemma SameClock(dt: DateTime, r: DateTime, dias: int)
    requires ValidDateTime(dt) && ValidDateTime(r) && r.offsetUtc == dt.offsetUtc
    requires ToUnix(r) == ToUnix(dt) + dias * 86400
    ensures DayNumber(DateOfDateTime(r)) == DayNumber(DateOfDateTime(dt)) + dias && SecondsInDay(r) == SecondsInDay(dt)
  {
    ClockRange(dt);
    ClockRange(r);
    SameDayAndClock(DayNumber(DateOfDateTime(r)), SecondsInDay(r),
                    DayNumber(DateOfDateTime(dt)) + dias, SecondsInDay(dt));
  }

  lemma ClockRange(dt: DateTime)
    requires ValidDateTime(dt)
    ensures 0 <= SecondsInDay(dt) < 86400
  {
  }

  lemma SameDayAndClock(m: int, s: int, n: int, t: int)
    requires m * 86400 + s == n * 86400 + t && 0 <= s < 86400 && 0 <= t < 86400
    ensures m == n && s == t
  {
  }

  // ---------- the clock second by second ----------

  /** Second, minute, hour and date roll over in turn. */
  function NextSecond(dt: DateTime): DateTime {
    var next := NextDate(DateOfDateTime(dt));
    if dt.segundo < 59 then dt.(segundo := dt.segundo + 1)
    else if dt.minuto < 59 then dt.(segundo := 0, minuto := dt.minuto + 1)
    else if dt.hora < 23 then dt.(segundo := 0, minuto := 0, hora := dt.hora + 1)
    else DateTime(next.ano, next.mes, next.dia, 0, 0, 0, dt.offsetUtc)
  }

  /** Unix time counts the seconds of the clock, and adding one second is the next of them. */
  lemma NextSecondIsNextUnix(dt: DateTime)
    requires ValidDateTime(dt)
    ensures ValidDateTime(NextSecond(dt)) && ToUnix(NextSecond(dt)) == ToUnix(dt) + 1
    ensures SecondShift(dt, 1) == NextSecond(dt)
  {
    NextDateIsNextDay(DateOfDateTime(dt));
    SecondTicks(dt);
    TickIsShift(dt, NextSecond(dt));
  }

  lemma TickIsShift(dt: DateTime, r: DateTime)
    requires ValidDateTime(dt) && ValidDateTime(r) && r.offsetUtc == dt.offsetUtc && ToUnix(r) == ToUnix(dt) + 1
    ensures r == SecondShift(dt, 1)
  {
    ShiftIsUnique(dt, r, 1);
  }

  lemma SecondTicks(dt: DateTime)
    requires ValidDateTime(dt)
    requires var next := NextDate(DateOfDateTime(dt));
             ValidDate(next) && DayNumber(next) == DayNumber(DateOfDateTime(dt)) + 1
    ensures ValidDateTime(NextSecond(dt)) && ToUnix(NextSecond(dt)) == ToUnix(dt) + 1
    ensures NextSecond(dt).offsetUtc == dt.offsetUtc
  {
    if dt.segundo < 59 || dt.minuto < 59 || dt.hora < 23 {
      assert DateOfDateTime(NextSecond(dt)) == DateOfDateTime(dt);
    } else {
      assert DateOfDateTime(NextSecond(dt)) == NextDate(DateOfDateTime(dt));
    }
  }

  lemma EpochIsUnixZero()
    ensures UnixTime(0) == DateTime(1970, 1, 1, 0, 0, 0, 0)
  {
    EpochIsDayZero();
    MidnightIs(0, Date(1970, 1, 1));
  }

  lemma MidnightIs(n: int, d: Date)
    requires ValidDate(d) && DayNumber(d) == n
    ensures UnixTime(n * 86400) == DateTime(d.ano, d.mes, d.dia, 0, 0, 0, 0)
  {
    var dt := DateTime(d.ano, d.mes, d.dia, 0, 0, 0, 0);
    assert DateOfDateTime(dt) == d && ToUnix(dt) == n * 86400;
    UnixTimeIs(n * 86400, dt);
  }

  lemma UnixTimeIs(t: int, dt: DateTime)
    requires ValidDateTime(dt) && dt.offsetUtc == 0 && ToUnix(dt) == t
    ensures UnixTime(t) == dt
  {
    UnixTimeMeaning(t);
    ToUnixIsInjective(UnixTime(t), dt);
  }

  /** The local clock is the UTC clock moved forward by the offset. */
  lemma LocalClock(dt: DateTime, t: int)
    requires ValidDateTime(dt) && t == ToUnix(dt) + dt.offsetUtc * 60
    ensures UnixTime(t) == dt.(offsetUtc := 0)
  {
    var local := dt.(offsetUtc := 0);
    OffsetMoves(dt, local);
    UnixTimeIs(t, local);
  }

  lemma OffsetMoves(dt: DateTime, local: DateTime)
    requires local == dt.(offsetUtc := 0)
    ensures ToUnix(local) == ToUnix(dt) + dt.offsetUtc * 60
  {
    assert DateOfDateTime(local) == DateOfDateTime(dt);
  }

  /** From the year down to the second. */
  function CompareFields(a: DateTime, b: DateTime): int {
    var byDate := DateCompare(DateOfDateTime(a), DateOfDateTime(b));
    if byDate != 0 then byDate
    else if a.hora != b.hora then if a.hora < b.hora then -1 else 1
    else if a.minuto != b.minuto then if a.minuto < b.minuto then -1 else 1
    else if a.segundo != b.segundo then if a.segundo < b.segundo then -1 else 1
    else 0
  }

  /** At one offset, comparing instants is comparing fields. */
  lemma CompareIsByFields(a: DateTime, b: DateTime)
    requires ValidDateTime(a) && ValidDateTime(b) && a.offsetUtc == b.offsetUtc
    ensures DatetimeCompare(a, b) == CompareFields(a, b)
  {
    CompareIsSignOfDiff(DateOfDateTime(a), DateOfDateTime(b));
    ClockRange(a);
    ClockRange(b);
    UnixOrder(a, b, DayNumber(DateOfDateTime(a)), DayNumber(DateOfDateTime(b)));
    ClockOrder(a, b);
  }

  /** Days decide first, then the clock. */
  lemma UnixOrder(a: DateTime, b: DateTime, m: int, n: int)
    requires ToUnix(a) == m * 86400 + SecondsInDay(a) - a.offsetUtc * 60
    requires ToUnix(b) == n * 86400 + SecondsInDay(b) - b.offsetUtc * 60
    requires a.offsetUtc == b.offsetUtc && 0 <= SecondsInDay(a) < 86400 && 0 <= SecondsInDay(b) < 86400
    ensures DatetimeCompare(a, b) == if m < n then -1 else if m > n then 1
                                     else if SecondsInDay(a) < SecondsInDay(b) then -1
                                     else if SecondsInDay(a) > SecondsInDay(b) then 1 else 0
  {
  }

  lemma ClockOrder(a: DateTime, b: DateTime)
    requires 0 <= a.minuto <= 59 && 0 <= a.segundo <= 59 && 0 <= b.minuto <= 59 && 0 <= b.segundo <= 59
    ensures SecondsInDay(a) < SecondsInDay(b) <==>
            || a.hora < b.hora
            || (a.hora == b.hora && a.minuto < b.minuto)
            || (a.hora == b.hora && a.minuto == b.minuto && a.segundo < b.segundo)
    ensures SecondsInDay(a) == SecondsInDay(b) <==> a.hora == b.hora && a.minuto == b.minuto && a.segundo == b.segundo
  {
  }
}
