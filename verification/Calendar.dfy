/** Gregorian dates and day counts: the loops of the date library against a closed form. */
module Calendar {
  import opened Options

  datatype Date = Date(ano: int, mes: int, dia: int)

  /** C division truncates toward zero. */
  function TruncDiv(a: int, b: int): int
    requires b != 0
  {
    if a >= 0 then a / b else -((-a) / b)
  }

  predicate IsDivisible(valor: int, divisor: int)
    requires divisor != 0
  {
    valor - TruncDiv(valor, divisor) * divisor == 0
  }

  predicate IsLeapYear(ano: int) {
    if !IsDivisible(ano, 4) then false
    else if !IsDivisible(ano, 100) then true
    else IsDivisible(ano, 400)
  }

  function DaysInYear(ano: int): int {
    if IsLeapYear(ano) then 366 else 365
  }

  function DaysInMonth(ano: int, mes: int): int {
    if mes == 1 || mes == 3 || mes == 5 || mes == 7 || mes == 8 || mes == 10 || mes == 12 then 31
    else if mes == 4 || mes == 6 || mes == 9 || mes == 11 then 30
    else if mes == 2 then if IsLeapYear(ano) then 29 else 28
    else 0
  }

  /** What `date_new` accepts. */
  predicate ValidDate(d: Date) {
    1 <= d.mes <= 12 && 1 <= d.dia <= DaysInMonth(d.ano, d.mes)
  }

  // ---------- the closed form ----------

  /** Leap years up to and including year `k`, counted from year 1; floor division. */
  function LeapsThrough(k: int): int {
    k / 4 - k / 100 + k / 400
  }

  /** Days from 1970-01-01 to the first day of a year. */
  function YearStart(ano: int): int {
    365 * (ano - 1970) + LeapsThrough(ano - 1) - LeapsThrough(1969)
  }

  /** Days of the year before a month, for any month number: months past December are empty. */
  function MonthStart(ano: int, mes: int): int {
    if mes <= 1 then 0
    else if mes == 2 then 31
    else (if IsLeapYear(ano) then 1 else 0) +
         (if mes == 3 then 59 else if mes == 4 then 90 else if mes == 5 then 120 else if mes == 6 then 151
          else if mes == 7 then 181 else if mes == 8 then 212 else if mes == 9 then 243 else if mes == 10 then 273
          else if mes == 11 then 304 else if mes == 12 then 334 else 365)
  }

  function DayNumber(d: Date): int {
    YearStart(d.ano) + MonthStart(d.ano, d.mes) + d.dia - 1
  }

  // ---------- facts about years and months ----------

  /** Truncating division tests divisibility as the remainder does, negative years included. */
  lemma DivisibleIsRemainder(v: int, d: int)
    requires d == 4 || d == 100 || d == 400
    ensures IsDivisible(v, d) <==> v % d == 0
  {
  }

  lemma LeapRule(ano: int)
    ensures IsLeapYear(ano) <==> ano % 4 == 0 && (ano % 100 == 0 ==> ano % 400 == 0)
  {
    DivisibleIsRemainder(ano, 4);
    DivisibleIsRemainder(ano, 100);
    DivisibleIsRemainder(ano, 400);
  }

  lemma FloorStep(k: int, d: int)
    requires d == 4 || d == 100 || d == 400
    ensures k / d - (k - 1) / d == if k % d == 0 then 1 else 0
  {
  }

  lemma Multiples(k: int)
    ensures k % 400 == 0 ==> k % 100 == 0
    ensures k % 100 == 0 ==> k % 4 == 0
  {
  }

  /** A year is as long as the gap to the next one. */
  lemma YearLength(ano: int)
    ensures YearStart(ano + 1) - YearStart(ano) == DaysInYear(ano)
  {
    LeapRule(ano);
    FloorStep(ano, 4);
    FloorStep(ano, 100);
    FloorStep(ano, 400);
    Multiples(ano);
  }

  lemma MonthLength(ano: int, mes: int)
    ensures 1 <= mes ==> MonthStart(ano, mes + 1) - MonthStart(ano, mes) == DaysInMonth(ano, mes)
    ensures MonthStart(ano, 13) == DaysInYear(ano)
    ensures 1 <= mes <= 12 ==> 28 <= DaysInMonth(ano, mes) <= 31
  {
  }

  // ---------- the loops ----------

  method DaysSinceEpoch(d: Date) returns (dias: int)
    ensures dias == DayNumber(d)
  {
    dias := 0;
    var ano := 1970;
    if d.ano >= 1970 {
      while ano < d.ano
        invariant ano <= d.ano && dias == YearStart(ano)
      {
        YearLength(ano);
        dias := dias + DaysInYear(ano);
        ano := ano + 1;
      }
    } else {
      ano := 1969;
      while ano >= d.ano
        invariant ano >= d.ano - 1 && dias == YearStart(ano + 1)
        decreases ano - d.ano
      {
        YearLength(ano);
        dias := dias - DaysInYear(ano);
        ano := ano - 1;
      }
    }
    var mes := 1;
    while mes < d.mes
      invariant 1 <= mes && (mes <= d.mes || mes == 1)
      invariant dias == YearStart(d.ano) + MonthStart(d.ano, mes)
    {
      MonthLength(d.ano, mes);
      dias := dias + DaysInMonth(d.ano, mes);
      mes := mes + 1;
    }
    return dias + d.dia - 1;
  }

  /** The month loop stops before it can reach the empty month 13. */
  method DateFromEpochDays(n: int) returns (d: Date)
    ensures ValidDate(d) && DayNumber(d) == n
  {
    var ano, resto := 1970, n;
    if resto >= 0 {
      while resto >= DaysInYear(ano)
        invariant 0 <= resto && resto + YearStart(ano) == n
      {
        YearLength(ano);
        resto := resto - DaysInYear(ano);
        ano := ano + 1;
      }
    } else {
      while resto < 0
        invariant resto + YearStart(ano) == n && resto < DaysInYear(ano)
        decreases -resto
      {
        YearLength(ano - 1);
        ano := ano - 1;
        resto := resto + DaysInYear(ano);
      }
    }
    var mes := 1;
    while resto >= DaysInMonth(ano, mes)
      invariant 1 <= mes <= 12 && 0 <= resto && MonthStart(ano, mes) + resto < DaysInYear(ano)
      invariant YearStart(ano) + MonthStart(ano, mes) + resto == n
      decreases 12 - mes
    {
      MonthLength(ano, mes);
      resto := resto - DaysInMonth(ano, mes);
      mes := mes + 1;
    }
    return Date(ano, mes, resto + 1);
  }

  // ---------- one-to-one ----------

  lemma DayInYear(d: Date)
    requires ValidDate(d)
    ensures YearStart(d.ano) <= DayNumber(d) < YearStart(d.ano + 1)
    ensures MonthStart(d.ano, d.mes) <= DayNumber(d) - YearStart(d.ano) < MonthStart(d.ano, d.mes + 1)
  {
    YearLength(d.ano);
    MonthLength(d.ano, d.mes);
  }

  lemma {:induction false} YearsAreOrdered(a: int, b: int)
    requires a <= b
    ensures YearStart(a) + 365 * (b - a) <= YearStart(b)
    decreases b - a
  {
    if a < b {
      YearLength(b - 1);
      YearsAreOrdered(a, b - 1);
    }
  }

  lemma MonthsAreOrdered(ano: int, a: int, b: int)
    requires 1 <= a <= b
    ensures MonthStart(ano, a) <= MonthStart(ano, b)
  {
  }

  function DateCompare(a: Date, b: Date): int {
    if a.ano < b.ano then -1 else if a.ano > b.ano then 1
    else if a.mes < b.mes then -1 else if a.mes > b.mes then 1
    else if a.dia < b.dia then -1 else if a.dia > b.dia then 1
    else 0
  }

  function DateDiffDays(a: Date, b: Date): int {
    DayNumber(a) - DayNumber(b)
  }

  lemma EarlierDate(a: Date, b: Date)
    requires ValidDate(a) && ValidDate(b) && DateCompare(a, b) == -1
    ensures DayNumber(a) < DayNumber(b)
  {
    if a.ano < b.ano {
      EarlierYear(a, b);
    } else if a.mes < b.mes {
      EarlierMonth(a, b);
    }
  }

  lemma EarlierYear(a: Date, b: Date)
    requires ValidDate(a) && ValidDate(b) && a.ano < b.ano
    ensures DayNumber(a) < DayNumber(b)
  {
    DayInYear(a);
    DayInYear(b);
    YearsAreOrdered(a.ano + 1, b.ano);
  }

  lemma EarlierMonth(a: Date, b: Date)
    requires ValidDate(a) && ValidDate(b) && a.ano == b.ano && a.mes < b.mes
    ensures DayNumber(a) < DayNumber(b)
  {
    DayInYear(a);
    DayInYear(b);
    MonthsAreOrdered(a.ano, a.mes + 1, b.mes);
  }

  /** Field-by-field comparison is the sign of the difference in days. */
  lemma CompareIsSignOfDiff(a: Date, b: Date)
    requires ValidDate(a) && ValidDate(b)
    ensures DateCompare(a, b) == -1 <==> DateDiffDays(a, b) < 0
    ensures DateCompare(a, b) == 0 <==> DateDiffDays(a, b) == 0
    ensures DateCompare(a, b) == 1 <==> DateDiffDays(a, b) > 0
    ensures DateCompare(a, b) == 0 <==> a == b
  {
    if DateCompare(a, b) == -1 { EarlierDate(a, b); }
    if DateCompare(a, b) == 1 { EarlierDate(b, a); }
  }

  /** The valid date with a given day number. */
  ghost function DateOf(n: int): (d: Date)
    ensures ValidDate(d) && DayNumber(d) == n
  {
    DateOfExists(n);
    var d :| ValidDate(d) && DayNumber(d) == n; d
  }

  /** Day counting and its inverse are mutually inverse: every integer is the number of exactly one valid date. */
  lemma DateOfIsInverse(d: Date, n: int)
    requires ValidDate(d)
    ensures DayNumber(d) == n <==> d == DateOf(n)
  {
    CompareIsSignOfDiff(d, DateOf(n));
  }

  lemma IsDateOf(d: Date, n: int)
    requires ValidDate(d) && DayNumber(d) == n
    ensures d == DateOf(n)
  {
    DateOfIsInverse(d, n);
  }

  lemma DateOfExists(n: int)
    ensures exists d :: ValidDate(d) && DayNumber(d) == n
  {
    var y := YearBracket(n);
    YearLength(y);
    var m := MonthBracket(y, n - YearStart(y));
    InMonth(y, m, n - YearStart(y) - MonthStart(y, m));
    assert DayNumber(Date(y, m, n - YearStart(y) - MonthStart(y, m) + 1)) == n;
  }

  lemma InMonth(y: int, m: int, r: int)
    requires 1 <= m <= 12 && 0 <= r < MonthStart(y, m + 1) - MonthStart(y, m)
    ensures ValidDate(Date(y, m, r + 1))
  {
    MonthLength(y, m);
  }

  lemma YearBracket(n: int) returns (y: int)
    ensures YearStart(y) <= n < YearStart(y + 1)
  {
    y := 1970;
    while n < YearStart(y)
      decreases YearStart(y) - n
    {
      YearLength(y - 1);
      y := y - 1;
    }
    while YearStart(y + 1) <= n
      invariant YearStart(y) <= n
      decreases n - YearStart(y)
    {
      YearLength(y);
      y := y + 1;
    }
  }

  lemma MonthBracket(y: int, r: int) returns (m: int)
    requires 0 <= r < DaysInYear(y)
    ensures 1 <= m <= 12 && MonthStart(y, m) <= r < MonthStart(y, m + 1)
  {
    m := 1;
    while r >= MonthStart(y, m + 1)
      invariant 1 <= m <= 12 && MonthStart(y, m) <= r
      decreases 12 - m
    {
      m := m + 1;
    }
  }

  // ---------- the calendar day by day ----------

  /** January, March, May, July, August, October and December are long; February is short. */
  lemma MonthRule(ano: int, mes: int)
    requires 1 <= mes <= 12
    ensures DaysInMonth(ano, mes) ==
            if mes == 2 then 28 + (if ano % 4 == 0 && (ano % 100 == 0 ==> ano % 400 == 0) then 1 else 0)
            else 30 + (mes + mes / 8) % 2
  {
    LeapRule(ano);
  }

  function NextDate(d: Date): Date {
    if d.dia < DaysInMonth(d.ano, d.mes) then Date(d.ano, d.mes, d.dia + 1)
    else if d.mes < 12 then Date(d.ano, d.mes + 1, 1)
    else Date(d.ano + 1, 1, 1)
  }

  /** Day numbers count calendar days from 1970-01-01. */
  lemma NextDateIsNextDay(d: Date)
    requires ValidDate(d)
    ensures ValidDate(NextDate(d)) && DayNumber(NextDate(d)) == DayNumber(d) + 1
  {
    MonthLength(d.ano, d.mes);
    MonthLength(d.ano, d.mes + 1);
    MonthLength(d.ano + 1, 1);
    YearLength(d.ano);
  }

  lemma EpochIsDayZero()
    ensures DayNumber(Date(1970, 1, 1)) == 0 && DateOf(0) == Date(1970, 1, 1)
  {
    IsDateOf(Date(1970, 1, 1), 0);
  }

  /** The date of the next day number is the next date. */
  lemma DateOfNextDay(n: int)
    ensures DateOf(n + 1) == NextDate(DateOf(n))
  {
    NextDateIsNextDay(DateOf(n));
    IsDateOf(NextDate(DateOf(n)), n + 1);
  }
}
