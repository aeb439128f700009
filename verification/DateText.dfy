/** Printing dates with successive text replacements, and parsing them back. */
module DateText {
  import opened Options
  import opened Texts
  import opened Calendar
  import opened DateTimes

  // ---------- numbers as text ----------

  predicate IsDigit(c: char) { '0' <= c <= '9' }

  function DigitChar(n: int): char
    requires 0 <= n < 10
  {
    n as char + '0'
  }

  function Digits(n: nat): (s: string)
    ensures s != "" && forall k :: 0 <= k < |s| ==> IsDigit(s[k])
  {
    if n < 10 then [DigitChar(n)] else Digits(n / 10) + [DigitChar(n % 10)]
  }

  function StringifyInt(n: int): string {
    if n < 0 then "-" + Digits(-n) else Digits(n)
  }

  function Zeros(n: nat): (s: string)
    ensures |s| == n && forall k :: 0 <= k < n ==> s[k] == '0'
  {
    seq(n, _ => '0')
  }

  function PadLeft(s: string, width: nat): string {
    if |s| >= width then s else Zeros(width - |s|) + s
  }

  function Pad2(n: int): string { PadLeft(StringifyInt(n), 2) }

  function Pad4(n: int): string { PadLeft(StringifyInt(n), 4) }

  predicate AllDigits(s: string) {
    forall k :: 0 <= k < |s| ==> IsDigit(s[k])
  }

  function Value(s: string): nat
    requires AllDigits(s)
  {
    if s == "" then 0 else 10 * Value(s[..|s| - 1]) + (s[|s| - 1] - '0') as nat
  }

  predicate IsSpace(c: char) {
    c == ' ' || '\t' <= c <= '\r'
  }

  const INT64_LIMIT: int := 0x8000_0000_0000_0000

  function InRange(v: int): Option<int> {
    if -INT64_LIMIT <= v < INT64_LIMIT then Some(v) else None
  }

  /** A whole decimal number with an optional sign, no white space at either end, within 64 bits. */
  function TryInt(s: string): Option<int> {
    if s == "" || IsSpace(s[0]) || IsSpace(s[|s| - 1]) then None
    else
      var signed := s[0] == '-' || s[0] == '+';
      var digits := if signed then s[1..] else s;
      if digits == "" || !AllDigits(digits) then None
      else var v: int := Value(digits); InRange(if s[0] == '-' then -v else v)
  }

  lemma {:induction false} ValueOfDigits(n: nat)
    ensures Value(Digits(n)) == n
  {
    if n >= 10 {
      ValueOfDigits(n / 10);
      var d := Digits(n / 10);
      assert (d + [DigitChar(n % 10)])[..|d|] == d;
    }
  }

  lemma {:induction false} LeadingZeros(k: nat, s: string)
    requires AllDigits(s)
    ensures AllDigits(Zeros(k) + s) && Value(Zeros(k) + s) == Value(s)
    decreases |s|, k
  {
    var t := Zeros(k) + s;
    if s == "" {
      if k > 0 {
        LeadingZeros(k - 1, "");
        assert t[..k - 1] == Zeros(k - 1) + "";
      }
    } else {
      LeadingZeros(k, s[..|s| - 1]);
      assert t[..|t| - 1] == Zeros(k) + s[..|s| - 1];
    }
  }

  lemma DigitsLength(n: nat)
    ensures |Digits(n)| == 1 <==> n < 10
    ensures |Digits(n)| == 2 <==> 10 <= n < 100
    ensures |Digits(n)| == 3 <==> 100 <= n < 1000
    ensures |Digits(n)| == 4 <==> 1000 <= n < 10000
  {
    if n >= 10 { DigitsLength(n / 10); }
  }

  lemma PadWidth(n: nat, width: nat)
    requires width == 2 || width == 4
    ensures |PadLeft(Digits(n), width)| >= width
    ensures |PadLeft(Digits(n), width)| == width <==> n < if width == 2 then 100 else 10000
  {
    DigitsLength(n);
  }

  lemma PadValue(n: nat, width: nat)
    ensures var t := PadLeft(Digits(n), width); t != "" && AllDigits(t) && Value(t) == n
  {
    ValueOfDigits(n);
    if |Digits(n)| < width { LeadingZeros(width - |Digits(n)|, Digits(n)); }
  }

  /** A padded number that fits its width reads back; one too wide overflows it. */
  lemma PadReadsBack(n: nat, width: nat)
    requires width == 2 || width == 4
    ensures var t := PadLeft(StringifyInt(n), width);
            && AllDigits(t) && |t| >= width && (|t| == width <==> n < if width == 2 then 100 else 10000)
            && (|t| == width ==> TryInt(t) == Some(n))
  {
    PadWidth(n, width);
    PadValue(n, width);
    if n < 10000 { PlainDigits(PadLeft(Digits(n), width)); }
  }

  /** Text made of digits reads as its value. */
  lemma PlainDigits(t: string)
    requires t != "" && AllDigits(t) && Value(t) < INT64_LIMIT
    ensures TryInt(t) == Some(Value(t))
  {
    assert IsDigit(t[0]) && IsDigit(t[|t| - 1]);
  }

  /** Negative years: three digits keep the sign in front; fewer bury it under zeros; more overflow. */
  lemma PadNegative(n: int)
    requires n < 0
    ensures |Pad4(n)| >= 4 && Pad4(n) != "" && (|Pad4(n)| == 4 <==> n > -1000)
    ensures |Pad4(n)| == 4 ==> TryInt(Pad4(n)) == if n <= -100 then Some(n) else None
    ensures forall k :: 0 <= k < |Pad4(n)| ==> Pad4(n)[k] == '-' || IsDigit(Pad4(n)[k])
  {
    if n <= -100 { SignInFront(n); } else { SignUnderZeros(n); }
  }

  lemma SignInFront(n: int)
    requires n <= -100
    ensures |Pad4(n)| >= 4 && (|Pad4(n)| == 4 <==> n > -1000)
    ensures |Pad4(n)| == 4 ==> TryInt(Pad4(n)) == Some(n)
    ensures forall k :: 0 <= k < |Pad4(n)| ==> Pad4(n)[k] == '-' || IsDigit(Pad4(n)[k])
  {
    var d := Digits(-n);
    DigitsLength(-n);
    ValueOfDigits(-n);
    assert Pad4(n) == "-" + d && ("-" + d)[1..] == d;
  }

  lemma SignUnderZeros(n: int)
    requires -100 < n < 0
    ensures |Pad4(n)| == 4 && TryInt(Pad4(n)) == None
    ensures forall k :: 0 <= k < |Pad4(n)| ==> Pad4(n)[k] == '-' || IsDigit(Pad4(n)[k])
  {
    var t := "-" + Digits(-n);
    DigitsLength(-n);
    var z := 4 - |t|;
    assert Pad4(n) == Zeros(z) + t;
    assert (Zeros(z) + t)[z] == '-' && (Zeros(z) + t)[0] == '0';
  }

  // ---------- printing: successive replacement passes ----------

  type Table = map<char, string>

  /** One pass: every `%c` becomes `v`. */
  function Pass(f: string, c: char, v: string): string {
    Replaced(f, ['%', c], v)
  }

  /** All directives at once, in a single left-to-right scan. */
  function Expand(f: string, m: Table): string {
    if |f| >= 2 && f[0] == '%' && f[1] in m then m[f[1]] + Expand(f[2..], m)
    else if f == "" then ""
    else [f[0]] + Expand(f[1..], m)
  }

  const LETTERS: set<char> := {'Y', 'm', 'd', 'H', 'M', 'S', 'z'}

  /** What the printed components have in common: they cannot create or complete a directive. */
  predicate Inert(v: string) {
    v != "" && v[0] !in LETTERS && '%' !in v
  }

  ghost predicate InertTable(m: Table) {
    forall c :: c in m ==> c in LETTERS && Inert(m[c])
  }

  /** One pass, one character at a time, on a suffix. */
  function Sub(s: string, c: char, v: string): string {
    if |s| >= 2 && s[0] == '%' && s[1] == c then v + Sub(s[2..], c, v)
    else if s == "" then ""
    else [s[0]] + Sub(s[1..], c, v)
  }

  lemma DirectiveAt(s: string, c: char, i: nat)
    requires i <= |s|
    ensures OccursAt(s, ['%', c], i) <==> i + 2 <= |s| && s[i] == '%' && s[i + 1] == c
  {
    if i + 2 <= |s| {
      assert s[i..i + 2] == [s[i], s[i + 1]];
    }
  }

  lemma {:induction false} PassIsSub(s: string, c: char, v: string, i: nat)
    requires i <= |s|
    ensures ReplacedFrom(s, ['%', c], v, i) == Sub(s[i..], c, v)
    decreases |s| - i
  {
    ReplacedUnroll(s, ['%', c], v, i);
    DirectiveAt(s, c, i);
    if OccursAt(s, ['%', c], i) {
      PassIsSub(s, c, v, i + 2);
      assert s[i..][2..] == s[i + 2..];
    } else if i < |s| {
      PassIsSub(s, c, v, i + 1);
      assert s[i..][1..] == s[i + 1..];
    }
  }

  lemma {:induction false} SubSkips(w: string, rest: string, c: char, v: string)
    requires '%' !in w
    ensures Sub(w + rest, c, v) == w + Sub(rest, c, v)
  {
    if w == "" {
      assert w + rest == rest;
    } else {
      SubSkips(w[1..], rest, c, v);
      SubSkipsOne(w[0], w[1..] + rest, c, v);
      HeadAndTail(w, rest);
      HeadAndTail(w, Sub(rest, c, v));
    }
  }

  lemma SubSkipsOne(x: char, t: string, c: char, v: string)
    requires x != '%'
    ensures Sub([x] + t, c, v) == [x] + Sub(t, c, v)
  {
    assert ([x] + t)[1..] == t;
  }

  lemma HeadAndTail(w: string, rest: string)
    requires w != ""
    ensures w + rest == [w[0]] + (w[1..] + rest)
  {
  }

  /** The first character of an expansion never turns a preceding percent sign into a pending directive. */
  lemma ExpandStart(f: string, m: Table, c: char)
    requires InertTable(m) && c in LETTERS && (f == "" || f[0] != c)
    ensures Expand(f, m) == "" || Expand(f, m)[0] != c
  {
  }

  /** A pass over a partial expansion expands one directive more. */
  lemma {:induction false} PassExtends(f: string, m: Table, c: char, v: string)
    requires InertTable(m) && c in LETTERS && c !in m && Inert(v)
    ensures Sub(Expand(f, m), c, v) == Expand(f, m[c := v])
  {
    if f == "" {
    } else if |f| >= 2 && f[0] == '%' && f[1] in m {
      PassExtends(f[2..], m, c, v);
      SubSkips(m[f[1]], Expand(f[2..], m), c, v);
    } else if |f| >= 2 && f[0] == '%' && f[1] == c {
      PassExtends(f[2..], m, c, v);
      PassHits(f, m, c, v);
    } else {
      PassExtends(f[1..], m, c, v);
      PassMisses(f, m, c, v);
    }
  }

  lemma PassHits(f: string, m: Table, c: char, v: string)
    requires |f| >= 2 && f[0] == '%' && f[1] == c && c !in m && c != '%'
    ensures Sub(Expand(f, m), c, v) == v + Sub(Expand(f[2..], m), c, v)
  {
    var e, rest := Expand(f, m), Expand(f[2..], m);
    assert f[1..][1..] == f[2..] && Expand(f[1..], m) == [c] + rest;
    assert e == ['%', c] + rest && e[2..] == rest;
  }

  lemma PassMisses(f: string, m: Table, c: char, v: string)
    requires InertTable(m) && c in LETTERS && f != ""
    requires !(|f| >= 2 && f[0] == '%' && (f[1] in m || f[1] == c))
    ensures Sub(Expand(f, m), c, v) == [f[0]] + Sub(Expand(f[1..], m), c, v)
  {
    if f[0] == '%' { ExpandStart(f[1..], m, c); }
    assert Expand(f, m) == [f[0]] + Expand(f[1..], m);
    assert Expand(f, m)[1..] == Expand(f[1..], m);
  }

  lemma {:induction false} ExpandNothing(f: string)
    ensures Expand(f, map[]) == f
  {
    if f != "" { ExpandNothing(f[1..]); }
  }

  lemma PassIsExpand(f: string, m: Table, c: char, v: string)
    requires InertTable(m) && c in LETTERS && c !in m && Inert(v)
    ensures Pass(Expand(f, m), c, v) == Expand(f, m[c := v])
    ensures InertTable(m[c := v])
  {
    var e := Expand(f, m);
    PassIsSub(e, c, v, 0);
    assert e[0..] == e;
    PassExtends(f, m, c, v);
  }

  lemma PadIsInert(n: int)
    ensures Inert(Pad2(n)) && Inert(Pad4(n)) && Inert(StringifyInt(n))
  {
  }

  function OffsetFormat(offset: int): string {
    var sinal := if offset < 0 then "-" else "+";
    var total := if offset < 0 then 0 - offset else offset;
    var horas := TruncDiv(total, 60);
    sinal + Pad2(horas) + Pad2(total - horas * 60)
  }

  function DateFormat(d: Date, formato: string): string {
    Pass(Pass(Pass(formato, 'Y', Pad4(d.ano)), 'm', Pad2(d.mes)), 'd', Pad2(d.dia))
  }

  function DatetimeFormat(dt: DateTime, formato: string): string {
    Pass(Pass(Pass(Pass(
      DateFormat(DateOfDateTime(dt), formato),
      'H', Pad2(dt.hora)), 'M', Pad2(dt.minuto)), 'S', Pad2(dt.segundo)), 'z', OffsetFormat(dt.offsetUtc))
  }

  function DateTable(d: Date): Table {
    map['Y' := Pad4(d.ano), 'm' := Pad2(d.mes), 'd' := Pad2(d.dia)]
  }

  function DatetimeTable(dt: DateTime): Table {
    DateTable(DateOfDateTime(dt))
      ['H' := Pad2(dt.hora)]['M' := Pad2(dt.minuto)]['S' := Pad2(dt.segundo)]['z' := OffsetFormat(dt.offsetUtc)]
  }

  /** For every format text, the successive passes do what one simultaneous scan would do: no printed
      component ever creates a directive for a later pass. */
  lemma DateFormatIsExpand(d: Date, formato: string)
    ensures DateFormat(d, formato) == Expand(formato, DateTable(d)) && InertTable(DateTable(d))
  {
    ExpandNothing(formato);
    PadIsInert(d.ano);
    PadIsInert(d.mes);
    PadIsInert(d.dia);
    PassIsExpand(formato, map[], 'Y', Pad4(d.ano));
    PassIsExpand(formato, map['Y' := Pad4(d.ano)], 'm', Pad2(d.mes));
    PassIsExpand(formato, map['Y' := Pad4(d.ano), 'm' := Pad2(d.mes)], 'd', Pad2(d.dia));
  }

  lemma DatetimeFormatIsExpand(dt: DateTime, formato: string)
    ensures DatetimeFormat(dt, formato) == Expand(formato, DatetimeTable(dt))
  {
    var t := DateTable(DateOfDateTime(dt));
    DateFormatIsExpand(DateOfDateTime(dt), formato);
    PadIsInert(dt.hora);
    PadIsInert(dt.minuto);
    PadIsInert(dt.segundo);
    PassIsExpand(formato, t, 'H', Pad2(dt.hora));
    PassIsExpand(formato, t['H' := Pad2(dt.hora)], 'M', Pad2(dt.minuto));
    PassIsExpand(formato, t['H' := Pad2(dt.hora)]['M' := Pad2(dt.minuto)], 'S', Pad2(dt.segundo));
    OffsetIsInert(dt.offsetUtc);
    PassIsExpand(formato, t['H' := Pad2(dt.hora)]['M' := Pad2(dt.minuto)]['S' := Pad2(dt.segundo)],
                 'z', OffsetFormat(dt.offsetUtc));
  }

  lemma OffsetIsInert(offset: int)
    ensures Inert(OffsetFormat(offset))
  {
    var total := if offset < 0 then 0 - offset else offset;
    PadIsInert(TruncDiv(total, 60));
    PadIsInert(total - TruncDiv(total, 60) * 60);
  }

  // ---------- parsing ----------

  datatype DateError = MesInvalido | DiaInvalido | DiaInvalidoParaOMes | HoraInvalida | MinutoInvalido
                     | SegundoInvalido | OffsetInvalido | FormatoInvalido | ComponentesInvalidos | TimezoneInvalido

  function DateNew(ano: int, mes: int, dia: int): (r: Result<Date, DateError>)
    ensures r.Ok? <==> ValidDate(Date(ano, mes, dia))
    ensures r.Ok? ==> r.value == Date(ano, mes, dia)
  {
    if mes < 1 || mes > 12 then Err(MesInvalido)
    else if dia < 1 then Err(DiaInvalido)
    else if dia > DaysInMonth(ano, mes) then Err(DiaInvalidoParaOMes)
    else Ok(Date(ano, mes, dia))
  }

  function DatetimeNew(d: Date, hora: int, minuto: int, segundo: int, offset: int): (r: Result<DateTime, DateError>)
    ensures var dt := DateTime(d.ano, d.mes, d.dia, hora, minuto, segundo, offset);
            (r.Ok? <==> ValidDateTime(dt)) && (r.Ok? ==> r.value == dt)
  {
    match DateNew(d.ano, d.mes, d.dia)
    case Err(e) => Err(e)
    case Ok(_) =>
      if hora < 0 || hora > 23 then Err(HoraInvalida)
      else if minuto < 0 || minuto > 59 then Err(MinutoInvalido)
      else if segundo < 0 || segundo > 59 then Err(SegundoInvalido)
      else if offset < -720 || offset > 840 then Err(OffsetInvalido)
      else Ok(DateTime(d.ano, d.mes, d.dia, hora, minuto, segundo, offset))
  }

  function DateParse(iso: string): Result<Date, DateError> {
    if |iso| != 10 || iso[4] != '-' || iso[7] != '-' then Err(FormatoInvalido)
    else
      match (TryInt(iso[0..4]), TryInt(iso[5..7]), TryInt(iso[8..10]))
      case (Some(ano), Some(mes), Some(dia)) => DateNew(ano, mes, dia)
      case _ => Err(ComponentesInvalidos)
  }

  /** The trailing `Z`, or a signed offset with a colon. */
  function OffsetParse(iso: string): Result<int, DateError>
    requires |iso| == 20 || |iso| == 25
  {
    if |iso| == 20 then if iso[19] != 'Z' then Err(TimezoneInvalido) else Ok(0)
    else if iso[22] != ':' || (iso[19] != '+' && iso[19] != '-') then Err(TimezoneInvalido)
    else
      match (TryInt(iso[20..22]), TryInt(iso[23..25]))
      case (Some(h), Some(m)) =>
        if h > 14 || m > 59 then Err(TimezoneInvalido)
        else Ok(if iso[19] == '-' then 0 - (h * 60 + m) else h * 60 + m)
      case _ => Err(TimezoneInvalido)
  }

  function DatetimeParse(iso: string): Result<DateTime, DateError> {
    if |iso| != 20 && |iso| != 25 then Err(FormatoInvalido)
    else if iso[10] != 'T' || iso[13] != ':' || iso[16] != ':' then Err(FormatoInvalido)
    else
      match DateParse(iso[0..10])
      case Err(e) => Err(e)
      case Ok(d) =>
        match (TryInt(iso[11..13]), TryInt(iso[14..16]), TryInt(iso[17..19]))
        case (Some(hora), Some(minuto), Some(segundo)) =>
          (match OffsetParse(iso)
           case Err(e) => Err(e)
           case Ok(offset) => DatetimeNew(d, hora, minuto, segundo, offset))
        case _ => Err(HoraInvalida)
  }

  // ---------- print, then parse ----------

  const ISO_DATE: string := "%Y-" + ("%m-" + "%d")
  const ISO_CLOCK: string := "T" + ("%H:" + ("%M:" + "%S"))
  const ISO_UTC: string := ISO_DATE + (ISO_CLOCK + "Z")
  const ISO_OFFSET: string := ISO_DATE + (ISO_CLOCK + "%z")

  lemma ExpandDirective(c: char, rest: string, m: Table)
    requires c in m
    ensures Expand(['%', c] + rest, m) == m[c] + Expand(rest, m)
  {
    assert (['%', c] + rest)[2..] == rest;
  }

  lemma ExpandLiteral(c: char, rest: string, m: Table)
    requires c != '%'
    ensures Expand([c] + rest, m) == [c] + Expand(rest, m)
  {
    assert ([c] + rest)[1..] == rest;
  }

  /** A directive and the literal after it. */
  lemma ExpandField(c: char, x: char, rest: string, m: Table)
    requires c in m && x != '%'
    ensures Expand(['%', c, x] + rest, m) == m[c] + ([x] + Expand(rest, m))
  {
    ExpandDirective(c, [x] + rest, m);
    ExpandLiteral(x, rest, m);
    assert ['%', c, x] + rest == ['%', c] + ([x] + rest);
  }

  /** A printed date followed by `rest`. */
  function DateLine(d: Date, rest: string): string {
    Pad4(d.ano) + ("-" + (Pad2(d.mes) + ("-" + (Pad2(d.dia) + rest))))
  }

  lemma ExpandDateLine(d: Date, rest: string, m: Table)
    requires m.Keys >= {'Y', 'm', 'd'} && m['Y'] == Pad4(d.ano) && m['m'] == Pad2(d.mes) && m['d'] == Pad2(d.dia)
    ensures Expand(ISO_DATE + rest, m) == DateLine(d, Expand(rest, m))
  {
    ExpandThree('Y', '-', 'm', '-', 'd', rest, m);
    Regroup("%Y-", "%m-", "%d", rest);
  }

  lemma ExpandThree(c1: char, x1: char, c2: char, x2: char, c3: char, rest: string, m: Table)
    requires m.Keys >= {c1, c2, c3} && x1 != '%' && x2 != '%'
    ensures Expand(['%', c1, x1] + (['%', c2, x2] + (['%', c3] + rest)), m)
         == m[c1] + ([x1] + (m[c2] + ([x2] + (m[c3] + Expand(rest, m)))))
  {
    ExpandField(c1, x1, ['%', c2, x2] + (['%', c3] + rest), m);
    ExpandField(c2, x2, ['%', c3] + rest, m);
    ExpandDirective(c3, rest, m);
  }

  lemma Regroup(a: string, b: string, c: string, rest: string)
    ensures (a + (b + c)) + rest == a + (b + (c + rest))
  {
  }

  lemma RegroupAfter(t: string, a: string, b: string, c: string, rest: string)
    ensures (t + (a + (b + c))) + rest == t + (a + (b + (c + rest)))
  {
    Regroup(a, b, c, rest);
    assert (t + (a + (b + c))) + rest == t + ((a + (b + c)) + rest);
  }

  /** A printed time of day, after its `T`, followed by `rest`. */
  function ClockLine(dt: DateTime, rest: string): string {
    "T" + (Pad2(dt.hora) + (":" + (Pad2(dt.minuto) + (":" + (Pad2(dt.segundo) + rest)))))
  }

  lemma ExpandClockLine(dt: DateTime, rest: string, m: Table)
    requires m.Keys >= {'H', 'M', 'S'}
    requires m['H'] == Pad2(dt.hora) && m['M'] == Pad2(dt.minuto) && m['S'] == Pad2(dt.segundo)
    ensures Expand(ISO_CLOCK + rest, m) == ClockLine(dt, Expand(rest, m))
  {
    var a := "%H:" + ("%M:" + ("%S" + rest));
    RegroupAfter("T", "%H:", "%M:", "%S", rest);
    ExpandLiteral('T', a, m);
    ExpandThree('H', ':', 'M', ':', 'S', rest, m);
  }

  /** The years whose four-column print is four columns and reads back: negative years need three digits. */
  predicate YearReads(ano: int) {
    0 <= ano <= 9999 || -999 <= ano <= -100
  }

  lemma YearText(ano: int)
    ensures |Pad4(ano)| >= 4 && (|Pad4(ano)| == 4 <==> -1000 < ano < 10000)
    ensures |Pad4(ano)| == 4 ==> TryInt(Pad4(ano)) == if YearReads(ano) then Some(ano) else None
  {
    if ano >= 0 { PadReadsBack(ano, 4); } else { PadNegative(ano); }
  }

  lemma TwoDigits(n: int)
    requires 0 <= n < 100
    ensures |Pad2(n)| == 2 && AllDigits(Pad2(n)) && TryInt(Pad2(n)) == Some(n)
  {
    PadReadsBack(n, 2);
  }

  /** Where the fields of a printed date are, whatever the width `w` of the year. */
  lemma DateLineSlices(d: Date, rest: string, w: nat)
    requires w == |Pad4(d.ano)| && |Pad2(d.mes)| == 2 && |Pad2(d.dia)| == 2
    ensures var t := DateLine(d, rest);
            && |t| == w + 6 + |rest|
            && t[0..w] == Pad4(d.ano) && t[w] == '-' && t[w + 1..w + 3] == Pad2(d.mes) && t[w + 3] == '-'
            && t[w + 4..w + 6] == Pad2(d.dia) && t[w + 6..] == rest
  {
    ThreeFields(Pad4(d.ano), Pad2(d.mes), Pad2(d.dia), rest, '-');
  }

  lemma ThreeFields(a: string, b: string, c: string, rest: string, sep: char)
    requires |b| == |c| == 2
    ensures var t, w := a + ([sep] + (b + ([sep] + (c + rest)))), |a|;
            && |t| == w + 6 + |rest|
            && t[0..w] == a && t[w] == sep && t[w + 1..w + 3] == b && t[w + 3] == sep
            && t[w + 4..w + 6] == c && t[w + 6..] == rest
  {
    var t, w := a + ([sep] + (b + ([sep] + (c + rest)))), |a|;
    assert t[w + 1..] == b + ([sep] + (c + rest));
    assert t[w + 4..] == c + rest;
  }

  /** Parsing what was printed gives the date back exactly for the years that fit; the other years fail. */
  lemma PrintThenParseDate(d: Date)
    requires ValidDate(d)
    ensures DateParse(DateFormat(d, ISO_DATE)) ==
            if YearReads(d.ano) then Ok(d)
            else if -100 < d.ano < 0 then Err(ComponentesInvalidos)
            else Err(FormatoInvalido)
  {
    FormatIsoDate(d);
    ParseDateLine(d);
  }

  lemma ParseDateLine(d: Date)
    requires ValidDate(d)
    ensures |DateLine(d, "")| == |Pad4(d.ano)| + 6
    ensures DateParse(DateLine(d, "")) ==
            if YearReads(d.ano) then Ok(d)
            else if -100 < d.ano < 0 then Err(ComponentesInvalidos)
            else Err(FormatoInvalido)
  {
    DateLineParts(d);
    YearText(d.ano);
    if |Pad4(d.ano)| == 4 { DateParseOf(DateLine(d, ""), d.mes, d.dia); }
  }

  lemma DateLineParts(d: Date)
    requires ValidDate(d)
    ensures var t, w := DateLine(d, ""), |Pad4(d.ano)|;
            && |t| == w + 6 && t[0..w] == Pad4(d.ano) && t[w] == '-' && t[w + 3] == '-'
            && TryInt(t[w + 1..w + 3]) == Some(d.mes) && TryInt(t[w + 4..w + 6]) == Some(d.dia)
  {
    MonthLength(d.ano, d.mes);
    TwoDigits(d.mes);
    TwoDigits(d.dia);
    DateLineSlices(d, "", |Pad4(d.ano)|);
  }

  lemma DateParseOf(t: string, mes: int, dia: int)
    requires |t| == 10 && t[4] == '-' && t[7] == '-'
    requires TryInt(t[5..7]) == Some(mes) && TryInt(t[8..10]) == Some(dia)
    ensures DateParse(t) ==
            match TryInt(t[0..4])
            case Some(ano) => DateNew(ano, mes, dia)
            case None => Err(ComponentesInvalidos)
  {
  }

  lemma ClockLineSlices(dt: DateTime, rest: string)
    requires |Pad2(dt.hora)| == |Pad2(dt.minuto)| == |Pad2(dt.segundo)| == 2
    ensures var t := ClockLine(dt, rest);
            && |t| == 9 + |rest|
            && t[0] == 'T' && t[1..3] == Pad2(dt.hora) && t[3] == ':' && t[4..6] == Pad2(dt.minuto) && t[6] == ':'
            && t[7..9] == Pad2(dt.segundo) && t[9..] == rest
  {
    ClockFields(Pad2(dt.hora), Pad2(dt.minuto), Pad2(dt.segundo), rest);
  }

  lemma ClockFields(a: string, b: string, c: string, rest: string)
    requires |a| == |b| == |c| == 2
    ensures var t := "T" + (a + (":" + (b + (":" + (c + rest)))));
            && |t| == 9 + |rest|
            && t[0] == 'T' && t[1..3] == a && t[3] == ':' && t[4..6] == b && t[6] == ':'
            && t[7..9] == c && t[9..] == rest
  {
    var t := "T" + (a + (":" + (b + (":" + (c + rest)))));
    assert t[4..] == b + (":" + (c + rest));
    assert t[7..] == c + rest;
  }

  /** A printed date and time followed by `zone`. */
  function DatetimeLine(dt: DateTime, zone: string): string {
    DateLine(DateOfDateTime(dt), ClockLine(dt, zone))
  }

  lemma DatetimeLineSlices(dt: DateTime, zone: string, w: nat)
    requires ValidDateTime(dt) && w == |Pad4(dt.ano)|
    ensures var t := DatetimeLine(dt, zone);
            && |t| == w + 15 + |zone|
            && t[0..w + 6] == DateLine(DateOfDateTime(dt), "")
            && t[w + 6] == 'T' && TryInt(t[w + 7..w + 9]) == Some(dt.hora)
            && t[w + 9] == ':' && TryInt(t[w + 10..w + 12]) == Some(dt.minuto)
            && t[w + 12] == ':' && TryInt(t[w + 13..w + 15]) == Some(dt.segundo)
            && t[w + 15..] == zone
            && IsDigit(t[w + 1]) && IsDigit(t[w + 5])
  {
    MonthLength(dt.ano, dt.mes);
    TwoDigits(dt.mes);
    TwoDigits(dt.dia);
    DatePart(dt, zone, w);
    ClockPart(dt, zone, w);
  }

  lemma DatePart(dt: DateTime, zone: string, w: nat)
    requires w == |Pad4(dt.ano)| && |Pad2(dt.mes)| == 2 && |Pad2(dt.dia)| == 2
    requires AllDigits(Pad2(dt.mes)) && AllDigits(Pad2(dt.dia))
    ensures var t, clock := DatetimeLine(dt, zone), ClockLine(dt, zone);
            && |t| == w + 6 + |clock| && t[w + 6..] == clock && t[0..w + 6] == DateLine(DateOfDateTime(dt), "")
            && IsDigit(t[w + 1]) && IsDigit(t[w + 5])
  {
    var d, clock := DateOfDateTime(dt), ClockLine(dt, zone);
    var t := DatetimeLine(dt, zone);
    DateLineSlices(d, clock, w);
    DateLineSlices(d, "", w);
    DateLineRest(d, clock);
    assert t[w + 1..w + 3][0] == t[w + 1] && t[w + 4..w + 6][1] == t[w + 5];
  }

  lemma ClockPart(dt: DateTime, zone: string, w: nat)
    requires ValidDateTime(dt) && w + 6 <= |DatetimeLine(dt, zone)|
    requires DatetimeLine(dt, zone)[w + 6..] == ClockLine(dt, zone)
    ensures var t := DatetimeLine(dt, zone);
            && |t| == w + 15 + |zone|
            && t[w + 6] == 'T' && TryInt(t[w + 7..w + 9]) == Some(dt.hora)
            && t[w + 9] == ':' && TryInt(t[w + 10..w + 12]) == Some(dt.minuto)
            && t[w + 12] == ':' && TryInt(t[w + 13..w + 15]) == Some(dt.segundo)
            && t[w + 15..] == zone
  {
    var t, clock := DatetimeLine(dt, zone), ClockLine(dt, zone);
    TwoDigits(dt.hora);
    TwoDigits(dt.minuto);
    TwoDigits(dt.segundo);
    ClockLineSlices(dt, zone);
    SliceOf(t, clock, w + 6, 1, 3);
    SliceOf(t, clock, w + 6, 4, 6);
    SliceOf(t, clock, w + 6, 7, 9);
    assert t[w + 6..][9..] == t[w + 15..];
    assert t[w + 6] == clock[0] && t[w + 9] == clock[3] && t[w + 12] == clock[6];
  }

  lemma DateLineRest(d: Date, rest: string)
    ensures DateLine(d, rest) == DateLine(d, "") + rest
  {
    var a := Pad2(d.dia) + rest;
    assert a == Pad2(d.dia) + "" + rest;
    var b := Pad2(d.mes) + ("-" + a);
    assert b == Pad2(d.mes) + ("-" + (Pad2(d.dia) + "")) + rest;
  }

  lemma SliceOf(t: string, tail: string, k: nat, i: nat, j: nat)
    requires k <= |t| && t[k..] == tail && i <= j <= |tail|
    ensures t[k + i..k + j] == tail[i..j]
  {
    forall x | 0 <= x < j - i ensures t[k + i..k + j][x] == tail[i..j][x] {
      assert t[k + i..k + j][x] == t[k + (i + x)] && tail[i..j][x] == tail[i + x] && t[k..][i + x] == t[k + (i + x)];
    }
  }

  /** The UTC layout prints the local clock and a bare `Z`, so it gives back the same fields at offset 0:
      the date and time itself exactly when its offset is 0 and its year fits. */
  lemma PrintThenParseUtc(dt: DateTime)
    requires ValidDateTime(dt)
    ensures DatetimeParse(DatetimeFormat(dt, ISO_UTC)) ==
            if YearReads(dt.ano) then Ok(dt.(offsetUtc := 0))
            else if -100 < dt.ano < 0 then Err(ComponentesInvalidos)
            else Err(FormatoInvalido)
    ensures DatetimeParse(DatetimeFormat(dt, ISO_UTC)) == Ok(dt) <==> YearReads(dt.ano) && dt.offsetUtc == 0
  {
    FormatUtc(dt);
    ParseUtcLine(dt);
  }

  lemma FormatUtc(dt: DateTime)
    ensures DatetimeFormat(dt, ISO_UTC) == DatetimeLine(dt, "Z")
  {
    DatetimeFormatIsExpand(dt, ISO_UTC);
    ExpandLayout(dt, "Z");
    ExpandZ(DatetimeTable(dt));
  }

  lemma ExpandZ(m: Table)
    ensures Expand("Z", m) == "Z"
  {
    ExpandLiteral('Z', "", m);
    assert ['Z'] + "" == "Z";
  }

  lemma ExpandLayout(dt: DateTime, zone: string)
    ensures var m := DatetimeTable(dt); Expand(ISO_DATE + (ISO_CLOCK + zone), m) == DatetimeLine(dt, Expand(zone, m))
  {
    ExpandDateLine(DateOfDateTime(dt), ISO_CLOCK + zone, DatetimeTable(dt));
    ExpandClockLine(dt, zone, DatetimeTable(dt));
  }

  lemma ParseUtcLine(dt: DateTime)
    requires ValidDateTime(dt)
    ensures DatetimeParse(DatetimeLine(dt, "Z")) ==
            if YearReads(dt.ano) then Ok(dt.(offsetUtc := 0))
            else if -100 < dt.ano < 0 then Err(ComponentesInvalidos)
            else Err(FormatoInvalido)
  {
    YearText(dt.ano);
    ParseDateLine(DateOfDateTime(dt));
    DatetimeLineSlices(dt, "Z", |Pad4(dt.ano)|);
    if |Pad4(dt.ano)| == 4 {
      var t := DatetimeLine(dt, "Z");
      assert t[19] == t[19..][0];
      ParseFittingLine(dt, "Z", 0);
    }
  }

  /** Parsing a line whose year takes four columns hinges on the date part. */
  lemma ParseFittingLine(dt: DateTime, zone: string, offset: int)
    requires ValidDateTime(dt) && |Pad4(dt.ano)| == 4 && (|zone| == 1 || |zone| == 6)
    requires |DatetimeLine(dt, zone)| == 19 + |zone| && OffsetParse(DatetimeLine(dt, zone)) == Ok(offset)
    ensures DatetimeParse(DatetimeLine(dt, zone)) ==
            match DateParse(DateLine(DateOfDateTime(dt), ""))
            case Err(e) => Err(e)
            case Ok(d) => DatetimeNew(d, dt.hora, dt.minuto, dt.segundo, offset)
  {
    DatetimeLineSlices(dt, zone, 4);
    ParseOf(DatetimeLine(dt, zone), dt.hora, dt.minuto, dt.segundo, offset);
  }

  lemma ParseOf(t: string, h: int, m: int, s: int, offset: int)
    requires (|t| == 20 || |t| == 25) && t[10] == 'T' && t[13] == ':' && t[16] == ':'
    requires TryInt(t[11..13]) == Some(h) && TryInt(t[14..16]) == Some(m) && TryInt(t[17..19]) == Some(s)
    requires OffsetParse(t) == Ok(offset)
    ensures DatetimeParse(t) ==
            match DateParse(t[0..10])
            case Err(e) => Err(e)
            case Ok(d) => DatetimeNew(d, h, m, s, offset)
  {
  }

  /** A signed offset with a colon, as section 5.6 of RFC 3339 writes it; no directive prints this form. */
  function OffsetText(offset: int): string {
    var total := if offset < 0 then -offset else offset;
    (if offset < 0 then "-" else "+") + (Pad2(total / 60) + (":" + Pad2(total % 60)))
  }

  lemma OffsetTextReads(t: string, offset: int)
    requires -720 <= offset <= 840 && |t| >= 19 && t[19..] == OffsetText(offset)
    ensures |t| == 25 && OffsetParse(t) == Ok(offset)
  {
    var total := if offset < 0 then -offset else offset;
    TwoDigits(total / 60);
    TwoDigits(total % 60);
    OffsetSlices(t, if offset < 0 then "-" else "+", Pad2(total / 60), Pad2(total % 60));
    OffsetFieldsParse(t, total / 60, total % 60);
  }

  lemma OffsetFieldsParse(t: string, h: int, m: int)
    requires |t| == 25 && (t[19] == '-' || t[19] == '+') && t[22] == ':' && h <= 14 && m <= 59
    requires TryInt(t[20..22]) == Some(h) && TryInt(t[23..25]) == Some(m)
    ensures OffsetParse(t) == Ok(if t[19] == '-' then -(h * 60 + m) else h * 60 + m)
  {
  }

  lemma OffsetSlices(t: string, sign: string, h: string, m: string)
    requires |t| >= 19 && t[19..] == sign + (h + (":" + m)) && |sign| == 1 && |h| == |m| == 2
    ensures |t| == 25 && t[19] == sign[0] && t[20..22] == h && t[22] == ':' && t[23..25] == m
  {
    var zone := sign + (h + (":" + m));
    OffsetFields(sign, h, m);
    SliceOf(t, zone, 19, 1, 3);
    SliceOf(t, zone, 19, 4, 6);
    assert t[19] == zone[0] && t[22] == zone[3];
  }

  lemma OffsetFields(sign: string, h: string, m: string)
    requires |sign| == 1 && |h| == |m| == 2
    ensures var t := sign + (h + (":" + m));
            |t| == 6 && t[0] == sign[0] && t[1..3] == h && t[3] == ':' && t[4..6] == m
  {
  }

  /** A date and time written with its signed offset reads back, offset included, exactly for the years that
      fit. */
  lemma ParseOffsetLine(dt: DateTime)
    requires ValidDateTime(dt)
    ensures DatetimeParse(DatetimeLine(dt, OffsetText(dt.offsetUtc))) ==
            if YearReads(dt.ano) then Ok(dt)
            else if -100 < dt.ano < 0 then Err(ComponentesInvalidos)
            else Err(FormatoInvalido)
  {
    var zone, w := OffsetText(dt.offsetUtc), |Pad4(dt.ano)|;
    var t := DatetimeLine(dt, zone);
    YearText(dt.ano);
    DatetimeLineSlices(dt, zone, w);
    OffsetTextLength(dt.offsetUtc);
    if w == 4 {
      OffsetTextReads(t, dt.offsetUtc);
      ParseFittingLine(dt, zone, dt.offsetUtc);
      ParseDateLine(DateOfDateTime(dt));
    }
  }

  lemma OffsetTextLength(offset: int)
    requires -720 <= offset <= 840
    ensures |OffsetText(offset)| == 6
  {
    var total := if offset < 0 then -offset else offset;
    TwoDigits(total / 60);
    TwoDigits(total % 60);
  }

  /** The layout with `%z` prints an offset without a colon, which no length accepted by the parser has:
      no date and time ever reads back from it. */
  lemma PrintedOffsetNeverParses(dt: DateTime)
    requires ValidDateTime(dt)
    ensures DatetimeParse(DatetimeFormat(dt, ISO_OFFSET)) == Err(FormatoInvalido)
  {
    FormatOffset(dt);
    OffsetLength(dt.offsetUtc);
    DatetimeLineSlices(dt, OffsetFormat(dt.offsetUtc), |Pad4(dt.ano)|);
    YearText(dt.ano);
  }

  lemma FormatOffset(dt: DateTime)
    ensures DatetimeFormat(dt, ISO_OFFSET) == DatetimeLine(dt, OffsetFormat(dt.offsetUtc))
  {
    var zone := OffsetFormat(dt.offsetUtc);
    DatetimeFormatIsExpand(dt, ISO_OFFSET);
    ExpandLayout(dt, "%z");
    ExpandDirective('z', "", DatetimeTable(dt));
    assert ['%', 'z'] + "" == "%z" && zone + "" == zone;
  }

  lemma OffsetLength(offset: int)
    requires -720 <= offset <= 840
    ensures |OffsetFormat(offset)| == 5
  {
    var total := if offset < 0 then 0 - offset else offset;
    TwoDigits(total / 60);
    TwoDigits(total % 60);
  }

  // ---------- parse, then print ----------

  /** Padding the digits of its value to its own width rebuilds a text of digits. */
  lemma {:induction false} PadOfValue(w: string)
    requires w != "" && AllDigits(w)
    ensures |Digits(Value(w))| <= |w| && PadLeft(Digits(Value(w)), |w|) == w
    ensures w[0] != '0' ==> Digits(Value(w)) == w
  {
    var n := |w| - 1;
    var last := (w[n] - '0') as nat;
    assert w == w[..n] + [w[n]] && DigitChar(last) == w[n] && IsDigit(w[n]);
    if n == 0 {
      PadOneDigit(w, last);
    } else {
      PadOfValue(w[..n]);
      PadOneMore(w[..n], last);
    }
  }

  lemma ValueSnoc(w: string, last: nat)
    requires AllDigits(w) && last < 10
    ensures AllDigits(w + [DigitChar(last)]) && Value(w + [DigitChar(last)]) == 10 * Value(w) + last
  {
    assert (w + [DigitChar(last)])[..|w|] == w;
  }

  lemma PadOneDigit(w: string, last: nat)
    requires last < 10 && w == [DigitChar(last)] && AllDigits(w)
    ensures Value(w) == last && Digits(Value(w)) == w
  {
    assert w[..0] == "" && Value(w[..0]) == 0;
  }

  lemma PadOneMore(w: string, last: nat)
    requires w != "" && AllDigits(w) && last < 10
    requires |Digits(Value(w))| <= |w| && PadLeft(Digits(Value(w)), |w|) == w
    requires w[0] != '0' ==> Digits(Value(w)) == w
    ensures var t := w + [DigitChar(last)];
            && AllDigits(t) && |Digits(Value(t))| <= |t| && PadLeft(Digits(Value(t)), |t|) == t
            && (t[0] != '0' ==> Digits(Value(t)) == t)
  {
    ValueSnoc(w, last);
    PadDigits(w, last);
  }

  lemma PadDigits(w: string, last: nat)
    requires w != "" && AllDigits(w) && last < 10
    requires |Digits(Value(w))| <= |w| && PadLeft(Digits(Value(w)), |w|) == w
    requires w[0] != '0' ==> Digits(Value(w)) == w
    ensures var n, t := 10 * Value(w) + last, w + [DigitChar(last)];
            && |Digits(n)| <= |t| && PadLeft(Digits(n), |t|) == t
            && (t[0] != '0' ==> Digits(n) == t)
  {
    var a, c := Value(w), DigitChar(last);
    if a == 0 {
      assert Digits(a) == "0" && Digits(10 * a + last) == [c];
      assert w == Zeros(|w|);
    } else {
      assert Digits(10 * a + last) == Digits(a) + [c];
      if |Digits(a)| < |w| { assert w + [c] == Zeros(|w| - |Digits(a)|) + (Digits(a) + [c]); }
    }
  }

  /** A month or day slice prints back exactly when it has no plus sign. */
  lemma TwoColumnsPrintBack(w: string)
    requires |w| == 2 && TryInt(w).Some? && TryInt(w).value >= 1
    ensures |Pad2(TryInt(w).value)| == 2 && (Pad2(TryInt(w).value) == w <==> w[0] != '+')
  {
    var v := TryInt(w).value;
    if w[0] == '+' {
      OneDigitValue(w[1..]);
      TwoDigits(v);
    } else {
      assert AllDigits(w) by { OneDigitValue(w[1..]); }
      PadOfValue(w);
    }
  }

  lemma OneDigitValue(w: string)
    requires |w| == 1
    ensures AllDigits(w) ==> Value(w) < 10
  {
    if AllDigits(w) { assert Value(w[..0]) == 0; }
  }

  /** A year slice prints back exactly when it has no plus sign and no zero after a minus sign. */
  lemma FourColumnsPrintBack(w: string)
    requires |w| == 4 && TryInt(w).Some?
    ensures |Pad4(TryInt(w).value)| == 4
    ensures Pad4(TryInt(w).value) == w <==> w[0] != '+' && !(w[0] == '-' && w[1] == '0')
  {
    var v := TryInt(w).value;
    if w[0] == '+' {
      ThreeDigitValue(w[1..]);
      PadReadsBack(v, 4);
    } else if w[0] == '-' {
      ThreeDigitValue(w[1..]);
      NegativePrintsBack(w, v);
    } else {
      PadOfValue(w);
    }
  }

  lemma ThreeDigitValue(w: string)
    requires |w| == 3 && AllDigits(w)
    ensures Value(w) < 1000 && (w[0] == '0' <==> Value(w) < 100)
  {
    var a, b := w[..2], w[..1];
    assert a[..1] == b && b[..0] == "" && a[1] == w[1] && b[0] == w[0];
    DigitValues(w[0]);
    DigitValues(w[1]);
    DigitValues(w[2]);
    assert w[..|w| - 1] == a && Value(w) == 10 * Value(a) + (w[2] - '0') as nat;
    assert a[..|a| - 1] == b && Value(a) == 10 * Value(b) + (w[1] - '0') as nat;
    assert b[..|b| - 1] == "" && Value(b) == (w[0] - '0') as nat;
  }

  lemma DigitValues(c: char)
    requires IsDigit(c)
    ensures 0 <= (c - '0') as int <= 9 && (c == '0' <==> (c - '0') as int == 0)
  {
  }

  lemma NegativePrintsBack(w: string, v: int)
    requires |w| == 4 && w[0] == '-' && AllDigits(w[1..]) && v == -(Value(w[1..]) as int)
    requires Value(w[1..]) < 1000 && (w[1] == '0' <==> Value(w[1..]) < 100)
    ensures |Pad4(v)| == 4 && (Pad4(v) == w <==> w[1] != '0')
  {
    DigitsLength(Value(w[1..]));
    PadOfValue(w[1..]);
    if w[1] != '0' { assert w == "-" + w[1..]; }
  }

  /** Printing an accepted date gives back the accepted text exactly when none of its three fields has a plus
      sign and the year has no zero after a minus sign. */
  lemma ParseThenPrintDate(s: string)
    requires DateParse(s).Ok?
    ensures DateFormat(DateParse(s).value, ISO_DATE) == s
            <==> s[0] != '+' && !(s[0] == '-' && s[1] == '0') && s[5] != '+' && s[8] != '+'
  {
    var d := DateParse(s).value;
    FormatIsoDate(d);
    AcceptedFields(s, d);
    LinePrintsBack(s, d);
  }

  lemma AcceptedFields(s: string, d: Date)
    requires DateParse(s) == Ok(d)
    ensures |s| == 10 && s[4] == '-' && s[7] == '-' && d.mes >= 1 && d.dia >= 1
    ensures TryInt(s[0..4]) == Some(d.ano) && TryInt(s[5..7]) == Some(d.mes) && TryInt(s[8..10]) == Some(d.dia)
  {
  }

  lemma LinePrintsBack(s: string, d: Date)
    requires |s| == 10 && s[4] == '-' && s[7] == '-' && d.mes >= 1 && d.dia >= 1
    requires TryInt(s[0..4]) == Some(d.ano) && TryInt(s[5..7]) == Some(d.mes) && TryInt(s[8..10]) == Some(d.dia)
    ensures DateLine(d, "") == s <==> s[0] != '+' && !(s[0] == '-' && s[1] == '0') && s[5] != '+' && s[8] != '+'
  {
    FourColumnsPrintBack(s[0..4]);
    TwoColumnsPrintBack(s[5..7]);
    TwoColumnsPrintBack(s[8..10]);
    LineSlices(Pad4(d.ano), Pad2(d.mes), Pad2(d.dia), s);
  }

  lemma LineSlices(a: string, b: string, c: string, s: string)
    requires |a| == 4 && |b| == |c| == 2 && |s| == 10 && s[4] == '-' && s[7] == '-'
    ensures a + ("-" + (b + ("-" + (c + "")))) == s <==> a == s[0..4] && b == s[5..7] && c == s[8..10]
  {
    ThreeFields(a, b, c, "", '-');
    SameSlices(a + ("-" + (b + ("-" + (c + "")))), s);
  }

  lemma FormatIsoDate(d: Date)
    ensures DateFormat(d, ISO_DATE) == DateLine(d, "")
  {
    DateFormatIsExpand(d, ISO_DATE);
    ExpandDateLine(d, "", DateTable(d));
    assert ISO_DATE + "" == ISO_DATE;
  }

  lemma SameSlices(a: string, b: string)
    requires |a| == |b| == 10 && a[4] == b[4] && a[7] == b[7]
    ensures a == b <==> a[0..4] == b[0..4] && a[5..7] == b[5..7] && a[8..10] == b[8..10]
  {
    if a[0..4] == b[0..4] && a[5..7] == b[5..7] && a[8..10] == b[8..10] {
      assert a == a[0..4] + [a[4]] + a[5..7] + [a[7]] + a[8..10];
      assert b == b[0..4] + [b[4]] + b[5..7] + [b[7]] + b[8..10];
    }
  }

  /** "+999-01-01" is accepted and prints as "0999-01-01". */
  lemma PlusSignIsLost()
    ensures DateParse("+999-01-01") == Ok(Date(999, 1, 1)) && DateFormat(Date(999, 1, 1), ISO_DATE) != "+999-01-01"
  {
    var s := "+999-01-01";
    assert s[0..4] == "+999" && s[5..7] == "01" && s[8..10] == "01";
    assert Value("999") == 999 by { assert "999"[..2] == "99" && "99"[..1] == "9" && "9"[..0] == ""; }
    assert Value("01") == 1 by { assert "01"[..1] == "0" && "0"[..0] == ""; }
    assert "+999"[1..] == "999";
    ParseThenPrintDate(s);
  }

  // ---------- errors and examples ----------

  /** The first component out of range decides the error: month, then day, then day for the month. */
  lemma DateErrors(ano: int, mes: int, dia: int)
    ensures DateNew(ano, mes, dia) == Err(MesInvalido) <==> !(1 <= mes <= 12)
    ensures DateNew(ano, mes, dia) == Err(DiaInvalido) <==> 1 <= mes <= 12 && dia < 1
    ensures DateNew(ano, mes, dia) == Err(DiaInvalidoParaOMes) <==> 1 <= mes <= 12 && dia > DaysInMonth(ano, mes)
  {
    if 1 <= mes <= 12 { MonthLength(ano, mes); }
  }

  /** After the date: hour, minute, second, offset. */
  lemma DatetimeErrors(d: Date, hora: int, minuto: int, segundo: int, offset: int)
    ensures var r := DatetimeNew(d, hora, minuto, segundo, offset);
            if !ValidDate(d) then DateNew(d.ano, d.mes, d.dia).Err? && r == Err(DateNew(d.ano, d.mes, d.dia).error)
            else
              && (r == Err(HoraInvalida) <==> !(0 <= hora < 24))
              && (r == Err(MinutoInvalido) <==> 0 <= hora < 24 && !(0 <= minuto < 60))
              && (r == Err(SegundoInvalido) <==> 0 <= hora < 24 && 0 <= minuto < 60 && !(0 <= segundo < 60))
              && (r == Err(OffsetInvalido) <==>
                    0 <= hora < 24 && 0 <= minuto < 60 && 0 <= segundo < 60 && !(-12 * 60 <= offset <= 14 * 60))
  {
  }

  /** A date text has the wrong shape, or a part that is no number, or parts that are no date. */
  lemma DateParseErrors(s: string)
    ensures DateParse(s) == Err(FormatoInvalido) <==> !(|s| == 10 && s[4] == '-' && s[7] == '-')
    ensures DateParse(s) == Err(ComponentesInvalidos) <==>
            |s| == 10 && s[4] == '-' && s[7] == '-'
            && (TryInt(s[0..4]) == None || TryInt(s[5..7]) == None || TryInt(s[8..10]) == None)
  {
  }

  /** What was read is what is written: every field of an accepted text, in its place. */
  lemma DatetimeFields(s: string, dt: DateTime)
    requires DatetimeParse(s) == Ok(dt)
    ensures ValidDateTime(dt) && s[10] == 'T' && s[13] == ':' && s[16] == ':'
    ensures DateParse(s[0..10]) == Ok(DateOfDateTime(dt))
    ensures TryInt(s[11..13]) == Some(dt.hora) && TryInt(s[14..16]) == Some(dt.minuto)
    ensures TryInt(s[17..19]) == Some(dt.segundo)
    ensures |s| == 20 ==> s[19] == 'Z' && dt.offsetUtc == 0
    ensures |s| != 20 ==> ZoneReads(s) && dt.offsetUtc == ZoneMinutes(s)
  {
    var d := DateParse(s[0..10]).value;
    assert DateOfDateTime(dt) == d;
  }

  /** Hours and minutes behind a sign, with a colon between them, not beyond 14 and 59. */
  predicate ZoneReads(s: string) {
    && |s| == 25 && (s[19] == '+' || s[19] == '-') && s[22] == ':'
    && TryInt(s[20..22]).Some? && TryInt(s[20..22]).value <= 14
    && TryInt(s[23..25]).Some? && TryInt(s[23..25]).value <= 59
  }

  function ZoneMinutes(s: string): int
    requires ZoneReads(s)
  {
    (if s[19] == '-' then -1 else 1) * (60 * TryInt(s[20..22]).value + TryInt(s[23..25]).value)
  }

  predicate DatetimeShape(s: string) {
    (|s| == 20 || |s| == 25) && s[10] == 'T' && s[13] == ':' && s[16] == ':'
  }

  predicate ClockReads(s: string)
    requires DatetimeShape(s)
  {
    TryInt(s[11..13]).Some? && TryInt(s[14..16]).Some? && TryInt(s[17..19]).Some?
  }

  /** The first thing that is wrong decides: the shape, the date, the clock, the zone. */
  lemma DatetimeParseErrors(s: string)
    ensures var r := DatetimeParse(s);
            if !DatetimeShape(s) then r == Err(FormatoInvalido)
            else if DateParse(s[0..10]).Err? then r.Err? && r.error == DateParse(s[0..10]).error
            else if !ClockReads(s) then r == Err(HoraInvalida)
            else r == Err(TimezoneInvalido) <==> !(if |s| == 20 then s[19] == 'Z' else ZoneReads(s))
  {
  }

  /** Sign, hours and minutes of a printed offset give the offset back. */
  lemma OffsetFormatReads(offset: int)
    requires -6000 < offset < 6000
    ensures var t := OffsetFormat(offset);
            && |t| == 5 && t[0] == (if offset < 0 then '-' else '+')
            && TryInt(t[1..3]).Some? && TryInt(t[3..5]).Some? && 0 <= TryInt(t[3..5]).value < 60
            && var total := TryInt(t[1..3]).value * 60 + TryInt(t[3..5]).value;
               offset == if t[0] == '-' then -total else total
  {
    var total := if offset < 0 then -offset else offset;
    TwoDigits(total / 60);
    TwoDigits(total % 60);
    SignedParts(if offset < 0 then "-" else "+", Pad2(total / 60), Pad2(total % 60));
  }

  lemma SignedParts(sign: string, h: string, m: string)
    requires |sign| == 1 && |h| == |m| == 2
    ensures var t := sign + h + m; |t| == 5 && t[0] == sign[0] && t[1..3] == h && t[3..5] == m
  {
  }

  lemma DigitPair(a: nat, b: nat)
    requires a < 10 && b < 10
    ensures Pad2(10 * a + b) == [DigitChar(a), DigitChar(b)]
  {
    if a == 0 {
      assert Digits(b) == [DigitChar(b)] && Zeros(1) == [DigitChar(0)];
    } else {
      assert (10 * a + b) / 10 == a && (10 * a + b) % 10 == b && Digits(a) == [DigitChar(a)];
    }
  }

  lemma YearExample()
    ensures Pad4(2024) == "2024"
  {
    assert Digits(2) == "2" && Digits(20) == "20" && Digits(202) == "202" && Digits(2024) == "2024";
  }

  lemma DashedText(y: string, m: string, d: string, rest: string)
    requires |y| == 4 && |m| == |d| == 2
    ensures y + ("-" + (m + ("-" + (d + rest)))) == [y[0], y[1], y[2], y[3], '-', m[0], m[1], '-', d[0], d[1]] + rest
  {
  }

  lemma ClockText(h: string, m: string, s: string, rest: string)
    requires |h| == |m| == |s| == 2
    ensures "T" + (h + (":" + (m + (":" + (s + rest)))))
         == ['T', h[0], h[1], ':', m[0], m[1], ':', s[0], s[1]] + rest
  {
  }

  lemma ExampleDay(rest: string)
    ensures DateLine(Date(2024, 2, 29), rest) == "2024-02-29" + rest && ValidDate(Date(2024, 2, 29))
  {
    YearExample();
    DigitPair(0, 2);
    DigitPair(2, 9);
    DashedText("2024", "02", "29", rest);
  }

  lemma ExampleLine(offset: int, zone: string)
    ensures DatetimeLine(DateTime(2024, 2, 29, 13, 5, 9, offset), zone) == "2024-02-29" + ("T13:05:09" + zone)
  {
    DigitPair(1, 3);
    DigitPair(0, 5);
    DigitPair(0, 9);
    ClockText("13", "05", "09", zone);
    ExampleDay("T13:05:09" + zone);
  }

  /** What the layouts are. */
  lemma LayoutTexts()
    ensures ISO_DATE == "%Y-%m-%d"
    ensures ISO_UTC == "%Y-%m-%dT%H:%M:%SZ"
    ensures ISO_OFFSET == "%Y-%m-%dT%H:%M:%S%z"
  {
  }

  lemma LongTexts()
    ensures "2024-02-29" + ("T13:05:09" + "Z") == "2024-02-29T13:05:09Z"
    ensures "2024-02-29" + ("T13:05:09" + "-0330") == "2024-02-29T13:05:09-0330"
    ensures "2024-02-29" + ("T13:05:09" + "-03:30") == "2024-02-29T13:05:09-03:30"
  {
  }

  lemma DateFormatIs(d: Date, line: string)
    requires ValidDate(d) && YearReads(d.ano) && DateLine(d, "") == line
    ensures DateFormat(d, ISO_DATE) == line && DateParse(line) == Ok(d)
  {
    FormatIsoDate(d);
    PrintThenParseDate(d);
  }

  /** The 29th of February 2024, on its own and with a time of day. */
  lemma DateExample(line: string)
    requires line == "2024-02-29"
    ensures DateFormat(Date(2024, 2, 29), ISO_DATE) == line && DateParse(line) == Ok(Date(2024, 2, 29))
  {
    DateFormatIs(Date(2024, 2, 29), line) by { ExampleDay(""); }
  }

  lemma UtcExample()
    ensures DatetimeFormat(DateTime(2024, 2, 29, 13, 5, 9, 0), ISO_UTC) == "2024-02-29T13:05:09Z"
  {
    UtcFormatIs(DateTime(2024, 2, 29, 13, 5, 9, 0), "2024-02-29T13:05:09Z") by {
      ExampleLine(0, "Z");
      LongTexts();
    }
  }

  lemma UtcFormatIs(dt: DateTime, line: string)
    requires DatetimeLine(dt, "Z") == line
    ensures DatetimeFormat(dt, ISO_UTC) == line
  {
    FormatUtc(dt);
  }

  lemma OffsetExample()
    ensures DatetimeFormat(DateTime(2024, 2, 29, 13, 5, 9, -210), ISO_OFFSET) == "2024-02-29T13:05:09-0330"
  {
    OffsetFormatIs(DateTime(2024, 2, 29, 13, 5, 9, -210), "2024-02-29T13:05:09-0330") by {
      ExampleZone();
      ExampleLine(-210, "-0330");
      LongTexts();
    }
  }

  lemma OffsetFormatIs(dt: DateTime, line: string)
    requires DatetimeLine(dt, OffsetFormat(dt.offsetUtc)) == line
    ensures DatetimeFormat(dt, ISO_OFFSET) == line
  {
    FormatOffset(dt);
  }

  lemma ExampleZone()
    ensures OffsetFormat(-210) == "-0330" && OffsetText(-210) == "-03:30"
  {
    DigitPair(0, 3);
    DigitPair(3, 0);
  }

  lemma OffsetLineReads(dt: DateTime, line: string)
    requires ValidDateTime(dt) && YearReads(dt.ano) && DatetimeLine(dt, OffsetText(dt.offsetUtc)) == line
    ensures DatetimeParse(line) == Ok(dt)
  {
    ParseOffsetLine(dt);
  }

  lemma ColonOffsetExample(line: string)
    requires line == "2024-02-29T13:05:09-03:30"
    ensures DatetimeParse(line) == Ok(DateTime(2024, 2, 29, 13, 5, 9, -210))
  {
    ExampleDay("");
    OffsetLineReads(DateTime(2024, 2, 29, 13, 5, 9, -210), line) by {
      ExampleZone();
      ExampleLine(-210, "-03:30");
      LongTexts();
    }
  }
}
