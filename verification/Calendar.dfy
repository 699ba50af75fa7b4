/** Day numbers of lib_src/com/dap_time.c: two implementations that count years in a loop
    (fcom_ToDay, fcom_GetDaysTo) and one with a closed form (fcom_GetDayOfWeek), on the proleptic
    Gregorian calendar of section 3.2.1 of ISO 8601:2004. Day 1 is 0001-01-01. */
module Calendar {
  import opened CStrings

  datatype Date = Date(year: int, month: int, day: int)

  predicate IsLeapYear(year: int) {
    (year % 4 == 0 && year % 100 != 0) || year % 400 == 0
  }

  function MonthLength(year: int, month: int): (n: nat)
    requires 1 <= month <= 12
    ensures 28 <= n <= 31
  {
    if month == 2 then (if IsLeapYear(year) then 29 else 28)
    else if month == 4 || month == 6 || month == 9 || month == 11 then 30
    else 31
  }

  function YearLength(year: int): nat {
    if IsLeapYear(year) then 366 else 365
  }

  /** The days of the years before `year`, from year 1. */
  function DaysBeforeYear(year: int): nat {
    if year <= 1 then 0 else DaysBeforeYear(year - 1) + YearLength(year - 1)
  }

  /** The days of the months before `month`. */
  function DaysBeforeMonth(year: int, month: int): nat
    requires month <= 13
    decreases if month < 1 then 0 else month
  {
    if month <= 1 then 0 else DaysBeforeMonth(year, month - 1) + MonthLength(year, month - 1)
  }

  function DayNumber(d: Date): int
    requires d.month <= 13
  {
    DaysBeforeYear(d.year) + DaysBeforeMonth(d.year, d.month) + d.day
  }

  // ---------------------------------------------------------------- day numbers in closed form

  lemma MonthSteps(m: int)
    requires 2 <= m <= 13
    ensures (367 * m - 362) / 12 == (367 * (m - 1) - 362) / 12 + (if m == 3 || m == 5 || m == 7 || m == 10 || m == 12 then 30 else 31)
  {
  }

  /** The days of the months before `m`, without a table. */
  lemma {:induction false} MonthsClosed(year: int, m: int)
    requires 1 <= m <= 13
    ensures DaysBeforeMonth(year, m)
         == (367 * m - 362) / 12 - (if m <= 2 then 0 else if (year % 4 == 0 && year % 100 != 0) || year % 400 == 0 then 1 else 2)
    decreases m
  {
    if m > 1 {
      MonthSteps(m);
      MonthsClosed(year, m - 1);
    }
  }

  lemma {:induction false} YearsCount(year: int)
    requires year >= 1
    ensures DaysBeforeYear(year) == 365 * (year - 1) + (year - 1) / 4 - (year - 1) / 100 + (year - 1) / 400
    decreases year
  {
    if year > 1 {
      QuotientSteps(year - 1);
      YearsCount(year - 1);
    }
  }

  /** The number of any date in closed form; a year or a month below 1 counts as 1. */
  lemma NumberClosed(year: int, month: int, day: int)
    requires month <= 13
    ensures var y, m := if year < 1 then 1 else year, if month < 1 then 1 else month;
            DayNumber(Date(year, month, day))
              == 365 * (y - 1) + (y - 1) / 4 - (y - 1) / 100 + (y - 1) / 400
                 + (367 * m - 362) / 12 - (if m <= 2 then 0 else if (year % 4 == 0 && year % 100 != 0) || year % 400 == 0 then 1 else 2) + day
  {
    YearsCount(if year < 1 then 1 else year);
    MonthsClosed(year, if month < 1 then 1 else month);
  }

  lemma QuotientSteps(n: int)
    ensures n / 4 == (n - 1) / 4 + (if n % 4 == 0 then 1 else 0)
    ensures n / 100 == (n - 1) / 100 + (if n % 100 == 0 then 1 else 0)
    ensures n / 400 == (n - 1) / 400 + (if n % 400 == 0 then 1 else 0)
    ensures n % 400 == 0 ==> n % 100 == 0
    ensures n % 100 == 0 ==> n % 4 == 0
  {
  }

  // ---------------------------------------------------------------- texts of digits

  lemma NextDigit(s: string, acc: nat)
    requires s != "" && IsDigit(s[0])
    ensures Digits(s, acc) == Digits(s[1..], 10 * acc + (s[0] as int - 48)) && Digits("", acc) == acc
    ensures Atoi(s) == Digits(s, 0)
  {
  }

  lemma AtoiTwo(s: string)
    requires |s| == 2 && IsDigit(s[0]) && IsDigit(s[1])
    ensures Atoi(s) == 10 * (s[0] as int - 48) + (s[1] as int - 48)
  {
    NextDigit(s, 0);
    NextDigit(s[1..], s[0] as int - 48);
    assert s[1..][1..] == "";
  }

  lemma AtoiFour(s: string)
    requires |s| == 4 && forall i :: 0 <= i < 4 ==> IsDigit(s[i])
    ensures Atoi(s) == 1000 * (s[0] as int - 48) + 100 * (s[1] as int - 48) + 10 * (s[2] as int - 48) + (s[3] as int - 48)
  {
    var a, b, c := s[1..], s[2..], s[3..];
    var x := s[0] as int - 48;
    var y := 10 * x + (s[1] as int - 48);
    assert a[1..] == b && b[1..] == c && c[1..] == "" && a[0] == s[1] && b[0] == s[2] && c[0] == s[3];
    NextDigit(s, 0);
    NextDigit(a, x);
    NextDigit(b, y);
    NextDigit(c, 10 * y + (s[2] as int - 48));
  }

  // ---------------------------------------------------------------- the three implementations

  const MONTHS := [31, 28, 31, 30, 31, 30, 31, 31, 30, 31, 30, 31]

  /** The table with February corrected holds the month lengths. */
  lemma MonthTable(year: int)
    ensures forall m :: 1 <= m <= 12 ==>
              (if IsLeapYear(year) then MONTHS[1 := MONTHS[1] + 1] else MONTHS)[m - 1] == MonthLength(year, m)
  {
  }

  /** The same for the table with a leading zero. */
  lemma LeadingMonthTable(year: int)
    ensures var t := [0] + MONTHS;
            forall m :: 1 <= m <= 12 ==> (if IsLeapYear(year) then t[2 := t[2] + 1] else t)[m] == MonthLength(year, m)
  {
  }

  /** The year loop of fcom_ToDay. */
  method YearLoop(year: int) returns (n: int)
    ensures n == DaysBeforeYear(year)
  {
    n := 0;
    var i := 1;
    while i < year
      invariant 1 <= i && (i <= year || i == 1) && n == DaysBeforeYear(i)
    {
      n := n + (if (i % 4 == 0 && i % 100 != 0) || i % 400 == 0 then 366 else 365);
      i := i + 1;
    }
  }

  /** The month loop of fcom_ToDay over its corrected table. */
  method MonthLoop(year: int, month: int) returns (n: int)
    requires month <= 13
    ensures n == DaysBeforeMonth(year, month)
  {
    var months := [0] + MONTHS;
    if (year % 4 == 0 && year % 100 != 0) || year % 400 == 0 {
      months := months[2 := months[2] + 1];
    }
    LeadingMonthTable(year);
    n := 0;
    var i := 1;
    while i < month
      invariant 1 <= i && (i <= month || i == 1) && n == DaysBeforeMonth(year, i)
    {
      n := n + months[i];
      i := i + 1;
    }
  }

  /** fcom_ToDay: the day number, in closed form. */
  method ToDay(year: int, month: int, day: int) returns (n: int)
    requires month <= 13
    ensures n == DayNumber(Date(year, month, day))
    ensures var y, m := if year < 1 then 1 else year, if month < 1 then 1 else month;
            n == 365 * (y - 1) + (y - 1) / 4 - (y - 1) / 100 + (y - 1) / 400
                 + (367 * m - 362) / 12 - (if m <= 2 then 0 else if (year % 4 == 0 && year % 100 != 0) || year % 400 == 0 then 1 else 2) + day
  {
    var years := YearLoop(year);
    var months := MonthLoop(year, month);
    NumberClosed(year, month, day);
    n := years + months + day;
  }

  /** The date that fcom_GetDaysTo reads off YYYYMMDD text. */
  function CompactDate(text: string): Date
    requires |text| >= 8
  {
    Date(Atoi(text[..4]), Atoi(text[4..6]), Atoi(text[6..8]))
  }

  /** Eight digits read as four, two and two. */
  lemma CompactSays(text: string)
    requires |text| >= 8
    ensures (forall i :: 0 <= i < 8 ==> '0' <= text[i] <= '9') ==>
              CompactDate(text) == Date(
                1000 * (text[0] as int - 48) + 100 * (text[1] as int - 48) + 10 * (text[2] as int - 48) + (text[3] as int - 48),
                10 * (text[4] as int - 48) + (text[5] as int - 48), 10 * (text[6] as int - 48) + (text[7] as int - 48))
  {
    if forall i :: 0 <= i < 8 ==> '0' <= text[i] <= '9' {
      assert forall i :: 0 <= i < 4 ==> text[..4][i] == text[i];
      AtoiFour(text[..4]);
      AtoiTwo(text[4..6]);
      AtoiTwo(text[6..8]);
    }
  }

  /** The month loop of fcom_GetDaysTo. */
  method MonthsTo(year: int, month: int) returns (n: int)
    requires month <= 13
    ensures n == DaysBeforeMonth(year, month)
  {
    MonthTable(year);
    n := 0;
    var i := 0;
    while i < month - 1
      invariant 0 <= i && (i <= month - 1 || i == 0) && n == DaysBeforeMonth(year, i + 1)
    {
      if i == 1 {
        n := n + MONTHS[i] + (if IsLeapYear(year) then 1 else 0);
      } else {
        n := n + MONTHS[i];
      }
      i := i + 1;
    }
  }

  /** The year loop of fcom_GetDaysTo. */
  method YearsTo(year: int) returns (n: int)
    ensures n == DaysBeforeYear(year)
  {
    n := 0;
    var i := 1;
    while i < year
      invariant 1 <= i && (i <= year || i == 1) && n == DaysBeforeYear(i)
    {
      n := n + 365 + (if IsLeapYear(i) then 1 else 0);
      i := i + 1;
    }
  }

  /** fcom_GetDaysTo: for eight digits the number in closed form. */
  method GetDaysTo(text: string) returns (n: int)
    requires |text| >= 8 && CompactDate(text).month <= 13
    ensures n == DayNumber(CompactDate(text))
    ensures (forall i :: 0 <= i < 8 ==> '0' <= text[i] <= '9') ==>
              var year := 1000 * (text[0] as int - 48) + 100 * (text[1] as int - 48) + 10 * (text[2] as int - 48) + (text[3] as int - 48);
              var month := 10 * (text[4] as int - 48) + (text[5] as int - 48);
              var day := 10 * (text[6] as int - 48) + (text[7] as int - 48);
              var y, m := if year < 1 then 1 else year, if month < 1 then 1 else month;
              n == 365 * (y - 1) + (y - 1) / 4 - (y - 1) / 100 + (y - 1) / 400
                   + (367 * m - 362) / 12 - (if m <= 2 then 0 else if (year % 4 == 0 && year % 100 != 0) || year % 400 == 0 then 1 else 2) + day
  {
    var year, month, day := Atoi(text[..4]), Atoi(text[4..6]), Atoi(text[6..8]);
    CompactSays(text);
    NumberClosed(year, month, day);
    var years := YearsTo(year);
    var months := MonthsTo(year, month);
    n := years + months + day;
  }

  function Part(parts: seq<string>, i: nat): int {
    if i < |parts| then Atoi(parts[i]) else 0
  }

  /** The date that fcom_GetDayOfWeek reads off its text. */
  function DashedDate(text: string): Date {
    var parts := Tokens(text, "-");
    Date(Part(parts, 0), Part(parts, 1), Part(parts, 2))
  }

  /** Words separated by dashes are read one after the other. */
  lemma ThreeWords(y: string, m: string, d: string)
    requires y != "" && m != "" && d != "" && '-' !in y && '-' !in m && '-' !in d
    ensures DashedDate(y + ("-" + (m + ("-" + d)))) == Date(Atoi(y), Atoi(m), Atoi(d))
  {
    TokensHead(y, "-" + (m + ("-" + d)), "-");
    assert ("-" + (m + ("-" + d)))[1..] == m + ("-" + d);
    TokensHead(m, "-" + d, "-");
    assert ("-" + d)[1..] == d && d + "" == d;
    TokensHead(d, "", "-");
  }

  /** Digits in the form YYYY-MM-DD. */
  lemma DashedSays(text: string)
    requires |text| == 10 && text[4] == text[7] == '-'
    requires forall i :: 0 <= i < 10 && i != 4 && i != 7 ==> '0' <= text[i] <= '9'
    ensures DashedDate(text) == Date(
              1000 * (text[0] as int - 48) + 100 * (text[1] as int - 48) + 10 * (text[2] as int - 48) + (text[3] as int - 48),
              10 * (text[5] as int - 48) + (text[6] as int - 48), 10 * (text[8] as int - 48) + (text[9] as int - 48))
  {
    var y, m, d := text[..4], text[5..7], text[8..];
    assert text == y + ("-" + (m + ("-" + d)));
    ThreeWords(y, m, d);
    AtoiFour(y);
    AtoiTwo(m);
    AtoiTwo(d);
  }

  /** The closed form of fcom_GetDayOfWeek. */
  function YearsClosed(year: int): int {
    (year - 1) * 365 + CDiv(year - 1, 4) - CDiv(year - 1, 100) + CDiv(year - 1, 400)
  }

  /** The leap test of fcom_GetDayOfWeek is that of the others. */
  lemma LeapTest(year: int)
    ensures year % 4 == 0 && (year % 100 != 0 || year % 400 == 0) <==> IsLeapYear(year)
  {
    var q := year / 400;
    assert year % 400 == 0 ==> year == 4 * (100 * q);
    FourTimes(100 * q);
  }

  lemma FourTimes(k: int)
    ensures (4 * k) % 4 == 0
  {
  }

  /** fcom_GetDayOfWeek on text that fits its 11-byte buffer. */
  method GetDayOfWeek(text: string) returns (w: int)
    requires |text| <= 10 && DashedDate(text).month <= 13
    ensures var d := DashedDate(text);
            && w == CMod(YearsClosed(d.year) + DaysBeforeMonth(d.year, d.month) + d.day, 7)
            && (d.year >= 1 && d.day >= 0 ==> w == DayNumber(d) % 7)
  {
    var year, month, day := ReadDashed(text);
    WeekdayClosed(Date(year, month, day));
    var months := MONTHS;
    var total := (year - 1) * 365 + CDiv(year - 1, 4) - CDiv(year - 1, 100) + CDiv(year - 1, 400);
    if year % 4 == 0 && (year % 100 != 0 || year % 400 == 0) {
      months := months[1 := months[1] + 1];
    }
    LeapTest(year);
    MonthTable(year);
    var before := AddMonths(months, month, year);
    total := total + before;
    total := total + day;
    w := CMod(total, 7);
  }

  /** What the closed form, the months and the day add up to is the day number. */
  lemma WeekdayClosed(d: Date)
    requires d.month <= 13
    ensures d.year >= 1 && d.day >= 0 ==>
              CMod(YearsClosed(d.year) + DaysBeforeMonth(d.year, d.month) + d.day, 7) == DayNumber(d) % 7
  {
    if d.year >= 1 {
      ClosedFormCounts(d.year);
    }
  }

  lemma WeekdayFromOne(year: int, month: int, day: int)
    requires year >= 1 && month <= 13
    ensures var m := if month < 1 then 1 else month;
            DayNumber(Date(year, month, day)) % 7 ==
              (365 * (year - 1) + (year - 1) / 4 - (year - 1) / 100 + (year - 1) / 400
               + (367 * m - 362) / 12 - (if m <= 2 then 0 else if (year % 4 == 0 && year % 100 != 0) || year % 400 == 0 then 1 else 2) + day) % 7
  {
    NumberClosed(year, month, day);
  }

  /** The weekday of text that says a date from year 1 on, in closed form. */
  method WeekdaySaid(text: string, ghost year: int, ghost month: int, ghost day: nat) returns (w: int)
    requires |text| <= 10 && DashedDate(text) == Date(year, month, day) && year >= 1 && month <= 13
    ensures var m := if month < 1 then 1 else month;
            w == (365 * (year - 1) + (year - 1) / 4 - (year - 1) / 100 + (year - 1) / 400
                  + (367 * m - 362) / 12 - (if m <= 2 then 0 else if (year % 4 == 0 && year % 100 != 0) || year % 400 == 0 then 1 else 2) + day) % 7
  {
    w := GetDayOfWeek(text);
    WeekdayFromOne(year, month, day);
  }

  /** The weekday of ten characters YYYY-MM-DD from year 1 on, in closed form. */
  method WeekdayOfText(text: string) returns (w: int)
    requires |text| == 10 && text[4] == text[7] == '-'
    requires forall i :: 0 <= i < 10 && i != 4 && i != 7 ==> '0' <= text[i] <= '9'
    requires 10 * (text[5] as int - 48) + (text[6] as int - 48) <= 13 && !(text[0] == text[1] == text[2] == text[3] == '0')
    ensures var year := 1000 * (text[0] as int - 48) + 100 * (text[1] as int - 48) + 10 * (text[2] as int - 48) + (text[3] as int - 48);
            var month := 10 * (text[5] as int - 48) + (text[6] as int - 48);
            var day := 10 * (text[8] as int - 48) + (text[9] as int - 48);
            var m := if month < 1 then 1 else month;
            w == (365 * (year - 1) + (year - 1) / 4 - (year - 1) / 100 + (year - 1) / 400
                  + (367 * m - 362) / 12 - (if m <= 2 then 0 else if (year % 4 == 0 && year % 100 != 0) || year % 400 == 0 then 1 else 2) + day) % 7
  {
    ghost var year := 1000 * (text[0] as int - 48) + 100 * (text[1] as int - 48) + 10 * (text[2] as int - 48) + (text[3] as int - 48);
    ghost var month := 10 * (text[5] as int - 48) + (text[6] as int - 48);
    ghost var day := 10 * (text[8] as int - 48) + (text[9] as int - 48);
    DashedSays(text);
    w := WeekdaySaid(text, year, month, day);
  }

  /** The month loop of fcom_GetDayOfWeek over its corrected table. */
  method AddMonths(months: seq<int>, month: int, ghost year: int) returns (n: int)
    requires |months| == 12 && month <= 13 && forall m :: 1 <= m <= 12 ==> months[m - 1] == MonthLength(year, m)
    ensures n == DaysBeforeMonth(year, month)
  {
    n := 0;
    var i := 0;
    while i < month - 1
      invariant 0 <= i && (i <= month - 1 || i == 0) && n == DaysBeforeMonth(year, i + 1)
    {
      n := n + months[i];
      i := i + 1;
    }
  }

  /** The strtok loop of fcom_GetDayOfWeek. */
  method ReadDashed(text: string) returns (year: int, month: int, day: int)
    ensures Date(year, month, day) == DashedDate(text)
  {
    year, month, day := 0, 0, 0;
    var parts := Tokens(text, "-");
    for k := 0 to |parts|
      invariant year == (if k > 0 then Part(parts, 0) else 0)
      invariant month == (if k > 1 then Part(parts, 1) else 0)
      invariant day == (if k > 2 then Part(parts, 2) else 0)
    {
      match k {
        case 0 => year := Atoi(parts[k]);
        case 1 => month := Atoi(parts[k]);
        case 2 => day := Atoi(parts[k]);
        case _ =>
      }
    }
  }

  // ---------------------------------------------------------------- agreement

  lemma ClosedFormStep(year: int)
    requires year >= 1
    ensures YearsClosed(year + 1) == YearsClosed(year) + YearLength(year)
  {
    QuotientSteps(year);
  }

  lemma {:induction false} ClosedFormCounts(year: int)
    requires year >= 1
    ensures YearsClosed(year) == DaysBeforeYear(year)
    decreases year
  {
    if year > 1 {
      ClosedFormStep(year - 1);
      ClosedFormCounts(year - 1);
    }
  }

  /** The closed form counts the days exactly from year 1 on. */
  lemma ClosedFormExact(year: int)
    ensures YearsClosed(year) == DaysBeforeYear(year) <==> year >= 1
  {
    if year >= 1 {
      ClosedFormCounts(year);
    } else {
      assert YearsClosed(year) < 0;
    }
  }

  /** A date whose numbers fit four and two digits. */
  type DigitDate = d: Date | 0 <= d.year < 10000 && 0 <= d.month < 100 && 0 <= d.day < 100 witness Date(0, 0, 0)

  function Compact(d: DigitDate): string {
    Pad4(d.year) + Pad2(d.month) + Pad2(d.day)
  }

  function Dashed(d: DigitDate): string {
    Pad4(d.year) + ("-" + (Pad2(d.month) + ("-" + Pad2(d.day))))
  }

  lemma CompactReads(d: DigitDate)
    ensures |Compact(d)| == 8 && CompactDate(Compact(d)) == d
  {
    var t := Compact(d);
    assert t[..4] == Pad4(d.year) && t[4..6] == Pad2(d.month) && t[6..8] == Pad2(d.day);
    AtoiPad4(d.year);
    AtoiPad2(d.month);
    AtoiPad2(d.day);
  }

  lemma DashedReads(d: DigitDate)
    ensures |Dashed(d)| == 10 && DashedDate(Dashed(d)) == d
  {
    ThreeWords(Pad4(d.year), Pad2(d.month), Pad2(d.day));
    AtoiPad4(d.year);
    AtoiPad2(d.month);
    AtoiPad2(d.day);
  }

  ghost predicate Valid(d: Date) {
    d.year >= 1 && 1 <= d.month <= 12 && 1 <= d.day <= MonthLength(d.year, d.month)
  }

  type ValidDate = d: Date | Valid(d) witness Date(1, 1, 1)

  /** The weekday of a valid date with a four-digit year is its day number modulo 7. */
  method WeekdayOf(d: ValidDate) returns (w: int)
    requires d.year < 10000
    ensures w == DayNumber(d) % 7
  {
    DashedReads(d);
    w := GetDayOfWeek(Dashed(d));
  }

  /** On every valid date with a four-digit year the three implementations agree: the two loops give
      one day number, and the weekday is that number modulo 7. */
  method Agree(d: ValidDate) returns (n: int, m: int, w: int)
    requires d.year < 10000
    ensures n == m == DayNumber(d) && w == n % 7
  {
    CompactReads(d);
    n := ToDay(d.year, d.month, d.day);
    m := GetDaysTo(Compact(d));
    w := WeekdayOf(d);
  }

  // ---------------------------------------------------------------- day numbers and the calendar

  function NextDay(d: Date): Date
    requires 1 <= d.month <= 12
  {
    if d.day < MonthLength(d.year, d.month) then Date(d.year, d.month, d.day + 1)
    else if d.month < 12 then Date(d.year, d.month + 1, 1)
    else Date(d.year + 1, 1, 1)
  }

  lemma MonthsFillYear(year: int)
    ensures DaysBeforeMonth(year, 13) == YearLength(year)
  {
    assert DaysBeforeMonth(year, 3) == 31 + MonthLength(year, 2);
    assert DaysBeforeMonth(year, 5) == DaysBeforeMonth(year, 3) + 61;
    assert DaysBeforeMonth(year, 7) == DaysBeforeMonth(year, 5) + 61;
    assert DaysBeforeMonth(year, 9) == DaysBeforeMonth(year, 7) + 62;
    assert DaysBeforeMonth(year, 11) == DaysBeforeMonth(year, 9) + 61;
  }

  lemma {:induction false} MonthsGrow(year: int, m: int, k: int)
    requires 1 <= m <= k <= 13
    ensures DaysBeforeMonth(year, m) <= DaysBeforeMonth(year, k)
    decreases k
  {
    if m < k {
      MonthsGrow(year, m, k - 1);
    }
  }

  lemma {:induction false} YearsGrow(y: int, z: int)
    requires y <= z
    ensures DaysBeforeYear(y) <= DaysBeforeYear(z)
    decreases z - y
  {
    if y < z {
      YearsGrow(y, z - 1);
    }
  }

  /** The calendar order on dates. */
  predicate Before(a: Date, b: Date) {
    a.year < b.year || (a.year == b.year && (a.month < b.month || (a.month == b.month && a.day < b.day)))
  }

  lemma DayInsideYear(d: ValidDate)
    ensures DaysBeforeYear(d.year) < DayNumber(d) <= DaysBeforeYear(d.year + 1)
    ensures DayNumber(d) <= DaysBeforeYear(d.year) + DaysBeforeMonth(d.year, d.month + 1)
  {
    MonthsGrow(d.year, d.month + 1, 13);
    MonthsFillYear(d.year);
  }

  lemma EarlierYear(a: ValidDate, b: ValidDate)
    requires a.year < b.year
    ensures DayNumber(a) < DayNumber(b)
  {
    DayInsideYear(a);
    DayInsideYear(b);
    YearsGrow(a.year + 1, b.year);
  }

  lemma EarlierIsLess(a: ValidDate, b: ValidDate)
    requires Before(a, b)
    ensures DayNumber(a) < DayNumber(b)
  {
    if a.year < b.year {
      EarlierYear(a, b);
    } else if a.month < b.month {
      MonthsGrow(a.year, a.month + 1, b.month);
    }
  }

  /** Day numbers order dates as the calendar does, so two dates never share one. */
  lemma DayNumbersOrdered(a: ValidDate, b: ValidDate)
    ensures DayNumber(a) < DayNumber(b) <==> Before(a, b)
    ensures DayNumber(a) == DayNumber(b) <==> a == b
  {
    if Before(a, b) {
      EarlierIsLess(a, b);
    } else if Before(b, a) {
      EarlierIsLess(b, a);
    }
  }

  /** The next calendar day is one more, across month, year and century ends. */
  lemma NextDayIsOneMore(d: ValidDate)
    ensures Valid(NextDay(d)) && DayNumber(NextDay(d)) == DayNumber(d) + 1
  {
    if d.month == 12 {
      MonthsFillYear(d.year);
      assert DaysBeforeYear(d.year + 1) == DaysBeforeYear(d.year) + DaysBeforeMonth(d.year, 13);
    }
  }

  /** The date that many days after 0000-12-31, counted day by day. */
  function DateOf(n: nat): Date
    requires n >= 1
    ensures 1 <= DateOf(n).month <= 12
  {
    if n == 1 then Date(1, 1, 1) else NextDay(DateOf(n - 1))
  }

  /** Numbering and counting day by day are inverse: every positive number is the number of exactly one
      valid date. */
  lemma {:induction false} DateOfNumber(n: nat)
    requires n >= 1
    ensures Valid(DateOf(n)) && DayNumber(DateOf(n)) == n
  {
    if n > 1 {
      DateOfNumber(n - 1);
      NextDayIsOneMore(DateOf(n - 1));
    }
  }

  lemma NumberOfDate(d: ValidDate)
    ensures DayNumber(d) >= 1 && DateOf(DayNumber(d)) == d
  {
    DateOfNumber(DayNumber(d));
    DayNumbersOrdered(d, DateOf(DayNumber(d)));
  }

  lemma Mod4Period(year: int)
    ensures (year + 400) % 4 == year % 4
  {
  }

  lemma Mod100Period(year: int)
    ensures (year + 400) % 100 == year % 100
  {
  }

  lemma Mod400Period(year: int)
    ensures (year + 400) % 400 == year % 400
  {
  }

  lemma LeapPeriod(year: int)
    ensures IsLeapYear(year + 400) == IsLeapYear(year)
  {
    Mod4Period(year);
    Mod100Period(year);
    Mod400Period(year);
  }

  lemma YearsPeriod(year: int)
    requires year >= 1
    ensures DaysBeforeYear(year + 400) == DaysBeforeYear(year) + 146097
  {
    ClosedFormCounts(year);
    ClosedFormCounts(year + 400);
    assert (year + 399) / 4 == (year - 1) / 4 + 100;
    assert (year + 399) / 100 == (year - 1) / 100 + 4;
    assert (year + 399) / 400 == (year - 1) / 400 + 1;
  }

  lemma WeekPeriod(n: int)
    ensures (n + 146097) % 7 == n % 7
  {
  }

  /** 400 years are 146097 days, a whole number of weeks. */
  lemma Period400(d: ValidDate)
    ensures Valid(d.(year := d.year + 400))
    ensures DayNumber(d.(year := d.year + 400)) == DayNumber(d) + 146097
    ensures DayNumber(d.(year := d.year + 400)) % 7 == DayNumber(d) % 7
  {
    LeapPeriod(d.year);
    NumberPeriod(d.year, d.month, d.day);
    WeekPeriod(DayNumber(d));
  }

  lemma NumberPeriod(year: int, month: int, day: int)
    requires year >= 1 && month <= 12
    ensures DayNumber(Date(year + 400, month, day)) == DayNumber(Date(year, month, day)) + 146097
  {
    LeapPeriod(year);
    YearsPeriod(year);
    MonthsSameKind(year, year + 400, month);
  }

  lemma {:induction false} MonthsSameKind(y: int, z: int, m: int)
    requires m <= 13 && IsLeapYear(y) == IsLeapYear(z)
    ensures DaysBeforeMonth(y, m) == DaysBeforeMonth(z, m)
    decreases if m < 1 then 0 else m
  {
    if m > 1 {
      MonthsSameKind(y, z, m - 1);
    }
  }

  // ---------------------------------------------------------------- differences

  /** fcom_DiffDay. */
  method DiffDay(a: Date, b: Date) returns (n: int)
    requires a.month <= 13 && b.month <= 13
    ensures n == DayNumber(b) - DayNumber(a)
  {
    var x := ToDay(a.year, a.month, a.day);
    var y := ToDay(b.year, b.month, b.day);
    n := y - x;
  }

  /** fcom_GetRelativeDate: the distance in days, whichever date is first; zero only for one date. */
  method GetRelativeDate(a: string, b: string) returns (n: int)
    requires |a| >= 8 && |b| >= 8 && CompactDate(a).month <= 13 && CompactDate(b).month <= 13
    ensures var x, y := DayNumber(CompactDate(a)), DayNumber(CompactDate(b));
            n == if x < y then y - x else x - y
    ensures Valid(CompactDate(a)) && Valid(CompactDate(b)) ==> (n == 0 <==> CompactDate(a) == CompactDate(b))
  {
    if Valid(CompactDate(a)) && Valid(CompactDate(b)) {
      DayNumbersOrdered(CompactDate(a), CompactDate(b));
    }
    var x := GetDaysTo(a);
    var y := GetDaysTo(b);
    n := if x - y < 0 then -(x - y) else x - y;
  }

  /** `k` days after `d` by the calendar. */
  function Later(d: Date, k: nat): Date
    requires 1 <= d.month <= 12
    ensures 1 <= Later(d, k).month <= 12
  {
    if k == 0 then d else NextDay(Later(d, k - 1))
  }

  /** The difference counts calendar days: `b` is `k` days after `a` exactly when the numbers differ
      by `k`, so differences add up along any chain of dates. */
  lemma {:induction false} DifferenceCountsDays(a: ValidDate, b: ValidDate, k: nat)
    ensures b == Later(a, k) <==> DayNumber(b) - DayNumber(a) == k
  {
    LaterNumber(a, k);
    DayNumbersOrdered(b, Later(a, k));
  }

  lemma {:induction false} LaterNumber(d: ValidDate, k: nat)
    ensures Valid(Later(d, k)) && DayNumber(Later(d, k)) == DayNumber(d) + k
  {
    if k > 0 {
      LaterNumber(d, k - 1);
      NextDayIsOneMore(Later(d, k - 1));
    }
  }
}
