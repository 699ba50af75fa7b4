/** The format-driven time printer and parser of lib_src/com/dap_time.c (fcom_time2str, fcom_str2time).

    Both walk the format string with one index. A doubled letter is a field, `YYYY` a four-digit year,
    `YY` a two-digit one; anything else is copied by the printer and skipped by the parser. Characters
    are bytes: storing a number keeps it modulo 256 and loading reads a signed char. The calendar side
    (localtime_r, mktime) is not part of the model: both functions work on a broken-down time. */
module TimeFormat {
  import opened CStrings

  /** `struct tm`: `mon` counts from 0 and `year` from 1900. */
  datatype Tm = Tm(sec: int, min: int, hour: int, mday: int, mon: int, year: int)

  datatype Field = Sec | Min | Hour | Day | Mon | Year4 | Year2 | Literal

  const ZERO_TM := Tm(0, 0, 0, 0, 0, 0)

  /** Every field fits two digits and the year four. */
  predicate Printable(tm: Tm) {
    && 0 <= tm.sec <= 99 && 0 <= tm.min <= 99 && 0 <= tm.hour <= 99 && 0 <= tm.mday <= 99
    && 0 <= tm.mon + 1 <= 99 && 0 <= tm.year + 1900 <= 9999
  }

  predicate IsByteString(s: string) {
    forall i :: 0 <= i < |s| ==> s[i] != '\0' && s[i] as int < 256
  }

  /** A character of a C string, with its terminator. */
  function At(s: string, i: nat): char {
    if i < |s| then s[i] else '\0'
  }

  function Store(x: int): (c: char)
    ensures c as int < 256
  {
    (x % 256) as char
  }

  function Load(c: char): int {
    if c as int < 128 then c as int else c as int - 256
  }

  // ---------------------------------------------------------------- what a format says

  /** The field that starts at index `i` of a format. */
  function FieldAt(fmt: string, i: nat): Field
    requires i < |fmt|
  {
    var c, d := fmt[i], At(fmt, i + 1);
    if c == 's' && d == 's' then Sec
    else if c == 'm' && d == 'm' then Min
    else if c == 'h' && d == 'h' then Hour
    else if c == 'D' && d == 'D' then Day
    else if c == 'M' && d == 'M' then Mon
    else if c == 'Y' && d == 'Y' && At(fmt, i + 2) == 'Y' && At(fmt, i + 3) == 'Y' then Year4
    else if c == 'Y' && d == 'Y' then Year2
    else Literal
  }

  function Width(f: Field): nat {
    match f
    case Literal => 1
    case Year4 => 4
    case _ => 2
  }

  /** A field never reaches past the end of the format. */
  lemma FieldInside(fmt: string, i: nat)
    requires i < |fmt| && IsByteString(fmt)
    ensures i + Width(FieldAt(fmt, i)) <= |fmt|
  {
  }

  predicate IsYear(f: Field) {
    f == Year4 || f == Year2
  }

  predicate Mentions(fmt: string, i: nat, f: Field)
    decreases |fmt| - i
  {
    i < |fmt| && (FieldAt(fmt, i) == f || Mentions(fmt, i + Width(FieldAt(fmt, i)), f))
  }

  function YearCount(fmt: string, i: nat): nat
    decreases |fmt| - i
  {
    if i >= |fmt| then 0
    else (if IsYear(FieldAt(fmt, i)) then 1 else 0) + YearCount(fmt, i + Width(FieldAt(fmt, i)))
  }

  /** The last year field of a format; Literal when it has none. */
  function LastYear(fmt: string, i: nat): (f: Field)
    ensures f == Literal || IsYear(f)
    decreases |fmt| - i
  {
    if i >= |fmt| then Literal
    else
      var later := LastYear(fmt, i + Width(FieldAt(fmt, i)));
      if later != Literal then later else if IsYear(FieldAt(fmt, i)) then FieldAt(fmt, i) else Literal
  }

  // ---------------------------------------------------------------- the two scanners

  function Two(x: int): string {
    [Store(CDiv(x, 10) + 0x30), Store(CMod(x, 10) + 0x30)]
  }

  /** The text of a field. A year field first adds 1900 to the year it works on; the two-digit one
      prints its tens digit twice. */
  function Text(f: Field, tm: Tm, c: char): (t: string)
    ensures |t| == Width(f)
  {
    match f
    case Sec => Two(tm.sec)
    case Min => Two(tm.min)
    case Hour => Two(tm.hour)
    case Day => Two(tm.mday)
    case Mon => Two(tm.mon + 1)
    case Year4 =>
      var y := tm.year + 1900;
      Two(CDiv(y, 100)) + Two(CMod(y, 100))
    case Year2 =>
      var y := tm.year + 1900;
      [Store(CDiv(CMod(y, 100), 10) + 0x30), Store(CDiv(CMod(y, 100), 10) + 0x30)]
    case Literal => [c]
  }

  function AfterText(f: Field, tm: Tm): Tm {
    if IsYear(f) then tm.(year := tm.year + 1900) else tm
  }

  function Print(fmt: string, i: nat, tm: Tm): string
    decreases |fmt| - i
  {
    if i >= |fmt| then ""
    else
      var f := FieldAt(fmt, i);
      Text(f, tm, fmt[i]) + Print(fmt, i + Width(f), AfterText(f, tm))
  }

  function TwoAt(s: string, i: nat): int {
    (Load(At(s, i)) - 0x30) * 10 + (Load(At(s, i + 1)) - 0x30)
  }

  function Take(f: Field, src: string, i: nat, tm: Tm): Tm {
    match f
    case Sec => tm.(sec := TwoAt(src, i))
    case Min => tm.(min := TwoAt(src, i))
    case Hour => tm.(hour := TwoAt(src, i))
    case Day => tm.(mday := TwoAt(src, i))
    case Mon => tm.(mon := TwoAt(src, i) - 1)
    case Year4 =>
      tm.(year := (Load(At(src, i)) - 0x30) * 1000 + (Load(At(src, i + 1)) - 0x30) * 100 + TwoAt(src, i + 2) - 1900)
    case Year2 => tm.(year := TwoAt(src, i))
    case Literal => tm
  }

  function Parse(fmt: string, i: nat, src: string, tm: Tm): Tm
    decreases |fmt| - i
  {
    if i >= |fmt| then tm
    else
      var f := FieldAt(fmt, i);
      Parse(fmt, i + Width(f), src, Take(f, src, i, tm))
  }

  // ---------------------------------------------------------------- reading back what was printed

  /** The thousands digit of a printed year as the parser reads it: exact below 80000, wrapped above. */
  function Lead(y: int): int {
    Load(Store(y / 1000 + 0x30)) - 0x30
  }

  /** What the parser makes of one field that the printer wrote. */
  function ReadBack(f: Field, tm: Tm, acc: Tm): Tm {
    match f
    case Sec => acc.(sec := tm.sec)
    case Min => acc.(min := tm.min)
    case Hour => acc.(hour := tm.hour)
    case Day => acc.(mday := tm.mday)
    case Mon => acc.(mon := tm.mon)
    case Year4 => acc.(year := Lead(tm.year + 1900) * 1000 + (tm.year + 1900) % 1000 - 1900)
    case Year2 => acc.(year := 11 * ((tm.year + 1900) % 100 / 10))
    case Literal => acc
  }

  function Restore(fmt: string, i: nat, tm: Tm, acc: Tm): Tm
    decreases |fmt| - i
  {
    if i >= |fmt| then acc
    else
      var f := FieldAt(fmt, i);
      Restore(fmt, i + Width(f), AfterText(f, tm), ReadBack(f, tm, acc))
  }

  /** Every two-digit field fits, and the year is not negative. */
  predicate Fits(tm: Tm) {
    && 0 <= tm.sec <= 99 && 0 <= tm.min <= 99 && 0 <= tm.hour <= 99 && 0 <= tm.mday <= 99
    && 0 <= tm.mon + 1 <= 99 && 0 <= tm.year + 1900
  }

  lemma DigitLoads(d: nat)
    requires d <= 9
    ensures Load(Store(d + 0x30)) - 0x30 == d
  {
  }

  lemma TwoReadBack(x: int, src: string, i: nat)
    requires 0 <= x <= 99 && i + 2 <= |src| && src[i..i + 2] == Two(x)
    ensures TwoAt(src, i) == x
  {
    OfNat(x, 10);
    DigitLoads(x / 10);
    DigitLoads(x % 10);
    assert src[i] == src[i..i + 2][0] && src[i + 1] == src[i..i + 2][1];
  }

  lemma Year2ReadBack(y: nat, src: string, i: nat)
    requires i + 2 <= |src|
    requires src[i..i + 2] == [Store(CDiv(CMod(y, 100), 10) + 0x30), Store(CDiv(CMod(y, 100), 10) + 0x30)]
    ensures TwoAt(src, i) == 11 * (y % 100 / 10)
  {
    assert src[i] == src[i..i + 2][0] && src[i + 1] == src[i..i + 2][1];
  }

  lemma Year4ReadBack(y: nat, high: nat, low: nat, src: string, i: nat)
    requires y == 100 * high + low && low < 100 && i + 4 <= |src| && src[i..i + 4] == Two(high) + Two(low)
    ensures (Load(At(src, i)) - 0x30) * 1000 + (Load(At(src, i + 1)) - 0x30) * 100 + TwoAt(src, i + 2) == Lead(y) * 1000 + y % 1000
  {
    var t := src[i..i + 4];
    assert src[i] == t[0] && src[i + 1] == t[1] && src[i + 2..i + 4] == t[2..];
    TwoReadBack(low, src, i + 2);
    OfNat(high, 10);
    HighDigits(y, t[0], t[1]);
    YearDigits(y);
  }

  /** C division is plain division on what is not negative. */
  lemma OfNat(a: nat, b: int)
    requires b > 0
    ensures CDiv(a, b) == a / b && CMod(a, b) == a % b
  {
  }

  lemma HighDigits(y: nat, c: char, d: char)
    requires c == Store(y / 100 / 10 + 0x30) && d == Store(y / 100 % 10 + 0x30)
    ensures (Load(c) - 0x30) * 1000 + (Load(d) - 0x30) * 100 == Lead(y) * 1000 + y / 100 % 10 * 100
  {
    YearDigits(y);
  }

  lemma YearDigits(y: nat)
    ensures y / 100 / 10 == y / 1000 && y / 100 % 10 * 100 + y % 100 == y % 1000
  {
  }

  lemma FieldReadBack(f: Field, tm: Tm, c: char, src: string, i: nat, acc: Tm)
    requires Fits(tm) && i + Width(f) <= |src|
    requires src[i..i + Width(f)] == Text(f, tm, c)
    ensures Take(f, src, i, acc) == ReadBack(f, tm, acc)
  {
    match f
    case Sec => TwoReadBack(tm.sec, src, i);
    case Min => TwoReadBack(tm.min, src, i);
    case Hour => TwoReadBack(tm.hour, src, i);
    case Day => TwoReadBack(tm.mday, src, i);
    case Mon => TwoReadBack(tm.mon + 1, src, i);
    case Year4 =>
      var y := tm.year + 1900;
      OfNat(y, 100);
      Year4ReadBack(y, y / 100, y % 100, src, i);
    case Year2 => Year2ReadBack(tm.year + 1900, src, i);
    case Literal =>
  }

  /** The two scanners stay in lockstep: the parser reads each field back from where the printer wrote it. */
  lemma {:induction false} Lockstep(fmt: string, i: nat, before: string, tm: Tm, acc: Tm)
    requires IsByteString(fmt) && |before| == i <= |fmt| && Fits(tm)
    ensures Parse(fmt, i, before + Print(fmt, i, tm), acc) == Restore(fmt, i, tm, acc)
    decreases |fmt| - i
  {
    if i < |fmt| {
      var f, src := FieldAt(fmt, i), before + Print(fmt, i, tm);
      FieldInside(fmt, i);
      var t, j := Text(f, tm, fmt[i]), i + Width(f);
      Assoc(before, t, Print(fmt, j, AfterText(f, tm)));
      assert src[i..j] == t;
      FieldReadBack(f, tm, fmt[i], src, i, acc);
      Lockstep(fmt, j, before + t, AfterText(f, tm), ReadBack(f, tm, acc));
    }
  }

  lemma {:induction false} PrintLength(fmt: string, i: nat, tm: Tm)
    requires IsByteString(fmt) && i <= |fmt|
    ensures |Print(fmt, i, tm)| == |fmt| - i
    decreases |fmt| - i
  {
    if i < |fmt| {
      FieldInside(fmt, i);
      PrintLength(fmt, i + Width(FieldAt(fmt, i)), AfterText(FieldAt(fmt, i), tm));
    }
  }

  // ---------------------------------------------------------------- which fields come back

  /** The fields other than the year: restored when mentioned, left alone otherwise. */
  lemma {:induction false} RestoreClock(fmt: string, i: nat, tm: Tm, acc: Tm)
    ensures var r := Restore(fmt, i, tm, acc);
            && r.sec == (if Mentions(fmt, i, Sec) then tm.sec else acc.sec)
            && r.min == (if Mentions(fmt, i, Min) then tm.min else acc.min)
            && r.hour == (if Mentions(fmt, i, Hour) then tm.hour else acc.hour)
            && r.mday == (if Mentions(fmt, i, Day) then tm.mday else acc.mday)
            && r.mon == (if Mentions(fmt, i, Mon) then tm.mon else acc.mon)
    decreases |fmt| - i
  {
    if i < |fmt| {
      var f := FieldAt(fmt, i);
      RestoreClock(fmt, i + Width(f), AfterText(f, tm), ReadBack(f, tm, acc));
    }
  }

  /** The year: decided by the last year field and by how many there are. */
  lemma {:induction false} RestoreYear(fmt: string, i: nat, tm: Tm, acc: Tm)
    ensures var y := tm.year + 1900 * YearCount(fmt, i);
            Restore(fmt, i, tm, acc).year ==
              match LastYear(fmt, i)
              case Year4 => Lead(y) * 1000 + y % 1000 - 1900
              case Year2 => 11 * (y % 100 / 10)
              case _ => acc.year
    ensures YearCount(fmt, i) == 0 <==> LastYear(fmt, i) == Literal
    decreases |fmt| - i
  {
    if i < |fmt| {
      var f := FieldAt(fmt, i);
      RestoreYear(fmt, i + Width(f), AfterText(f, tm), ReadBack(f, tm, acc));
    }
  }

  /** Printing a time with any format and parsing the text with the same format gives back every
      mentioned field other than the year, and zero for the others. */
  lemma ClockRoundTrip(fmt: string, tm: Tm)
    requires IsByteString(fmt) && Fits(tm)
    ensures var r := Parse(fmt, 0, Print(fmt, 0, tm), ZERO_TM);
            && r.sec == (if Mentions(fmt, 0, Sec) then tm.sec else 0)
            && r.min == (if Mentions(fmt, 0, Min) then tm.min else 0)
            && r.hour == (if Mentions(fmt, 0, Hour) then tm.hour else 0)
            && r.mday == (if Mentions(fmt, 0, Day) then tm.mday else 0)
            && r.mon == (if Mentions(fmt, 0, Mon) then tm.mon else 0)
  {
    RoundTripRestores(fmt, tm);
    RestoreClock(fmt, 0, tm, ZERO_TM);
  }

  lemma RoundTripRestores(fmt: string, tm: Tm)
    requires IsByteString(fmt) && Fits(tm)
    ensures Parse(fmt, 0, Print(fmt, 0, tm), ZERO_TM) == Restore(fmt, 0, tm, ZERO_TM)
  {
    assert "" + Print(fmt, 0, tm) == Print(fmt, 0, tm);
    Lockstep(fmt, 0, "", tm, ZERO_TM);
  }

  /** How often the thousands digit of a printed year wraps in its character: never below year 80000. */
  function Wraps(y: int): int {
    (y / 1000 + 176) / 256
  }

  lemma LeadWraps(y: nat)
    ensures Lead(y) == y / 1000 - 256 * Wraps(y)
    ensures Wraps(y) == 0 <==> y < 80000
  {
    var x := y / 1000 + 0x30;
    assert x % 256 == x - 256 * (x / 256);
  }

  /** The 1900 years that each of `n` year fields but the first adds are undone by the wraps. */
  predicate YearSurvives(year: int, n: nat) {
    19 * (n - 1) == 2560 * Wraps(year + 1900 * n)
  }

  /** Below year 80000, the added years counted in, that takes a single year field. */
  lemma SingleYearField(year: int, n: nat)
    requires 0 <= year + 1900 && year + 1900 * n < 80000 && n > 0
    ensures YearSurvives(year, n) <==> n == 1
  {
    LeadWraps(year + 1900 * n);
  }

  /** Exactly when the year comes back: no field mentions it and it is 1900, the last year field has two digits
      and the year is one of 1900, 1911, 1922, .., 1999, or it has four digits and the year survives. */
  lemma YearRoundTrip(fmt: string, tm: Tm)
    requires IsByteString(fmt) && Fits(tm)
    ensures Parse(fmt, 0, Print(fmt, 0, tm), ZERO_TM).year == tm.year <==>
              match LastYear(fmt, 0)
              case Year4 => YearSurvives(tm.year, YearCount(fmt, 0))
              case Year2 => 0 <= tm.year <= 99 && tm.year % 11 == 0
              case _ => tm.year == 0
  {
    var n := YearCount(fmt, 0);
    RoundTripRestores(fmt, tm);
    RestoreYear(fmt, 0, tm, ZERO_TM);
    if n > 0 {
      YearExact(tm.year, n);
    }
    YearTens(tm.year, n);
  }

  lemma YearExact(year: int, n: nat)
    requires 0 <= year + 1900 && n > 0
    ensures Lead(year + 1900 * n) * 1000 + (year + 1900 * n) % 1000 - 1900 == year <==> YearSurvives(year, n)
  {
    var y := year + 1900 * n;
    LeadWraps(y);
    assert y == 1000 * (y / 1000) + y % 1000;
  }

  lemma YearTens(year: int, n: nat)
    requires 0 <= year + 1900
    ensures 11 * ((year + 1900 * n) % 100 / 10) == year <==> 0 <= year <= 99 && year % 11 == 0
  {
    SameTens(year, n);
    if 0 <= year <= 99 {
      assert year % 100 == year && year == 10 * (year / 10) + year % 10;
    }
  }

  lemma SameTens(year: int, n: nat)
    ensures (year + 1900 * n) % 100 == year % 100
  {
    var k := 19 * n;
    assert (year + 100 * k) % 100 == year % 100;
  }

  /** With at most one year field, written YYYY, a time with year 0 to 9999 comes back whole: every
      mentioned field has its value. */
  lemma RoundTrip(fmt: string, tm: Tm)
    requires IsByteString(fmt) && Printable(tm)
    requires YearCount(fmt, 0) <= 1 && !Mentions(fmt, 0, Year2)
    ensures var r := Parse(fmt, 0, Print(fmt, 0, tm), ZERO_TM);
            && r.sec == (if Mentions(fmt, 0, Sec) then tm.sec else 0)
            && r.min == (if Mentions(fmt, 0, Min) then tm.min else 0)
            && r.hour == (if Mentions(fmt, 0, Hour) then tm.hour else 0)
            && r.mday == (if Mentions(fmt, 0, Day) then tm.mday else 0)
            && r.mon == (if Mentions(fmt, 0, Mon) then tm.mon else 0)
            && r.year == (if Mentions(fmt, 0, Year4) then tm.year else 0)
  {
    ClockRoundTrip(fmt, tm);
    OneYear(fmt, tm);
  }

  lemma OneYear(fmt: string, tm: Tm)
    requires IsByteString(fmt) && Printable(tm)
    requires YearCount(fmt, 0) <= 1 && !Mentions(fmt, 0, Year2)
    ensures Parse(fmt, 0, Print(fmt, 0, tm), ZERO_TM).year == if Mentions(fmt, 0, Year4) then tm.year else 0
  {
    RoundTripRestores(fmt, tm);
    RestoreYear(fmt, 0, tm, ZERO_TM);
    LastMentioned(fmt, 0);
    if YearCount(fmt, 0) == 1 {
      YearExact(tm.year, 1);
      LeadWraps(tm.year + 1900);
    }
  }

  lemma {:induction false} LastMentioned(fmt: string, i: nat)
    ensures LastYear(fmt, i) != Literal ==> Mentions(fmt, i, LastYear(fmt, i))
    ensures LastYear(fmt, i) == Literal ==> !Mentions(fmt, i, Year4) && !Mentions(fmt, i, Year2)
    ensures IsYear(LastYear(fmt, i)) || LastYear(fmt, i) == Literal
    decreases |fmt| - i
  {
    if i < |fmt| {
      LastMentioned(fmt, i + Width(FieldAt(fmt, i)));
    }
  }

  // ---------------------------------------------------------------- the loops of the source

  /** Two characters. */
  method PutTwo(out: array<char>, at: nat, pair: string)
    requires at + 2 <= out.Length && |pair| == 2
    modifies out
    ensures out[..] == old(out[..at]) + pair + old(out[at + 2..])
  {
    out[at], out[at + 1] := pair[0], pair[1];
  }

  /** Four characters, the last two first. */
  method PutFour(out: array<char>, at: nat, high: string, low: string)
    requires at + 4 <= out.Length && |high| == |low| == 2
    modifies out
    ensures out[..] == old(out[..at]) + (high + low) + old(out[at + 4..])
  {
    PutTwo(out, at + 2, low);
    TwoPairs(old(out[..]), out[..], at, high, low);
    PutTwo(out, at, high);
  }

  lemma TwoPairs(a: string, b: string, at: nat, high: string, low: string)
    requires at + 4 <= |a| && |high| == |low| == 2 && b == a[..at + 2] + low + a[at + 4..]
    ensures b[..at] + high + b[at + 2..] == a[..at] + (high + low) + a[at + 4..]
  {
    assert b[..at] == a[..at] && b[at + 2..] == low + a[at + 4..];
  }

  /** The switch of fcom_time2str at one index. */
  method PrintField(out: array<char>, index: nat, fmt: string, tm: Tm) returns (next: nat, st: Tm)
    requires IsByteString(fmt) && index < |fmt| < out.Length
    modifies out
    ensures next == index + Width(FieldAt(fmt, index)) <= |fmt| && st == AfterText(FieldAt(fmt, index), tm)
    ensures out[..] == old(out[..index]) + Text(FieldAt(fmt, index), tm, fmt[index]) + old(out[next..])
  {
    FieldInside(fmt, index);
    next, st := index + 2, tm;
    var c, d := fmt[index], At(fmt, index + 1);
    if c == 's' && d == 's' {
      PutTwo(out, index, Two(st.sec));
    } else if c == 'm' && d == 'm' {
      PutTwo(out, index, Two(st.min));
    } else if c == 'h' && d == 'h' {
      PutTwo(out, index, Two(st.hour));
    } else if c == 'D' && d == 'D' {
      PutTwo(out, index, Two(st.mday));
    } else if c == 'M' && d == 'M' {
      PutTwo(out, index, Two(st.mon + 1));
    } else if c == 'Y' && d == 'Y' && At(fmt, index + 2) == 'Y' && At(fmt, index + 3) == 'Y' {
      st := st.(year := st.year + 1900);
      PutFour(out, index, Two(CDiv(st.year, 100)), Two(CMod(st.year, 100)));
      next := index + 4;
    } else if c == 'Y' && d == 'Y' {
      st := st.(year := st.year + 1900);
      var tens := CDiv(CMod(st.year, 100), 10);
      out[index], out[index + 1] := Store(tens + 0x30), Store(tens + 0x30);
    } else {
      out[index] := c;
      next := index + 1;
    }
  }

  lemma Overwritten(a: string, at: nat, f: string, n: nat)
    requires at + |f| <= n <= |a|
    ensures var b := a[..at] + f + a[at + |f|..];
            |b| == |a| && b[..at + |f|] == a[..at] + f && b[n..] == a[n..]
  {
  }

  /** One turn of the loop: the text so far and the text still to come stay what they are together. */
  method PrintNext(out: array<char>, index: nat, fmt: string, tm: Tm) returns (next: nat, st: Tm)
    requires IsByteString(fmt) && index < |fmt| < out.Length
    modifies out
    ensures index < next <= |fmt| && out[|fmt|..] == old(out[|fmt|..])
    ensures out[..next] + Print(fmt, next, st) == old(out[..index]) + Print(fmt, index, tm)
  {
    ghost var f := Text(FieldAt(fmt, index), tm, fmt[index]);
    next, st := PrintField(out, index, fmt, tm);
    Overwritten(old(out[..]), index, f, |fmt|);
    Assoc(old(out[..index]), f, Print(fmt, next, st));
  }

  /** memset of the first `n` characters, the last of which stays as the terminator. */
  method Clear(out: array<char>, n: nat)
    requires 0 < n <= out.Length
    modifies out
    ensures out[n - 1..] == ['\0'] + old(out[n..])
  {
    for k := 0 to n
      invariant forall j :: 0 <= j < k ==> out[j] == '\0'
      invariant forall j :: k <= j < out.Length ==> out[j] == old(out[j])
    {
      out[k] := '\0';
    }
  }

  /** fcom_time2str after localtime_r: prints into `out`, terminated. */
  method Time2Str(tm: Tm, out: array<char>, fmt: string)
    requires IsByteString(fmt) && |fmt| < out.Length
    modifies out
    ensures out[..] == Print(fmt, 0, tm) + ['\0'] + old(out[|fmt| + 1..])
  {
    Clear(out, |fmt| + 1);
    PrintLength(fmt, 0, tm);
    var index, st := 0, tm;
    ghost var text, tail := Print(fmt, 0, tm), ['\0'] + old(out[|fmt| + 1..]);
    while index < |fmt|
      invariant index <= |fmt|
      invariant out[..index] + Print(fmt, index, st) == text
      invariant out[|fmt|..] == tail
      decreases |fmt| - index
    {
      index, st := PrintNext(out, index, fmt, st);
    }
    TextAndTail(out[..], |fmt|, text, tail);
  }

  lemma TextAndTail(a: string, n: nat, text: string, tail: string)
    requires n <= |a| && a[..n] + "" == text && a[n..] == tail
    ensures a == text + tail
  {
    assert a == a[..n] + a[n..];
  }

  /** fcom_str2time before mktime. */
  method Str2Time(src: string, fmt: string) returns (tm: Tm)
    requires |fmt| <= |src|
    ensures tm == Parse(fmt, 0, src, ZERO_TM)
  {
    var index := 0;
    tm := ZERO_TM;
    while index < |fmt|
      invariant Parse(fmt, index, src, tm) == Parse(fmt, 0, src, ZERO_TM)
      decreases |fmt| - index
    {
      var c, d := fmt[index], At(fmt, index + 1);
      if c == 's' && d == 's' {
        tm := tm.(sec := (Load(At(src, index)) - 0x30) * 10 + (Load(At(src, index + 1)) - 0x30));
        index := index + 2;
      } else if c == 'm' && d == 'm' {
        tm := tm.(min := (Load(At(src, index)) - 0x30) * 10 + (Load(At(src, index + 1)) - 0x30));
        index := index + 2;
      } else if c == 'h' && d == 'h' {
        tm := tm.(hour := (Load(At(src, index)) - 0x30) * 10 + (Load(At(src, index + 1)) - 0x30));
        index := index + 2;
      } else if c == 'D' && d == 'D' {
        tm := tm.(mday := (Load(At(src, index)) - 0x30) * 10 + (Load(At(src, index + 1)) - 0x30));
        index := index + 2;
      } else if c == 'M' && d == 'M' {
        tm := tm.(mon := (Load(At(src, index)) - 0x30) * 10 + (Load(At(src, index + 1)) - 0x30) - 1);
        index := index + 2;
      } else if c == 'Y' && d == 'Y' && At(fmt, index + 2) == 'Y' && At(fmt, index + 3) == 'Y' {
        tm := tm.(year := (Load(At(src, index)) - 0x30) * 1000 + (Load(At(src, index + 1)) - 0x30) * 100
                        + (Load(At(src, index + 2)) - 0x30) * 10 + (Load(At(src, index + 3)) - 0x30) - 1900);
        index := index + 4;
      } else if c == 'Y' && d == 'Y' {
        tm := tm.(year := (Load(At(src, index)) - 0x30) * 10 + (Load(At(src, index + 1)) - 0x30));
        index := index + 2;
      } else {
        index := index + 1;
      }
    }
  }
}
