/** The time printer and parser of lib_src/com/dap_time.c by the letters of the format: which characters come out
    for each piece of a format, and which field each piece of a text goes to. */
module TimePieces {
  import opened CStrings
  import opened TimeFormat

  predicate IsYearPiece(p: string) {
    p == "YYYY" || p == "YY"
  }

  /** A field of two or four letters, or one other character. */
  predicate IsPiece(p: string) {
    p in {"ss", "mm", "hh", "DD", "MM", "YYYY", "YY"} || |p| == 1
  }

  /** A letter on its own must not meet itself in the next piece. */
  predicate Alone(p: string, next: string) {
    |p| == 1 && p[0] in "smhDMY" && next != "" ==> next[0] != p[0]
  }

  function Next(ps: seq<string>): string {
    if |ps| > 1 then ps[1] else ""
  }

  /** The pieces of a format with at most one year. */
  predicate Pieces(ps: seq<string>) {
    ps != [] ==> IsPiece(ps[0]) && Alone(ps[0], Next(ps)) && Pieces(ps[1..]) && (IsYearPiece(ps[0]) ==> NoYear(ps[1..]))
  }

  predicate NoYear(ps: seq<string>) {
    ps != [] ==> !IsYearPiece(ps[0]) && NoYear(ps[1..])
  }

  function Meaning(p: string): Field {
    if p == "ss" then Sec else if p == "mm" then Min else if p == "hh" then Hour else if p == "DD" then Day
    else if p == "MM" then Mon else if p == "YYYY" then Year4 else if p == "YY" then Year2 else Literal
  }

  lemma NextOfConcat(ps: seq<string>)
    requires Pieces(ps)
    ensures Concat(ps) == "" <==> ps == []
    ensures ps != [] ==> Concat(ps)[0] == ps[0][0]
  {
  }

  /** The field that a piece is, by what follows it. */
  lemma FieldOf(fmt: string, i: nat, p: string)
    requires IsPiece(p) && i + |p| <= |fmt| && forall k :: 0 <= k < |p| ==> fmt[i + k] == p[k]
    requires |p| == 1 && p[0] in "smhDMY" ==> At(fmt, i + 1) != p[0]
    requires p == "YY" ==> !(At(fmt, i + 2) == 'Y' && At(fmt, i + 3) == 'Y')
    ensures FieldAt(fmt, i) == Meaning(p) && Width(Meaning(p)) == |p|
  {
    assert fmt[i + 0] == p[0] && (|p| > 1 ==> fmt[i + 1] == p[1]) && (|p| > 2 ==> fmt[i + 2] == p[2] && fmt[i + 3] == p[3]);
  }

  lemma RestAt(fmt: string, i: nat, p: string, rest: string)
    requires i <= |fmt| && fmt[i..] == p + rest
    ensures i + |p| <= |fmt| && fmt[i + |p|..] == rest && forall k :: 0 <= k < |p| ==> fmt[i + k] == p[k]
    ensures forall k :: 0 <= k < |rest| ==> fmt[i + |p| + k] == rest[k]
  {
    assert forall k :: 0 <= k < |p| ==> fmt[i..][k] == p[k];
    assert fmt[i + |p|..] == fmt[i..][|p|..];
    assert forall k :: 0 <= k < |rest| ==> fmt[i + |p|..][k] == rest[k];
  }

  /** What stands at the start of the rest of a format. */
  lemma PieceField(fmt: string, i: nat, ps: seq<string>)
    requires IsByteString(fmt) && i <= |fmt| && fmt[i..] == Concat(ps) && Pieces(ps) && ps != []
    ensures i < |fmt| && FieldAt(fmt, i) == Meaning(ps[0]) && Width(Meaning(ps[0])) == |ps[0]| && i + |ps[0]| <= |fmt|
    ensures fmt[i + |ps[0]|..] == Concat(ps[1..]) && fmt[i] == ps[0][0]
  {
    var p, rest := ps[0], Concat(ps[1..]);
    RestAt(fmt, i, p, rest);
    NextOfConcat(ps[1..]);
    if |p| == 1 && p[0] in "smhDMY" {
      if rest == "" {
        assert |fmt| == i + 1;
      } else {
        assert fmt[i + |p| + 0] == rest[0] == ps[1][0];
      }
    }
    if p == "YY" {
      YearAlone(ps[1..]);
      if |rest| >= 2 {
        assert fmt[i + |p| + 0] == rest[0] && fmt[i + |p| + 1] == rest[1];
      } else {
        assert |fmt| == i + 2 + |rest|;
      }
    }
    FieldOf(fmt, i, p);
    assert fmt[i + 0] == p[0];
  }

  /** Behind `YY` there are not two more. */
  lemma YearAlone(ps: seq<string>)
    requires Pieces(ps) && NoYear(ps)
    ensures |Concat(ps)| >= 2 ==> !(Concat(ps)[0] == 'Y' && Concat(ps)[1] == 'Y')
  {
    NextOfConcat(ps);
    if ps != [] {
      NextOfConcat(ps[1..]);
    }
  }

  // ---------------------------------------------------------------- printing

  predicate TwoDigits(tm: Tm) {
    0 <= tm.sec <= 99 && 0 <= tm.min <= 99 && 0 <= tm.hour <= 99 && 0 <= tm.mday <= 99 && -1 <= tm.mon <= 98
  }

  /** What is printed for a piece. */
  function Said(p: string, tm: Tm): string
    requires TwoDigits(tm) && 0 <= tm.year + 1900 <= 9999
  {
    if p == "ss" then Pad2(tm.sec) else if p == "mm" then Pad2(tm.min) else if p == "hh" then Pad2(tm.hour)
    else if p == "DD" then Pad2(tm.mday) else if p == "MM" then Pad2(tm.mon + 1)
    else if p == "YYYY" then Pad4(tm.year + 1900)
    else if p == "YY" then [Digit((tm.year + 1900) % 100 / 10), Digit((tm.year + 1900) % 100 / 10)]
    else p
  }

  lemma TwoIsPad(x: int)
    requires 0 <= x <= 99
    ensures Two(x) == Pad2(x)
  {
    OfNat(x, 10);
  }

  lemma YearSaid(y: nat)
    requires y <= 9999
    ensures Two(CDiv(y, 100)) + Two(CMod(y, 100)) == Pad4(y)
    ensures Store(CDiv(CMod(y, 100), 10) + 0x30) == Digit(y % 100 / 10)
  {
    OfNat(y, 100);
    OfNat(y % 100, 10);
    TwoIsPad(y / 100);
    TwoIsPad(y % 100);
  }

  lemma YearText(p: string, tm: Tm, c: char)
    requires IsYearPiece(p) && TwoDigits(tm) && 0 <= tm.year + 1900 <= 9999
    ensures Text(Meaning(p), tm, c) == Said(p, tm)
  {
    var y := tm.year + 1900;
    YearSaid(y);
    if p == "YYYY" {
      assert Text(Year4, tm, c) == Two(CDiv(y, 100)) + Two(CMod(y, 100));
    } else {
      assert Text(Year2, tm, c) == [Store(CDiv(CMod(y, 100), 10) + 0x30), Store(CDiv(CMod(y, 100), 10) + 0x30)];
    }
  }

  lemma TextSaid(p: string, tm: Tm, c: char)
    requires IsPiece(p) && (|p| == 1 ==> p[0] == c) && TwoDigits(tm) && 0 <= tm.year + 1900 <= 9999
    ensures Text(Meaning(p), tm, c) == Said(p, tm)
  {
    if IsYearPiece(p) {
      YearText(p, tm, c);
    } else {
      TwoIsPad(if p == "ss" then tm.sec else if p == "mm" then tm.min else if p == "hh" then tm.hour
               else if p == "DD" then tm.mday else tm.mon + 1);
    }
  }

  function AllSaid(ps: seq<string>, tm: Tm): seq<string>
    requires TwoDigits(tm) && 0 <= tm.year + 1900 <= 9999
  {
    if ps == [] then [] else [Said(ps[0], tm)] + AllSaid(ps[1..], tm)
  }

  lemma {:induction false} SaidConcat(ps: seq<string>, tm: Tm)
    requires TwoDigits(tm) && 0 <= tm.year + 1900 <= 9999 && ps != []
    ensures Concat(AllSaid(ps, tm)) == Said(ps[0], tm) + Concat(AllSaid(ps[1..], tm))
  {
    assert ([Said(ps[0], tm)] + AllSaid(ps[1..], tm))[1..] == AllSaid(ps[1..], tm);
  }

  /** One piece: the rest decides the rest. */
  lemma PrintStep(fmt: string, i: nat, ps: seq<string>, tm: Tm, year: int)
    requires IsByteString(fmt) && i <= |fmt| && fmt[i..] == Concat(ps) && Pieces(ps) && ps != []
    requires TwoDigits(tm) && 0 <= tm.year + 1900 <= 9999 && (IsYearPiece(ps[0]) ==> year == tm.year)
    ensures i + |ps[0]| <= |fmt| && fmt[i + |ps[0]|..] == Concat(ps[1..]) && Pieces(ps[1..])
    ensures var later := if IsYearPiece(ps[0]) then tm.year + 1900 else year;
            Print(fmt, i + |ps[0]|, tm.(year := later)) == Concat(AllSaid(ps[1..], tm)) ==>
              Print(fmt, i, tm.(year := year)) == Concat(AllSaid(ps, tm))
  {
    var t := tm.(year := year);
    PieceField(fmt, i, ps);
    TextSaid(ps[0], tm, fmt[i]);
    SaidConcat(ps, tm);
    SameText(ps[0], tm, year, fmt[i]);
  }

  lemma SameText(p: string, tm: Tm, year: int, c: char)
    requires IsYearPiece(p) ==> year == tm.year
    ensures Text(Meaning(p), tm.(year := year), c) == Text(Meaning(p), tm, c)
    ensures AfterText(Meaning(p), tm.(year := year)) == tm.(year := if IsYearPiece(p) then tm.year + 1900 else year)
  {
  }

  /** The text of the rest of a format, its year being `year` in place of that of `tm` once a year piece is behind. */
  lemma {:induction false} Prints(fmt: string, i: nat, ps: seq<string>, tm: Tm, year: int)
    requires IsByteString(fmt) && i <= |fmt| && fmt[i..] == Concat(ps) && Pieces(ps) && (year == tm.year || NoYear(ps))
    requires TwoDigits(tm) && 0 <= tm.year + 1900 <= 9999
    ensures Print(fmt, i, tm.(year := year)) == Concat(AllSaid(ps, tm))
    decreases |ps|
  {
    if ps != [] {
      PrintStep(fmt, i, ps, tm, year);
      Prints(fmt, i + |ps[0]|, ps[1..], tm, if IsYearPiece(ps[0]) then tm.year + 1900 else year);
    }
  }

  lemma {:induction false} NoYearFrom(ps: seq<string>)
    requires forall k :: 0 <= k < |ps| ==> !IsYearPiece(ps[k])
    ensures NoYear(ps)
  {
    if ps != [] {
      NoYearFrom(ps[1..]);
    }
  }

  lemma {:induction false} PiecesFrom(ps: seq<string>)
    requires forall k :: 0 <= k < |ps| ==> ps[k] in {"ss", "mm", "hh", "DD", "MM", "YYYY", "YY"} || |ps[k]| == 1
    requires forall k :: 0 <= k < |ps| - 1 && |ps[k]| == 1 && ps[k][0] in "smhDMY" && ps[k + 1] != "" ==> ps[k + 1][0] != ps[k][0]
    requires forall j, k :: 0 <= j < k < |ps| && ps[j] in {"YYYY", "YY"} ==> ps[k] !in {"YYYY", "YY"}
    ensures Pieces(ps)
    decreases |ps|
  {
    if ps != [] {
      var rest := ps[1..];
      assert forall k :: 0 <= k < |rest| ==> rest[k] == ps[k + 1];
      forall k | 0 <= k < |rest| - 1 && |rest[k]| == 1 && rest[k][0] in "smhDMY" && rest[k + 1] != ""
        ensures rest[k + 1][0] != rest[k][0]
      {
        assert rest[k] == ps[k + 1] && rest[k + 1] == ps[k + 1 + 1];
      }
      PiecesFrom(rest);
      if IsYearPiece(ps[0]) {
        NoYearFrom(rest);
      }
    }
  }

  lemma {:induction false} SaidFrom(ps: seq<string>, ts: seq<string>, tm: Tm)
    requires TwoDigits(tm) && 0 <= tm.year + 1900 <= 9999
    requires |ts| == |ps| && forall k :: 0 <= k < |ps| ==> ts[k] == Said(ps[k], tm)
    ensures AllSaid(ps, tm) == ts
    decreases |ps|
  {
    if ps != [] {
      SaidFrom(ps[1..], ts[1..], tm);
      assert ts == [ts[0]] + ts[1..];
    }
  }

  lemma SaidSpelled(ps: seq<string>, ts: seq<string>, tm: Tm)
    requires 0 <= tm.sec <= 99 && 0 <= tm.min <= 99 && 0 <= tm.hour <= 99 && 0 <= tm.mday <= 99 && -1 <= tm.mon <= 98
    requires 0 <= tm.year + 1900 <= 9999
    requires |ts| == |ps| && forall k :: 0 <= k < |ps| ==>
               ts[k] == if ps[k] == "ss" then Pad2(tm.sec) else if ps[k] == "mm" then Pad2(tm.min)
                        else if ps[k] == "hh" then Pad2(tm.hour) else if ps[k] == "DD" then Pad2(tm.mday)
                        else if ps[k] == "MM" then Pad2(tm.mon + 1) else if ps[k] == "YYYY" then Pad4(tm.year + 1900)
                        else if ps[k] == "YY" then [Digit((tm.year + 1900) % 100 / 10), Digit((tm.year + 1900) % 100 / 10)]
                        else ps[k]
    ensures AllSaid(ps, tm) == ts
  {
    SaidFrom(ps, ts, tm);
  }

  lemma TextOfPieces(fmt: string, ps: seq<string>, tm: Tm)
    requires IsByteString(fmt) && fmt == Concat(ps) && Pieces(ps) && TwoDigits(tm) && 0 <= tm.year + 1900 <= 9999
    ensures Print(fmt, 0, tm) == Concat(AllSaid(ps, tm)) && |Concat(AllSaid(ps, tm))| == |fmt|
  {
    assert fmt[0..] == fmt && tm.(year := tm.year) == tm;
    Prints(fmt, 0, ps, tm, tm.year);
    PrintLength(fmt, 0, tm);
  }

  /** fcom_time2str piece by piece: the letters `ss`, `mm`, `hh`, `DD` and `MM` give two digits of the second, the
      minute, the hour, the day and the month counted from 1, `YYYY` the year in four digits, and `YY` the tens
      digit of the year twice. Everything else is copied. */
  method TimeText(tm: Tm, out: array<char>, fmt: string, ghost ps: seq<string>, ghost ts: seq<string>)
    requires IsByteString(fmt) && |fmt| < out.Length && fmt == Concat(ps)
    requires forall k :: 0 <= k < |ps| ==> ps[k] in {"ss", "mm", "hh", "DD", "MM", "YYYY", "YY"} || |ps[k]| == 1
    requires forall k :: 0 <= k < |ps| - 1 && |ps[k]| == 1 && ps[k][0] in "smhDMY" && ps[k + 1] != "" ==> ps[k + 1][0] != ps[k][0]
    requires forall j, k :: 0 <= j < k < |ps| && ps[j] in {"YYYY", "YY"} ==> ps[k] !in {"YYYY", "YY"}
    requires 0 <= tm.sec <= 99 && 0 <= tm.min <= 99 && 0 <= tm.hour <= 99 && 0 <= tm.mday <= 99 && -1 <= tm.mon <= 98
    requires 0 <= tm.year + 1900 <= 9999
    requires |ts| == |ps| && forall k :: 0 <= k < |ps| ==>
               ts[k] == if ps[k] == "ss" then Pad2(tm.sec) else if ps[k] == "mm" then Pad2(tm.min)
                        else if ps[k] == "hh" then Pad2(tm.hour) else if ps[k] == "DD" then Pad2(tm.mday)
                        else if ps[k] == "MM" then Pad2(tm.mon + 1) else if ps[k] == "YYYY" then Pad4(tm.year + 1900)
                        else if ps[k] == "YY" then [Digit((tm.year + 1900) % 100 / 10), Digit((tm.year + 1900) % 100 / 10)]
                        else ps[k]
    modifies out
    ensures |Concat(ts)| == |fmt| && out[..] == Concat(ts) + ['\0'] + old(out[|fmt| + 1..])
  {
    PiecesFrom(ps);
    SaidSpelled(ps, ts, tm);
    TextOfPieces(fmt, ps, tm);
    Time2Str(tm, out, fmt);
  }

  // ---------------------------------------------------------------- parsing

  /** The number that digits say. */
  function Value(t: string): int {
    if t == "" then 0 else 10 * Value(t[..|t| - 1]) + (t[|t| - 1] as int - 48)
  }

  predicate AllDigits(t: string) {
    forall i :: 0 <= i < |t| ==> '0' <= t[i] <= '9'
  }

  /** What a piece with the text `t` does to the time. */
  function Taken(p: string, t: string, tm: Tm): Tm {
    if p == "ss" then tm.(sec := Value(t)) else if p == "mm" then tm.(min := Value(t)) else if p == "hh" then tm.(hour := Value(t))
    else if p == "DD" then tm.(mday := Value(t)) else if p == "MM" then tm.(mon := Value(t) - 1)
    else if p == "YYYY" then tm.(year := Value(t) - 1900) else if p == "YY" then tm.(year := Value(t))
    else tm
  }

  lemma ValueOfTwo(t: string)
    requires |t| == 2
    ensures Value(t) == 10 * (t[0] as int - 48) + (t[1] as int - 48)
  {
    assert t[..1][..0] == "" && t[..1][0] == t[0];
    assert Value(t[..1]) == t[0] as int - 48;
  }

  lemma ValueOfFour(t: string)
    requires |t| == 4
    ensures Value(t) == 1000 * (t[0] as int - 48) + 100 * (t[1] as int - 48) + 10 * (t[2] as int - 48) + (t[3] as int - 48)
  {
    assert t[..3][..2] == t[..2] && t[..3][2] == t[2];
    ValueOfTwo(t[..2]);
  }

  lemma DigitLoad(c: char)
    requires '0' <= c <= '9'
    ensures Load(c) - 0x30 == c as int - 48
  {
  }

  lemma PieceTaken(p: string, t: string, src: string, i: nat, tm: Tm)
    requires IsPiece(p) && |t| == |p| && (|p| > 1 ==> AllDigits(t)) && i + |t| <= |src|
    requires forall k :: 0 <= k < |t| ==> src[i + k] == t[k]
    ensures Take(Meaning(p), src, i, tm) == Taken(p, t, tm)
  {
    if |p| == 2 {
      assert src[i + 0] == t[0] && src[i + 1] == t[1];
      DigitLoad(t[0]);
      DigitLoad(t[1]);
      ValueOfTwo(t);
    } else if p == "YYYY" {
      assert src[i + 0] == t[0] && src[i + 1] == t[1] && src[i + 2] == t[2] && src[i + 3] == t[3];
      DigitLoad(t[0]);
      DigitLoad(t[1]);
      DigitLoad(t[2]);
      DigitLoad(t[3]);
      ValueOfFour(t);
    }
  }

  function AllTaken(ps: seq<string>, ts: seq<string>, tm: Tm): Tm
    requires |ts| == |ps|
  {
    if ps == [] then tm else AllTaken(ps[1..], ts[1..], Taken(ps[0], ts[0], tm))
  }

  /** Each text is as long as its piece, and of digits when that is a field. */
  predicate Fitting(ps: seq<string>, ts: seq<string>)
    requires |ts| == |ps|
  {
    forall k :: 0 <= k < |ps| ==> |ts[k]| == |ps[k]| && (|ps[k]| > 1 ==> AllDigits(ts[k]))
  }

  lemma ParseStep(fmt: string, i: nat, ps: seq<string>, ts: seq<string>, src: string, more: string, tm: Tm)
    requires IsByteString(fmt) && i <= |fmt| && fmt[i..] == Concat(ps) && Pieces(ps) && ps != []
    requires |ts| == |ps| && Fitting(ps, ts) && i <= |src| && src[i..] == Concat(ts) + more
    ensures i + |ps[0]| <= |fmt| && fmt[i + |ps[0]|..] == Concat(ps[1..]) && Pieces(ps[1..]) && Fitting(ps[1..], ts[1..])
    ensures i + |ps[0]| <= |src| && src[i + |ps[0]|..] == Concat(ts[1..]) + more
    ensures Parse(fmt, i, src, tm) == Parse(fmt, i + |ps[0]|, src, Taken(ps[0], ts[0], tm))
  {
    PieceField(fmt, i, ps);
    assert Concat(ts) + more == ts[0] + (Concat(ts[1..]) + more);
    RestAt(src, i, ts[0], Concat(ts[1..]) + more);
    PieceTaken(ps[0], ts[0], src, i, tm);
    assert forall k :: 0 <= k < |ps[1..]| ==> ps[1..][k] == ps[k + 1] && ts[1..][k] == ts[k + 1];
  }

  lemma {:induction false} Parses(fmt: string, i: nat, ps: seq<string>, ts: seq<string>, src: string, more: string, tm: Tm)
    requires IsByteString(fmt) && i <= |fmt| && fmt[i..] == Concat(ps) && Pieces(ps)
    requires |ts| == |ps| && Fitting(ps, ts) && i <= |src| && src[i..] == Concat(ts) + more
    ensures Parse(fmt, i, src, tm) == AllTaken(ps, ts, tm)
    decreases |ps|
  {
    if ps == [] {
      assert i == |fmt|;
    } else {
      ParseStep(fmt, i, ps, ts, src, more, tm);
      Parses(fmt, i + |ps[0]|, ps[1..], ts[1..], src, more, Taken(ps[0], ts[0], tm));
    }
  }

  /** A field without a piece stays as it was. */
  lemma {:induction false} Untouched(ps: seq<string>, ts: seq<string>, tm: Tm)
    requires |ts| == |ps|
    ensures var r := AllTaken(ps, ts, tm);
            && ("ss" !in ps ==> r.sec == tm.sec) && ("mm" !in ps ==> r.min == tm.min) && ("hh" !in ps ==> r.hour == tm.hour)
            && ("DD" !in ps ==> r.mday == tm.mday) && ("MM" !in ps ==> r.mon == tm.mon)
            && ("YYYY" !in ps && "YY" !in ps ==> r.year == tm.year)
    decreases |ps|
  {
    if ps != [] {
      assert ps[0] in ps && forall p :: p in ps[1..] ==> p in ps;
      Untouched(ps[1..], ts[1..], Taken(ps[0], ts[0], tm));
    }
  }

  /** The last piece of a field decides it. */
  lemma {:induction false} LastTaken(ps: seq<string>, ts: seq<string>, tm: Tm, k: nat)
    requires |ts| == |ps| && k < |ps|
    ensures var r, p, later, v := AllTaken(ps, ts, tm), ps[k], ps[k + 1..], Value(ts[k]);
            && (p == "ss" && "ss" !in later ==> r.sec == v) && (p == "mm" && "mm" !in later ==> r.min == v)
            && (p == "hh" && "hh" !in later ==> r.hour == v) && (p == "DD" && "DD" !in later ==> r.mday == v)
            && (p == "MM" && "MM" !in later ==> r.mon == v - 1)
            && (p == "YYYY" && "YYYY" !in later && "YY" !in later ==> r.year == v - 1900)
            && (p == "YY" && "YYYY" !in later && "YY" !in later ==> r.year == v)
    decreases |ps|
  {
    if k == 0 {
      Untouched(ps[1..], ts[1..], Taken(ps[0], ts[0], tm));
    } else {
      assert ps[1..][k - 1] == ps[k] && ts[1..][k - 1] == ts[k] && ps[1..][k - 1 + 1..] == ps[k + 1..];
      LastTaken(ps[1..], ts[1..], Taken(ps[0], ts[0], tm), k - 1);
    }
  }

  /** fcom_str2time piece by piece: two digits under `ss`, `mm`, `hh` and `DD` are the second, the minute, the hour
      and the day, those under `MM` the month less one, four under `YYYY` the year less 1900, and two under `YY`
      the year as they are; the last piece of a field counts, and a field without one is 0. */
  method TimeOfText(src: string, fmt: string, ghost ps: seq<string>, ghost ts: seq<string>, ghost more: string) returns (tm: Tm)
    requires IsByteString(fmt) && fmt == Concat(ps) && src == Concat(ts) + more && |fmt| <= |src|
    requires forall k :: 0 <= k < |ps| ==> ps[k] in {"ss", "mm", "hh", "DD", "MM", "YYYY", "YY"} || |ps[k]| == 1
    requires forall k :: 0 <= k < |ps| - 1 && |ps[k]| == 1 && ps[k][0] in "smhDMY" && ps[k + 1] != "" ==> ps[k + 1][0] != ps[k][0]
    requires forall j, k :: 0 <= j < k < |ps| && ps[j] in {"YYYY", "YY"} ==> ps[k] !in {"YYYY", "YY"}
    requires |ts| == |ps| && forall k :: 0 <= k < |ps| ==>
               |ts[k]| == |ps[k]| && (|ps[k]| > 1 ==> forall i :: 0 <= i < |ts[k]| ==> '0' <= ts[k][i] <= '9')
    ensures forall k :: 0 <= k < |ps| ==>
              var t, later := ts[k], ps[k + 1..];
              && (|ps[k]| == 2 ==>
                   var v := 10 * (t[0] as int - 48) + (t[1] as int - 48);
                   && (ps[k] == "ss" && "ss" !in later ==> tm.sec == v) && (ps[k] == "mm" && "mm" !in later ==> tm.min == v)
                   && (ps[k] == "hh" && "hh" !in later ==> tm.hour == v) && (ps[k] == "DD" && "DD" !in later ==> tm.mday == v)
                   && (ps[k] == "MM" && "MM" !in later ==> tm.mon == v - 1) && (ps[k] == "YY" ==> tm.year == v))
              && (ps[k] == "YYYY" ==>
                   tm.year == 1000 * (t[0] as int - 48) + 100 * (t[1] as int - 48) + 10 * (t[2] as int - 48) + (t[3] as int - 48) - 1900)
    ensures ("ss" !in ps ==> tm.sec == 0) && ("mm" !in ps ==> tm.min == 0) && ("hh" !in ps ==> tm.hour == 0)
         && ("DD" !in ps ==> tm.mday == 0) && ("MM" !in ps ==> tm.mon == 0) && ("YYYY" !in ps && "YY" !in ps ==> tm.year == 0)
  {
    PiecesFrom(ps);
    assert fmt[0..] == fmt && src[0..] == src;
    Parses(fmt, 0, ps, ts, src, more, ZERO_TM);
    Untouched(ps, ts, ZERO_TM);
    tm := Str2Time(src, fmt);
    forall k | 0 <= k < |ps|
      ensures Decided(ps[k], ts[k], ps[k + 1..], tm)
    {
      LastTaken(ps, ts, ZERO_TM, k);
      OneYearLater(ps, k);
    }
    forall k | 0 <= k < |ps|
      ensures |ps[k]| == 2 ==> Value(ts[k]) == 10 * (ts[k][0] as int - 48) + (ts[k][1] as int - 48)
      ensures ps[k] == "YYYY" ==> Value(ts[k]) == 1000 * (ts[k][0] as int - 48) + 100 * (ts[k][1] as int - 48) + 10 * (ts[k][2] as int - 48) + (ts[k][3] as int - 48)
    {
      if |ps[k]| == 2 {
        ValueOfTwo(ts[k]);
      } else if ps[k] == "YYYY" {
        ValueOfFour(ts[k]);
      }
    }
  }

  predicate Decided(p: string, t: string, later: seq<string>, r: Tm) {
    && (p == "ss" && "ss" !in later ==> r.sec == Value(t)) && (p == "mm" && "mm" !in later ==> r.min == Value(t))
    && (p == "hh" && "hh" !in later ==> r.hour == Value(t)) && (p == "DD" && "DD" !in later ==> r.mday == Value(t))
    && (p == "MM" && "MM" !in later ==> r.mon == Value(t) - 1)
    && (p == "YYYY" ==> r.year == Value(t) - 1900) && (p == "YY" ==> r.year == Value(t))
  }

  lemma OneYearLater(ps: seq<string>, k: nat)
    requires k < |ps| && forall i, j :: 0 <= i < j < |ps| && ps[i] in {"YYYY", "YY"} ==> ps[j] !in {"YYYY", "YY"}
    ensures IsYearPiece(ps[k]) ==> "YYYY" !in ps[k + 1..] && "YY" !in ps[k + 1..]
  {
  }

  // ---------------------------------------------------------------- a stamp

  lemma SixPieces(ps: seq<string>)
    requires |ps| == 6
    ensures Concat(ps) == ps[0] + (ps[1] + (ps[2] + (ps[3] + (ps[4] + ps[5]))))
  {
    assert ps[0..] == ps && ps[6..] == [] && ps[5] + "" == ps[5];
    ConcatFrom(ps, 5);
    ConcatFrom(ps, 4);
    ConcatFrom(ps, 3);
    ConcatFrom(ps, 2);
    ConcatFrom(ps, 1);
    ConcatFrom(ps, 0);
  }

  lemma StampFormat(fmt: string, ps: seq<string>)
    requires fmt == "YYYYMMDDhhmmss" && ps == ["YYYY", "MM", "DD", "hh", "mm", "ss"]
    ensures IsByteString(fmt) && fmt == Concat(ps)
  {
    SixPieces(ps);
  }

  /** The format of the stamps that the manager writes. */
  method Stamp(tm: Tm, fmt: string, ghost ps: seq<string>) returns (text: string)
    requires 0 <= tm.sec <= 99 && 0 <= tm.min <= 99 && 0 <= tm.hour <= 99 && 0 <= tm.mday <= 99 && -1 <= tm.mon <= 98
    requires 0 <= tm.year + 1900 <= 9999
    requires fmt == "YYYYMMDDhhmmss" && ps == ["YYYY", "MM", "DD", "hh", "mm", "ss"]
    ensures text == Pad4(tm.year + 1900) + (Pad2(tm.mon + 1) + (Pad2(tm.mday) + (Pad2(tm.hour) + (Pad2(tm.min) + Pad2(tm.sec)))))
  {
    StampFormat(fmt, ps);
    var out := new char[15](_ => '\0');
    ghost var ts := [Pad4(tm.year + 1900), Pad2(tm.mon + 1), Pad2(tm.mday), Pad2(tm.hour), Pad2(tm.min), Pad2(tm.sec)];
    SixPieces(ts);
    TimeText(tm, out, fmt, ps, ts);
    text := out[..14];
  }

  /** No field comes twice. */
  lemma StampOnce(ps: seq<string>)
    requires ps == ["YYYY", "MM", "DD", "hh", "mm", "ss"]
    ensures |ps| == 6 && |ps[0]| == 4 && forall k :: 1 <= k < 6 ==> |ps[k]| == 2
    ensures ps[0] == "YYYY" && ps[1] == "MM" && ps[2] == "DD" && ps[3] == "hh" && ps[4] == "mm" && ps[5] == "ss"
    ensures "MM" !in ps[1 + 1..] && "DD" !in ps[2 + 1..] && "hh" !in ps[3 + 1..] && "mm" !in ps[4 + 1..] && "ss" !in ps[5 + 1..]
    ensures forall k :: 0 <= k < |ps| ==> ps[k] in {"ss", "mm", "hh", "DD", "MM", "YYYY", "YY"} || |ps[k]| == 1
    ensures forall j, k :: 0 <= j < k < |ps| && ps[j] in {"YYYY", "YY"} ==> ps[k] !in {"YYYY", "YY"}
  {
  }

  lemma StampTexts(t: string)
    requires |t| >= 14
    ensures t == t[..4] + (t[4..6] + (t[6..8] + (t[8..10] + (t[10..12] + t[12..14])))) + t[14..]
  {
    assert t[10..14] == t[10..12] + t[12..14] && t[8..14] == t[8..10] + t[10..14] && t[6..14] == t[6..8] + t[8..14];
    assert t[4..14] == t[4..6] + t[6..14] && t[..14] == t[..4] + t[4..14];
  }

  /** Reading a stamp of fourteen digits. */
  method TimeOfStamp(text: string, fmt: string, ghost ps: seq<string>) returns (tm: Tm)
    requires |text| >= 14 && forall i :: 0 <= i < 14 ==> '0' <= text[i] <= '9'
    requires fmt == "YYYYMMDDhhmmss" && ps == ["YYYY", "MM", "DD", "hh", "mm", "ss"]
    ensures tm.year == 1000 * (text[0] as int - 48) + 100 * (text[1] as int - 48) + 10 * (text[2] as int - 48) + (text[3] as int - 48) - 1900
    ensures tm.mon == 10 * (text[4] as int - 48) + (text[5] as int - 48) - 1 && tm.mday == 10 * (text[6] as int - 48) + (text[7] as int - 48)
    ensures tm.hour == 10 * (text[8] as int - 48) + (text[9] as int - 48) && tm.min == 10 * (text[10] as int - 48) + (text[11] as int - 48)
    ensures tm.sec == 10 * (text[12] as int - 48) + (text[13] as int - 48)
  {
    StampFormat(fmt, ps);
    ghost var ts := [text[..4], text[4..6], text[6..8], text[8..10], text[10..12], text[12..14]];
    SixPieces(ts);
    StampTexts(text);
    StampOnce(ps);
    tm := TimeOfText(text, fmt, ps, ts, text[14..]);
  }
}
