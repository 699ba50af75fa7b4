/** When the rows of a configuration file read as their own texts, lib_src/com/dap_update_cfg.c: a row of
    256 characters has no terminator, so the text read there goes on into the rows behind it, and cutting it
    writes into them. The counted lines are those of the rows taken one by one if and only if the rows are
    `Apart`, a condition on each row and the one behind it. */
module ConfigApart {
  import opened CStrings
  import opened ConfigText
  import opened ConfigFile
  import opened ConfigRows

  // ---------------------------------------------------------------- text that goes on

  /** The part of a text in front of its comment. */
  function Front(t: string): string {
    t[..HashAt(t, 0)]
  }

  /** With a comment sign in `r`, what stands behind `r` does not matter. */
  lemma HashStops(r: string, u: string)
    requires '#' in r
    ensures HashAt(r + u, 0) == HashAt(r, 0) < |r|
    ensures CutText(r + u) == CutText(r) && (IsComment(r + u) <==> IsComment(r))
  {
    var t, h := r + u, HashAt(r, 0);
    if h == |r| {
      assert false;
    }
    assert forall j :: 0 <= j < |r| ==> t[j] == r[j];
    HashAtIs(t, h);
    assert t[..h] == r[..h];
    var s := SolidFrom(r, 0);
    assert s <= h;
    SolidFromIs(t, 0, s);
  }

  lemma FrontGoesOn(r: string, u: string)
    requires '#' !in r
    ensures HashAt(r + u, 0) == |r| + HashAt(u, 0) && Front(r + u) == r + Front(u)
  {
    var t, h := r + u, |r| + HashAt(u, 0);
    forall j | 0 <= j < h
      ensures t[j] != '#'
    {
      assert t[j] == if j < |r| then r[j] else u[j - |r|];
    }
    HashAtIs(t, h);
  }

  /** Blanks behind a text with something solid in it change nothing; anything else behind it does. */
  lemma SolidGoesOn(r: string, w: string)
    requires !Blank(r)
    ensures Blank(w) ==> SolidLength(r + w, |r + w|) == SolidLength(r, |r|) > 0
    ensures !Blank(w) ==> SolidLength(r + w, |r + w|) > |r|
  {
    var t, k := r + w, SolidLength(r, |r|);
    var m := SolidLength(t, |t|);
    assert forall j :: 0 <= j < |t| ==> t[j] == if j < |r| then r[j] else w[j - |r|];
    if Blank(w) {
      SolidLengthIs(t, |t|, k);
    } else {
      var j :| 0 <= j < |w| && !IsBlank(w[j]);
      assert !IsBlank(t[|r| + j]);
    }
  }

  lemma BlankGoesOn(r: string, u: string)
    requires r != "" && Blank(r)
    ensures (IsComment(r + u) <==> IsComment(r)) && CutText(r + u) == CutText(r) <==> u == ""
  {
    var t, w := r + u, Front(u);
    assert '#' !in r;
    FrontGoesOn(r, u);
    FrontGoesOn(r, "");
    assert r + "" == r && Front(r) == r && SolidFrom(r, 0) == |r|;
    SolidLengthIs(r, |r|, 0);
    var m := SolidLength(r + w, |r + w|);
    assert forall j :: 0 <= j < |r| ==> t[j] == (r + w)[j] == r[j];
    if u == "" {
      assert t == r;
    } else if w == "" {
      assert t[|r|] == u[0] == '#';
      SolidFromIs(t, 0, |r|);
    } else {
      assert m > 0 ==> m > |r|;
      assert |CutText(t)| > |r|;
    }
  }

  /** A text without comment sign reads the same with `u` behind it if and only if blanks and a comment
      follow, or, when it is blank itself, nothing. */
  lemma ReadsTheSame(r: string, u: string)
    requires r != "" && '#' !in r
    ensures (IsComment(r + u) <==> IsComment(r)) && CutText(r + u) == CutText(r)
       <==> if Blank(r) then u == "" else Blank(Front(u))
  {
    var t, w := r + u, Front(u);
    FrontGoesOn(r, u);
    FrontGoesOn(r, "");
    assert r + "" == r && Front(r) == r;
    if Blank(r) {
      BlankGoesOn(r, u);
    } else {
      SolidGoesOn(r, w);
      var s := SolidFrom(r, 0);
      SolidFromIs(t, 0, s);
      if Blank(w) {
        var k := SolidLength(r, |r|);
        assert (r + w)[..k] == r[..k];
      }
    }
  }

  // ---------------------------------------------------------------- rows that stand apart

  /** A row without a terminator or a comment sign of its own. */
  predicate Full(r: string) {
    |r| == 256 && '#' !in r
  }

  predicate EndsBlank(r: string) {
    r != "" && IsBlank(r[|r| - 1])
  }

  /** The row behind the first one. */
  function Next(ts: seq<string>): string {
    if |ts| > 1 then ts[1] else ""
  }

  /** A full row `r` does no harm with `n` behind it: `n` is empty; or `r` holds something solid and `n` starts
      with its comment sign, is an indented comment behind a solid end, or is blank behind a blank end. A row of
      blanks can also have a comment sign behind it when it comes `after` another full row, because cutting that
      one has ended the comment already. */
  predicate Parted(r: string, n: string, after: bool) {
    n == "" ||
    if Blank(r) then after && n[0] == '#'
    else if Blank(n) then EndsBlank(r)
    else n[0] == '#' || (IsComment(n) && !EndsBlank(r))
  }

  predicate Apart(ts: seq<string>, after: bool) {
    ts != [] ==> (Full(ts[0]) ==> Parted(ts[0], Next(ts), after)) && Apart(ts[1..], Full(ts[0]))
  }

  /** A text without a comment sign reads the same with `u` behind it: see ReadsTheSame. */
  predicate Own(r: string, u: string) {
    if Blank(r) then u == "" else Blank(Front(u))
  }

  lemma {:induction false} RunOnEnded(ts: seq<string>, k: nat)
    requires AreRows(ts)
    ensures AreRows(EndRows(ts, k))
    ensures k <= |RunOn(ts)| ==> RunOn(EndRows(ts, k)) == RunOn(ts)[..k]
    decreases |ts|
  {
    if ts != [] {
      if k < 256 {
        assert EndRows(ts, k)[1..] == ts[1..];
        if k <= |RunOn(ts)| {
          EndedHere(ts, k);
        }
      } else {
        RunOnEnded(ts[1..], k - 256);
        if k <= |RunOn(ts)| {
          EndedLater(ts, k);
        }
      }
    }
  }

  lemma RowsAfterCut(ts: seq<string>)
    requires AreRows(ts) && ts != []
    ensures AreRows(CutRows(ts)[1..])
  {
    var t := RunOn(ts);
    var h := HashAt(t, 0);
    RunOnEnded(ts, h);
    RunOnEnded(EndRows(ts, h), SolidLength(t[..h], h));
  }

  lemma CutInside(ts: seq<string>)
    requires ts != [] && HashAt(RunOn(ts), 0) < 256
    ensures CutRows(ts)[1..] == ts[1..]
  {
    var t := RunOn(ts);
    var h := HashAt(t, 0);
    var k := SolidLength(t[..h], h);
    assert EndRows(ts, h)[1..] == ts[1..] && EndRows(EndRows(ts, h), k)[1..] == ts[1..];
  }

  /** Any other row reads as its own text, and cutting it leaves the later rows alone. */
  lemma OwnRow(ts: seq<string>)
    requires AreRows(ts) && ts != [] && !Full(ts[0])
    ensures (IsComment(RunOn(ts)) <==> IsComment(ts[0])) && CutText(RunOn(ts)) == CutText(ts[0])
    ensures CutRows(ts)[1..] == ts[1..]
  {
    if |ts[0]| == 256 {
      HashStops(ts[0], RunOn(ts[1..]));
    }
    CutInside(ts);
  }

  /** Lines are numbered upwards. */
  lemma {:induction false} RowNumbers(ts: seq<string>, num: int)
    ensures RowLines(ts, num) != [] ==> RowLines(ts, num)[0].num >= num
    decreases |ts|
  {
    if ts != [] {
      RowNumbers(ts[1..], num + 1);
    }
  }

  lemma {:induction false} CountedNumbers(ts: seq<string>, num: int)
    ensures CountedLines(ts, num) != [] ==> CountedLines(ts, num)[0].num >= num
    decreases |ts|
  {
    if ts != [] {
      CountedNumbers(ts[1..], num + 1);
    }
  }

  /** A full row: the lines agree if and only if it reads as its own text and the lines behind it agree. */
  lemma FullStep(ts: seq<string>, num: int)
    requires AreRows(ts) && ts != [] && Full(ts[0])
    ensures RowLines(ts, num) == CountedLines(ts, num)
       <==> Own(ts[0], RunOn(ts[1..])) && RowLines(CutRows(ts)[1..], num + 1) == CountedLines(ts[1..], num + 1)
  {
    var r, u, rest := ts[0], RunOn(ts[1..]), CutRows(ts)[1..];
    var later := CountedLines(ts[1..], num + 1);
    ReadsTheSame(r, u);
    assert RunOn(ts) == r + u && !IsComment(r);
    assert CountedLines(ts, num) == [Line(num, CutText(r))] + later;
    if IsComment(r + u) {
      RowNumbers(ts[1..], num + 1);
    } else {
      SameSplit(Line(num, CutText(r + u)), RowLines(rest, num + 1), Line(num, CutText(r)), later);
    }
  }

  /** The rows with the first one emptied. */
  function Emptied(ts: seq<string>): seq<string> {
    if ts == [] then [] else [""] + ts[1..]
  }

  lemma EndedAtStart(ts: seq<string>)
    ensures EndRows(ts, 0) == Emptied(ts)
  {
    if ts != [] && ts[0] == "" {
      assert ts == [""] + ts[1..];
    }
  }

  /** Emptying a comment. */
  lemma EmptiedComment(ts: seq<string>, num: int, after: bool)
    requires ts == [] || IsComment(ts[0])
    ensures CountedLines(Emptied(ts), num) == CountedLines(ts, num)
    ensures Apart(Emptied(ts), false) <==> Apart(ts, after)
  {
    if ts != [] {
      assert Emptied(ts)[1..] == ts[1..];
      assert !Full(ts[0]);
    }
  }

  /** What cutting a full row that reads as its own text does behind it: a comment sign there is ended, and so
      is whatever follows a solid end. */
  lemma CutFull(ts: seq<string>)
    requires AreRows(ts) && ts != [] && Full(ts[0]) && Own(ts[0], RunOn(ts[1..]))
    ensures var later := ts[1..];
            var cut := EndRows(later, |Front(RunOn(later))|);
            CutRows(ts)[1..] == if EndsBlank(ts[0]) then cut else Emptied(cut)
  {
    var r, later := ts[0], ts[1..];
    var u := RunOn(later);
    var w := Front(u);
    FrontGoesOn(r, u);
    assert EndRows(ts, 256 + |w|)[1..] == EndRows(later, |w|);
    EndedAtStart(EndRows(later, |w|));
    if !Blank(r) {
      SolidGoesOn(r, w);
    }
  }

  /** The lines behind a full row that reads as its own text agree if and only if the rows are apart, if that
      holds of the rows it leaves behind it. */
  ghost predicate Decided(ts: seq<string>, num: int)
    requires ts != []
  {
    RowLines(CutRows(ts)[1..], num + 1) == CountedLines(ts[1..], num + 1) <==> Apart(ts, false)
  }

  ghost predicate Agree(ts: seq<string>, num: int) {
    RowLines(ts, num) == CountedLines(ts, num) <==> Apart(ts, false)
  }

  lemma NothingInFront(ts: seq<string>)
    ensures Front(RunOn(ts)) == "" <==> ts == [] || ts[0] == "" || ts[0][0] == '#'
  {
    if ts != [] && ts[0] != "" {
      assert RunOn(ts)[0] == ts[0][0];
    }
  }

  /** Nothing or a comment sign right behind it. */
  lemma CutAtComment(ts: seq<string>)
    requires AreRows(ts) && ts != [] && Full(ts[0]) && Own(ts[0], RunOn(ts[1..])) && Front(RunOn(ts[1..])) == ""
    ensures CutRows(ts)[1..] == Emptied(ts[1..]) && (ts[1..] == [] || IsComment(ts[1]))
  {
    CutFull(ts);
    EndedAtStart(ts[1..]);
    NothingInFront(ts[1..]);
  }

  lemma CommentBehind(ts: seq<string>, num: int)
    requires AreRows(ts) && ts != [] && Full(ts[0]) && Own(ts[0], RunOn(ts[1..]))
    requires Front(RunOn(ts[1..])) == ""
    ensures Agree(CutRows(ts)[1..], num + 1) ==> Decided(ts, num)
  {
    CutAtComment(ts);
    NothingInFront(ts[1..]);
    EmptiedComment(ts[1..], num + 1, true);
  }

  /** A row of blanks in front of a comment sign: what stands there starts with a comment. */
  lemma BlankFront(n: string, u: string)
    requires '#' in n && Blank(Front(n + u)) && Front(n + u) != ""
    ensures Front(n + u) == Front(n) && |Front(n)| < |n| && IsComment(n) && n[0] != '#' && !Blank(n) && !IsComment(Front(n))
  {
    HashStops(n, u);
    var h := HashAt(n, 0);
    assert (n + u)[..h] == n[..h];
    assert forall j :: 0 <= j < h ==> n[..h][j] == n[j];
    SolidFromIs(n, 0, h);
    assert n[h] == '#';
  }

  /** The row behind is an indented comment. */
  lemma IndentedBehind(ts: seq<string>, num: int)
    requires AreRows(ts) && |ts| > 1 && Full(ts[0]) && Own(ts[0], RunOn(ts[1..]))
    requires Front(RunOn(ts[1..])) != "" && '#' in ts[1]
    ensures Agree(CutRows(ts)[1..], num + 1) ==> Decided(ts, num)
  {
    var later, rest := ts[1..], CutRows(ts)[1..];
    var n, w := later[0], Front(RunOn(later));
    CutFull(ts);
    assert n + "" == n;
    BlankFront(n, if |n| < 256 then "" else RunOn(later[1..]));
    var cut := EndRows(later, |w|);
    assert w == n[..|w|] && cut == [w] + later[1..];
    if EndsBlank(ts[0]) {
      CountedNumbers(later[1..], num + 2);
      assert RunOn(rest) == w;
      assert RowLines(rest, num + 1)[0].num == num + 1;
    } else {
      assert Emptied(cut) == Emptied(later);
      EmptiedComment(later, num + 1, true);
    }
  }

  /** The row behind is blank behind a solid end. */
  lemma BlankLost(ts: seq<string>, num: int)
    requires AreRows(ts) && |ts| > 1 && Full(ts[0]) && Own(ts[0], RunOn(ts[1..]))
    requires ts[1] != "" && Blank(ts[1]) && !EndsBlank(ts[0])
    ensures Decided(ts, num)
  {
    var later, rest := ts[1..], CutRows(ts)[1..];
    CutFull(ts);
    assert RunOn(rest) == "" && IsComment("");
    RowNumbers(rest[1..], num + 2);
    assert CountedLines(later, num + 1)[0].num == num + 1;
  }

  /** The row behind is blank behind a blank end, and has a terminator. */
  lemma BlankKept(ts: seq<string>, num: int)
    requires AreRows(ts) && |ts| > 1 && Full(ts[0]) && Own(ts[0], RunOn(ts[1..]))
    requires ts[1] != "" && Blank(ts[1]) && EndsBlank(ts[0]) && |ts[1]| < 256
    ensures Agree(CutRows(ts)[1..], num + 1) ==> Decided(ts, num)
  {
    var later := ts[1..];
    CutFull(ts);
    assert HashAt(ts[1], 0) == |ts[1]|;
    assert EndRows(later, |ts[1]|) == later;
  }

  lemma BlankRuns(n: string, u: string)
    requires Blank(n)
    ensures Front(n + u) == n + Front(u) && (Blank(Front(n + u)) <==> Blank(Front(u)))
  {
    FrontGoesOn(n, u);
    assert forall j :: 0 <= j < |n + Front(u)| ==> (n + Front(u))[j] == if j < |n| then n[j] else Front(u)[j - |n|];
    assert forall j :: 0 <= j < |Front(u)| ==> Front(u)[j] == (n + Front(u))[|n| + j];
  }

  /** The row behind is a row of blanks without a terminator, behind a blank end. */
  lemma BlanksRunOn(ts: seq<string>)
    requires AreRows(ts) && |ts| > 1 && Full(ts[0]) && Own(ts[0], RunOn(ts[1..]))
    requires Full(ts[1]) && Blank(ts[1]) && EndsBlank(ts[0])
    ensures var w := Front(RunOn(ts[2..]));
            CutRows(ts)[1..] == [ts[1]] + EndRows(ts[2..], |w|) && RunOn(CutRows(ts)[1..]) == ts[1] + w
  {
    var u := RunOn(ts[2..]);
    var w := Front(u);
    CutFull(ts);
    assert ts[1..][1..] == ts[2..];
    BlankRuns(ts[1], u);
    RunOnEnded(ts[2..], |w|);
    assert ([ts[1]] + EndRows(ts[2..], |w|))[1..] == EndRows(ts[2..], |w|);
  }

  /** Blanks behind the blanks: they are read as part of the row. */
  lemma BlanksGoOn(ts: seq<string>, num: int)
    requires AreRows(ts) && |ts| > 1 && Full(ts[0]) && Own(ts[0], RunOn(ts[1..]))
    requires Full(ts[1]) && Blank(ts[1]) && EndsBlank(ts[0]) && Front(RunOn(ts[2..])) != ""
    ensures RowLines(CutRows(ts)[1..], num + 1) != CountedLines(ts[1..], num + 1)
  {
    var n, w, rest := ts[1], Front(RunOn(ts[2..])), CutRows(ts)[1..];
    BlanksRunOn(ts);
    ReadsTheSame(n, w);
    FrontGoesOn(n, w);
    assert CountedLines(ts[1..], num + 1)[0] == Line(num + 1, CutText(n));
    assert !IsComment(n + w);
    assert RowLines(rest, num + 1)[0] == Line(num + 1, CutText(n + w));
  }

  lemma BlanksEnd(ts: seq<string>)
    requires AreRows(ts) && |ts| > 1 && Full(ts[0]) && Own(ts[0], RunOn(ts[1..]))
    requires Full(ts[1]) && Blank(ts[1]) && EndsBlank(ts[0]) && Front(RunOn(ts[2..])) == ""
    ensures CutRows(ts)[1..] == [ts[1]] + Emptied(ts[2..]) && !Blank(ts[0])
  {
    BlanksRunOn(ts);
    EndedAtStart(ts[2..]);
    assert ts[1..][0] != "" && RunOn(ts[1..]) != "";
  }

  /** A comment behind a row of blanks behind a full row. */
  lemma BlanksApart(ts: seq<string>, rest: seq<string>, num: int)
    requires |ts| > 1 && Full(ts[0]) && !Blank(ts[0]) && EndsBlank(ts[0]) && Full(ts[1]) && Blank(ts[1])
    requires Front(RunOn(ts[2..])) == "" && rest == [ts[1]] + Emptied(ts[2..])
    ensures CountedLines(rest, num) == CountedLines(ts[1..], num)
    ensures Apart(rest, false) <==> Apart(ts, false)
  {
    var later := ts[2..];
    NothingInFront(later);
    EmptiedComment(later, num + 1, true);
    EmptiedComment(Emptied(later), num + 1, true);
    assert rest[1..] == Emptied(later) && ts[1..][1..] == later;
  }

  lemma BlanksClash(ts: seq<string>)
    requires |ts| > 1 && Full(ts[0]) && Full(ts[1]) && Blank(ts[1]) && Front(RunOn(ts[2..])) != ""
    ensures !Apart(ts, false)
  {
    NothingInFront(ts[2..]);
    assert ts[1..][1..] == ts[2..];
    assert !Parted(ts[1], Next(ts[1..]), true);
  }

  lemma BlanksBehind(ts: seq<string>, num: int)
    requires AreRows(ts) && |ts| > 1 && Full(ts[0]) && Own(ts[0], RunOn(ts[1..]))
    requires Full(ts[1]) && Blank(ts[1]) && EndsBlank(ts[0])
    ensures Agree(CutRows(ts)[1..], num + 1) ==> Decided(ts, num)
  {
    if Front(RunOn(ts[2..])) == "" {
      BlanksEnd(ts);
      BlanksApart(ts, CutRows(ts)[1..], num + 1);
    } else {
      BlanksGoOn(ts, num);
      BlanksClash(ts);
    }
  }

  /** In rows that are apart the first one reads as its own text. */
  lemma ApartOwn(ts: seq<string>)
    requires AreRows(ts) && ts != [] && Full(ts[0]) && Apart(ts, false)
    ensures Own(ts[0], RunOn(ts[1..]))
  {
    var n := Next(ts);
    if n != "" {
      var u := if |n| < 256 then "" else RunOn(ts[2..]);
      assert ts[1..][1..] == ts[2..];
      assert RunOn(ts[1..]) == n + u;
      if Blank(n) {
        BlankRuns(n, u);
      } else {
        HashStops(n, u);
        assert forall j :: 0 <= j < HashAt(n, 0) ==> (n + u)[j] == n[j];
      }
    }
  }

  lemma BlankBehind(ts: seq<string>)
    requires ts != [] && Full(ts[0]) && Own(ts[0], RunOn(ts[1..])) && Front(RunOn(ts[1..])) != ""
    ensures |ts| > 1 && ts[1] != "" && ('#' !in ts[1] ==> Blank(ts[1]))
  {
    var n := ts[1];
    if '#' !in n {
      var u := if |n| < 256 then "" else RunOn(ts[1..][1..]);
      assert RunOn(ts[1..]) == n + u;
      FrontGoesOn(n, u);
      assert forall j :: 0 <= j < |n| ==> n[j] == Front(RunOn(ts[1..]))[j];
    }
  }

  lemma FullRow(ts: seq<string>, num: int)
    requires AreRows(ts) && ts != [] && Full(ts[0]) && Own(ts[0], RunOn(ts[1..]))
    ensures Agree(CutRows(ts)[1..], num + 1) ==> Decided(ts, num)
  {
    if Front(RunOn(ts[1..])) == "" {
      CommentBehind(ts, num);
    } else {
      BlankBehind(ts);
      if '#' in ts[1] {
        IndentedBehind(ts, num);
      } else if !EndsBlank(ts[0]) {
        BlankLost(ts, num);
      } else if |ts[1]| < 256 {
        BlankKept(ts, num);
      } else {
        BlanksBehind(ts, num);
      }
    }
  }

  /** The lines that count among the rows are those of the rows taken one by one if and only if the rows are
      apart. */
  lemma {:induction false} RowsApart(ts: seq<string>, num: int)
    requires AreRows(ts)
    ensures RowLines(ts, num) == CountedLines(ts, num) <==> Apart(ts, false)
    decreases |ts|
  {
    if ts != [] {
      RowsAfterCut(ts);
      RowsApart(CutRows(ts)[1..], num + 1);
      if !Full(ts[0]) {
        OwnRow(ts);
        OtherStep(ts, num);
      } else {
        FullStep(ts, num);
        if Own(ts[0], RunOn(ts[1..])) {
          FullRow(ts, num);
        } else if Apart(ts, false) {
          ApartOwn(ts);
        }
      }
    }
  }

  lemma OtherStep(ts: seq<string>, num: int)
    requires ts != [] && (IsComment(RunOn(ts)) <==> IsComment(ts[0])) && CutText(RunOn(ts)) == CutText(ts[0])
    requires CutRows(ts)[1..] == ts[1..]
    ensures RowLines(ts, num) == CountedLines(ts, num) <==> RowLines(ts[1..], num + 1) == CountedLines(ts[1..], num + 1)
  {
    var line, ls, ms := Line(num, CutText(ts[0])), RowLines(ts[1..], num + 1), CountedLines(ts[1..], num + 1);
    if IsComment(ts[0]) {
      assert [] + ms == ms;
    } else {
      SameSplit(line, ls, line, ms);
    }
  }

  /** For every content of a file, the lines that count are those of its rows taken one by one if and only if
      the rows are apart. */
  lemma FileApart(f: string)
    ensures FileLines(f) == CountedLines(RowTexts(f), 1) <==> Apart(RowTexts(f), false)
  {
    FileBuffered(f);
    LinesOfFile(f);
    RowsApart(RowTexts(f), 1);
  }

  lemma {:induction false} NoneFull(ts: seq<string>, after: bool)
    requires forall i :: 0 <= i < |ts| ==> !Full(ts[i])
    ensures Apart(ts, after)
    decreases |ts|
  {
    if ts != [] {
      NoneFull(ts[1..], false);
    }
  }

  // ---------------------------------------------------------------- lines that are cut to their rows

  /** The first 256 characters of a line say what the line says. */
  predicate Whole(line: string) {
    |line| > 256 && '#' !in line[..256] ==> Own(line[..256], line[256..])
  }

  lemma HeldReads(line: string)
    ensures (IsComment(Held(line)) <==> IsComment(line)) && CutText(Held(line)) == CutText(line) <==> Whole(line)
    ensures IsComment(Held(line)) && IsComment(line) ==> Whole(line)
  {
    if |line| > 256 {
      var r, u := line[..256], line[256..];
      assert line == r + u;
      if '#' in r {
        HashStops(r, u);
      } else {
        ReadsTheSame(r, u);
      }
    }
  }

  lemma HeldStep(line: string, rows: seq<string>, rest: seq<string>, num: int)
    ensures CountedLines([Held(line)] + rows, num) == CountedLines([line] + rest, num)
       <==> Whole(line) && CountedLines(rows, num + 1) == CountedLines(rest, num + 1)
  {
    var ls, ms := CountedLines(rows, num + 1), CountedLines(rest, num + 1);
    HeldReads(line);
    CountedNumbers(rows, num + 1);
    CountedNumbers(rest, num + 1);
    assert [] + ls == ls && [] + ms == ms;
    assert ([Held(line)] + rows)[1..] == rows && ([line] + rest)[1..] == rest;
    SameSplit(Line(num, CutText(Held(line))), ls, Line(num, CutText(line)), ms);
  }

  /** Cutting the lines of a file to 256 characters keeps what counts of them if and only if it keeps what
      each of them says. */
  lemma {:induction false} HeldLines(lines: seq<string>, num: int)
    ensures CountedLines(HeldRows(lines), num) == CountedLines(lines, num)
       <==> forall i :: 0 <= i < |lines| ==> Whole(lines[i])
    decreases |lines|
  {
    if lines != [] {
      var rest := lines[1..];
      HeldLines(rest, num + 1);
      HeldStep(lines[0], HeldRows(rest), rest, num);
      assert lines == [lines[0]] + rest;
      assert forall i :: 0 < i < |lines| ==> lines[i] == rest[i - 1];
      assert forall i :: 0 <= i < |rest| ==> rest[i] == lines[i + 1];
    }
  }

  // ---------------------------------------------------------------- what a full row takes from the next

  /** A full row takes what stands in front of the next comment sign or terminator behind it. */
  lemma FullTakes(r: string, u: string)
    requires r != "" && '#' !in r && !EndsBlank(r)
    ensures var w := Front(u);
            CutText(r + u) == r + w[..SolidLength(w, |w|)]
  {
    var w := Front(u);
    var k := SolidLength(w, |w|);
    FrontGoesOn(r, u);
    assert forall j :: 0 <= j < |w| ==> (r + w)[|r| + j] == w[j];
    SolidLengthIs(r + w, |r + w|, |r| + k);
    assert (r + w)[..|r| + k] == r + w[..k];
  }
}
