/** What the two passes of the configuration loader read off the line buffer, lib_src/com/dap_update_cfg.c,
    in terms of the rows alone. A row of 256 characters has no terminator of its own, so the text read there
    goes on into the next row; the lemmas say exactly when every row still reads as its own text. */
module ConfigRows {
  import opened CStrings
  import opened ConfigText
  import opened ConfigFile

  // ---------------------------------------------------------------- reading rows without the buffer

  ghost predicate AreRows(ts: seq<string>) {
    ts != [] ==> |ts[0]| <= 256 && AreRows(ts[1..])
  }

  /** The text read at the first row. */
  function RunOn(ts: seq<string>): string {
    if ts == [] then "" else if |ts[0]| < 256 then ts[0] else ts[0] + RunOn(ts[1..])
  }

  /** A terminator written `k` characters behind the start of the first row. */
  function EndRows(ts: seq<string>, k: nat): (es: seq<string>)
    ensures |es| == |ts|
  {
    if ts == [] then []
    else if k < |ts[0]| && k < 256 then [ts[0][..k]] + ts[1..]
    else if k < 256 then ts
    else [ts[0]] + EndRows(ts[1..], k - 256)
  }

  /** What cutting the first row does to the rows. */
  function CutRows(ts: seq<string>): (cs: seq<string>)
    ensures |cs| == |ts|
  {
    var t := RunOn(ts);
    var h := HashAt(t, 0);
    var k := SolidLength(t[..h], h);
    if k == 0 then EndRows(ts, h) else EndRows(EndRows(ts, h), k)
  }

  /** The lines that count among the rows, each read after the rows before it were cut. */
  function RowLines(ts: seq<string>, num: int): seq<Line>
    decreases |ts|, num
  {
    if ts == [] then []
    else if IsComment(RunOn(ts)) then RowLines(ts[1..], num + 1)
    else [Line(num, CutText(RunOn(ts)))] + RowLines(CutRows(ts)[1..], num + 1)
  }

  // ---------------------------------------------------------------- the rows in the buffer

  /** From an offset on the buffer reads as these rows. */
  ghost predicate Holds(b: string, off: nat, ts: seq<string>)
    decreases |ts|
  {
    ts != [] ==> off + 256 < |b| && StrAt(b, off) == RunOn(ts) && Holds(b, off + 256, ts[1..])
  }

  /** Two buffers that agree from an offset on hold the same string there. */
  lemma {:induction false} StrAtAgree(b: string, c: string, off: nat)
    requires |b| == |c| && forall p :: off <= p < |b| ==> b[p] == c[p]
    ensures StrAt(b, off) == StrAt(c, off)
    decreases |b| - off
  {
    if off < |b| && b[off] != '\0' {
      StrAtAgree(b, c, off + 1);
    }
  }

  lemma {:induction false} HoldsAgree(b: string, c: string, off: nat, ts: seq<string>)
    requires |b| == |c| && Holds(b, off, ts) && forall p :: off <= p < |b| ==> b[p] == c[p]
    ensures Holds(c, off, ts)
    decreases |ts|
  {
    if ts != [] {
      StrAtAgree(b, c, off);
      HoldsAgree(b, c, off + 256, ts[1..]);
    }
  }

  lemma EndedHere(ts: seq<string>, k: nat)
    requires ts != [] && AreRows(ts) && k <= |RunOn(ts)| && k < 256
    ensures var es := EndRows(ts, k);
            es[1..] == ts[1..] && AreRows(es) && RunOn(es) == RunOn(ts)[..k]
  {
    var es := EndRows(ts, k);
    assert es[1..] == ts[1..];
    assert RunOn(ts)[..k] == ts[0][..k];
    assert es[0] == ts[0][..k];
  }

  lemma EndedLater(ts: seq<string>, k: nat)
    requires ts != [] && |ts[0]| <= 256 <= k <= |RunOn(ts)|
    ensures |ts[0]| == 256 && k - 256 <= |RunOn(ts[1..])|
    ensures var later := EndRows(ts[1..], k - 256);
            && EndRows(ts, k) != [] && EndRows(ts, k)[1..] == later
            && (RunOn(later) == RunOn(ts[1..])[..k - 256] ==> RunOn(EndRows(ts, k)) == RunOn(ts)[..k])
  {
    var later := EndRows(ts[1..], k - 256);
    assert EndRows(ts, k)[0] == ts[0] && EndRows(ts, k)[1..] == later;
    assert RunOn(ts)[..k] == ts[0] + RunOn(ts[1..])[..k - 256];
  }

  ghost predicate Buffered(b: string, off: nat, ts: seq<string>) {
    Holds(b, off, ts) && AreRows(ts) && Terminated(b)
  }

  lemma NextBuffered(b: string, off: nat, off': nat, ts: seq<string>)
    requires Buffered(b, off, ts) && ts != [] && off' == off + 256
    ensures Buffered(b, off', ts[1..]) && StrAt(b, off) == RunOn(ts)
  {
  }

  /** A terminator inside the first row. */
  lemma EndedNear(b: string, off: nat, ts: seq<string>, k: nat)
    requires Buffered(b, off, ts) && ts != [] && k <= |RunOn(ts)| && k < 256
    ensures Buffered(EndAt(b, off, k), off, EndRows(ts, k)) && RunOn(EndRows(ts, k)) == RunOn(ts)[..k]
  {
    var c := EndAt(b, off, k);
    StrAtEnded(b, off, k);
    EndedHere(ts, k);
    HoldsAgree(b, c, off + 256, ts[1..]);
  }

  lemma BufferedCons(c: string, off: nat, es: seq<string>)
    requires es != [] && |es[0]| <= 256 && off + 256 < |c| && StrAt(c, off) == RunOn(es) && Buffered(c, off + 256, es[1..])
    ensures Buffered(c, off, es)
  {
  }

  /** A terminator behind the first row. */
  lemma EndedFar(b: string, off: nat, off': nat, ts: seq<string>, k: nat, k': nat)
    requires Buffered(b, off, ts) && ts != [] && k <= |RunOn(ts)| && off' == off + 256 && k == k' + 256
    requires Buffered(b, off', ts[1..]) && k' <= |RunOn(ts[1..])| ==>
               Buffered(EndAt(b, off', k'), off', EndRows(ts[1..], k')) && RunOn(EndRows(ts[1..], k')) == RunOn(ts[1..])[..k']
    ensures Buffered(EndAt(b, off, k), off, EndRows(ts, k)) && RunOn(EndRows(ts, k)) == RunOn(ts)[..k]
  {
    NextBuffered(b, off, off', ts);
    EndedLater(ts, k);
    StrAtEnded(b, off, k);
    assert EndAt(b, off, k) == EndAt(b, off', k');
    BufferedCons(EndAt(b, off, k), off, EndRows(ts, k));
  }

  lemma NoneEnded(b: string, off: nat, k: nat)
    ensures Buffered(b, off, []) && k <= |RunOn([])| ==>
              Buffered(EndAt(b, off, k), off, EndRows([], k)) && RunOn(EndRows([], k)) == RunOn([])[..k]
  {
  }

  /** Ending the buffer and ending the rows is the same. */
  lemma {:induction false} HoldsEnded(b: string, off: nat, ts: seq<string>, k: nat)
    ensures Buffered(b, off, ts) && k <= |RunOn(ts)| ==>
              Buffered(EndAt(b, off, k), off, EndRows(ts, k)) && RunOn(EndRows(ts, k)) == RunOn(ts)[..k]
    decreases |ts|
  {
    if ts == [] {
      NoneEnded(b, off, k);
    } else if Buffered(b, off, ts) && k <= |RunOn(ts)| {
      if k < 256 {
        EndedNear(b, off, ts, k);
      } else {
        HoldsEnded(b, off + 256, ts[1..], k - 256);
        EndedFar(b, off, off + 256, ts, k, k - 256);
      }
    }
  }

  lemma CutBuffered(b: string, off: nat, off': nat, ts: seq<string>)
    requires Buffered(b, off, ts) && ts != [] && off' == off + 256
    ensures var c := CutAt(b, off);
            Buffered(c, off', CutRows(ts)[1..]) && StrAt(c, off) == CutText(RunOn(ts))
  {
    var t := RunOn(ts);
    var h := HashAt(t, 0);
    var c, cs := DropComment(b, off), EndRows(ts, h);
    HoldsEnded(b, off, ts, h);
    if h == |t| {
      SameEnded(b, off);
    }
    assert c == EndAt(b, off, h) && StrAt(c, off) == t[..h];
    DropCommentGives(b, off);
    HoldsEnded(c, off, cs, SolidLength(t[..h], h));
    CutAtGives(b, off);
    assert Buffered(CutAt(b, off), off, CutRows(ts));
    NextBuffered(CutAt(b, off), off, off', CutRows(ts));
  }

  /** Ending a string where it ends changes nothing. */
  lemma SameEnded(b: string, off: nat)
    requires off < |b| && Terminated(b)
    ensures EndAt(b, off, |StrAt(b, off)|) == b
  {
    StrAtInside(b, off);
  }

  /** The step from one row to the next, which starts at `off'`. */
  lemma RowStep(b: string, off: nat, off': nat, ts: seq<string>) returns (next: string, later: seq<string>)
    requires Buffered(b, off, ts) && ts != [] && off' == off + 256
    ensures Buffered(next, off', later) && |later| + 1 == |ts| && StrAt(b, off) == RunOn(ts)
    ensures if IsComment(RunOn(ts)) then next == b && later == ts[1..] else
              next == CutAt(b, off) && later == CutRows(ts)[1..] && StrAt(next, off) == CutText(RunOn(ts))
  {
    NextBuffered(b, off, off', ts);
    if IsComment(RunOn(ts)) {
      next, later := b, ts[1..];
    } else {
      next, later := CutAt(b, off), CutRows(ts)[1..];
      CutBuffered(b, off, off', ts);
    }
  }

  lemma LineStep(b: string, i: nat, ts: seq<string>, n: nat, next: string, later: seq<string>)
    requires ts != [] && i <= n && StrAt(b, 256 * i) == RunOn(ts)
    requires if IsComment(RunOn(ts)) then next == b && later == ts[1..] else
               next == CutAt(b, 256 * i) && later == CutRows(ts)[1..] && StrAt(next, 256 * i) == CutText(RunOn(ts))
    requires BufferLines(next, i + 1, n) == RowLines(later, i + 1 + 1)
    ensures BufferLines(b, i, n) == RowLines(ts, i + 1)
  {
  }

  lemma NextStep(b: string, i: nat, ts: seq<string>, n: nat) returns (next: string, later: seq<string>)
    requires Buffered(b, 256 * i, ts) && ts != [] && i <= n
    ensures Buffered(next, 256 * (i + 1), later) && |later| + 1 == |ts|
    ensures BufferLines(next, i + 1, n) == RowLines(later, i + 1 + 1) ==> BufferLines(b, i, n) == RowLines(ts, i + 1)
  {
    next, later := RowStep(b, 256 * i, 256 * (i + 1), ts);
    if BufferLines(next, i + 1, n) == RowLines(later, i + 1 + 1) {
      LineStep(b, i, ts, n, next, later);
    }
  }

  lemma NoRows(b: string, i: nat, n: nat)
    requires n + 1 == i
    ensures BufferLines(b, i, n) == RowLines([], i + 1)
  {
  }

  /** The lines that count in the buffer are those read off its rows. */
  lemma {:induction false} LinesOfRows(b: string, i: nat, ts: seq<string>, n: nat)
    ensures n + 1 == i + |ts| && Buffered(b, 256 * i, ts) ==> BufferLines(b, i, n) == RowLines(ts, i + 1)
    decreases |ts|
  {
    if n + 1 == i + |ts| && Buffered(b, 256 * i, ts) {
      if |ts| == 0 {
        NoRows(b, i, n);
      } else {
        var next, later := NextStep(b, i, ts, n);
        LinesOfRows(next, i + 1, later, n);
      }
    }
  }

  // ---------------------------------------------------------------- the rows of a file

  /** A row as a C string: the text before its first zero byte. */
  function Clip(row: string): (t: string)
    ensures IsCString(t) && |t| <= |row| && row[..|t|] == t && (|t| < |row| ==> row[|t|] == '\0')
  {
    if row == "" || row[0] == '\0' then "" else [row[0]] + Clip(row[1..])
  }

  lemma {:induction false} ClipWhole(row: string)
    requires IsCString(row)
    ensures Clip(row) == row
  {
    if row != "" {
      assert row[0] in row && forall k :: 0 <= k < |row| - 1 ==> row[1..][k] == row[k + 1];
      ClipWhole(row[1..]);
    }
  }

  function Texts(rows: seq<string>): (ts: seq<string>)
    ensures |ts| == |rows|
  {
    if rows == [] then [] else [Clip(rows[0])] + Texts(rows[1..])
  }

  /** What the buffer holds at `off` starts with `t`. */
  lemma {:induction false} StrAtRuns(b: string, off: nat, t: string)
    requires IsCString(t) && off + |t| <= |b| && b[off..off + |t|] == t
    ensures StrAt(b, off) == t + StrAt(b, off + |t|)
    decreases |t|
  {
    if t == "" {
      assert t + StrAt(b, off) == StrAt(b, off);
    } else {
      assert b[off] == b[off..off + |t|][0];
      assert b[off + 1..off + 1 + |t[1..]|] == b[off..off + |t|][1..] == t[1..];
      assert t == [t[0]] + t[1..];
      StrAtRuns(b, off + 1, t[1..]);
    }
  }

  lemma CellAt(rows: seq<string>, i: nat, k: nat, p: nat)
    requires i < |rows| && k < 256 && p == 256 * i + k
    ensures CellOf(rows, p) == if k < |rows[i]| then rows[i][k] else '\0'
  {
    assert p / 256 == i && p % 256 == k;
  }

  lemma RowCells(rows: seq<string>, b: string, i: nat, off: nat)
    requires i < |rows| && |rows[i]| <= 256 && off == 256 * i && off + 256 <= |b|
    requires forall p {:trigger CellOf(rows, p)} :: 0 <= p < |b| ==> b[p] == CellOf(rows, p)
    ensures var t := Clip(rows[i]);
            b[off..off + |t|] == t && (|t| < 256 ==> b[off + |t|] == '\0')
  {
    var t := Clip(rows[i]);
    forall k | 0 <= k < |t|
      ensures b[off + k] == t[k]
    {
      CellAt(rows, i, k, off + k);
      assert rows[i][k] == rows[i][..|t|][k];
    }
    if |t| < 256 {
      CellAt(rows, i, |t|, off + |t|);
    }
  }

  /** The text at one row, from the text at the next. */
  lemma RowText(rows: seq<string>, b: string, i: nat, off: nat, later: seq<string>)
    requires i < |rows| && |rows[i]| <= 256 && off == 256 * i && off + 256 <= |b|
    requires forall p {:trigger CellOf(rows, p)} :: 0 <= p < |b| ==> b[p] == CellOf(rows, p)
    requires StrAt(b, off + 256) == RunOn(later)
    ensures StrAt(b, off) == RunOn([Clip(rows[i])] + later)
  {
    var t := Clip(rows[i]);
    RowCells(rows, b, i, off);
    StrAtRuns(b, off, t);
    FirstRuns(t, later, StrAt(b, off + |t|));
  }

  lemma FirstRuns(t: string, later: seq<string>, s: string)
    requires |t| <= 256 && if |t| < 256 then s == "" else s == RunOn(later)
    ensures RunOn([t] + later) == t + s
  {
    assert ([t] + later)[1..] == later;
    assert s == "" ==> t + s == t;
  }

  lemma {:induction false} RowsHeld(rows: seq<string>, b: string, i: nat, off: nat)
    requires i <= |rows| && off == 256 * i && 256 * |rows| < |b| && CellOf(rows, 256 * |rows|) == '\0'
    requires forall j :: 0 <= j < |rows| ==> |rows[j]| <= 256
    requires forall p {:trigger CellOf(rows, p)} :: 0 <= p < |b| ==> b[p] == CellOf(rows, p)
    ensures Holds(b, off, Texts(rows[i..])) && AreRows(Texts(rows[i..]))
    ensures StrAt(b, off) == RunOn(Texts(rows[i..]))
    decreases |rows| - i
  {
    if i < |rows| {
      var later := Texts(rows[i + 1..]);
      RowsHeld(rows, b, i + 1, off + 256);
      RowText(rows, b, i, off, later);
      assert rows[i..][0] == rows[i] && rows[i..][1..] == rows[i + 1..];
      assert Texts(rows[i..]) == [Clip(rows[i])] + later && ([Clip(rows[i])] + later)[1..] == later;
    }
  }

  /** The rows of a file as C strings. */
  function RowTexts(f: string): seq<string> {
    Texts(Rows(Readable(f), ""))
  }

  lemma FileBuffered(f: string)
    ensures Buffered(FileBuffer(f), 0, RowTexts(f)) && |RowTexts(f)| == Newlines(Readable(f)) + 1
  {
    var rows := Rows(Readable(f), "");
    RowsCount(Readable(f), "");
    RowsBounded(Readable(f), "");
    ImageTerminated(f);
    assert rows[0..] == rows;
    RowsHeld(rows, FileBuffer(f), 0, 0);
  }

  /** For every content of a file, the lines that count are those read off its rows. */
  lemma LinesOfFile(f: string)
    ensures FileLines(f) == RowLines(RowTexts(f), 1)
  {
    FileBuffered(f);
    LinesOfBuffer(FileBuffer(f), RowTexts(f), Newlines(Readable(f)));
  }

  lemma LinesOfBuffer(b: string, ts: seq<string>, n: nat)
    requires Buffered(b, 0, ts) && n + 1 == |ts|
    ensures BufferLines(b, 0, n) == RowLines(ts, 1)
  {
    LinesOfRows(b, 0, ts, n);
  }
}
