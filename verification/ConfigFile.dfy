/** The configuration file of lib_src/com/dap_update_cfg.c as bytes: counting the lines, filling a buffer of
    256-byte rows, and the counting pass over that buffer. A byte 0xFF reads as end of file, because the source
    compares a signed char with EOF. None stands for a file that cannot be opened. */
module ConfigFile {
  import opened CStrings
  import opened ConfigText

  const EOF_BYTE := 255 as char
  const MAX_LINES := 3000

  // ---------------------------------------------------------------- lines and rows

  /** The bytes before the end of file. */
  function Readable(f: string): string {
    if f == "" || f[0] == EOF_BYTE then "" else [f[0]] + Readable(f[1..])
  }

  function Newlines(f: string): nat {
    if f == "" then 0 else (if f[0] == '\n' then 1 else 0) + Newlines(f[1..])
  }

  /** What a row holds after one more character of its line: carriage returns are dropped, and so is
      everything after 256 characters. */
  function Stored(row: string, c: char): string {
    if |row| < 256 && c != '\r' then row + [c] else row
  }

  /** The rows of a text, `row` holding the start of the first line. */
  function Rows(f: string, row: string): seq<string>
    decreases |f|
  {
    if f == "" then [row]
    else if f[0] == '\n' then [row] + Rows(f[1..], "")
    else Rows(f[1..], Stored(row, f[0]))
  }

  lemma {:induction false} RowsCount(f: string, row: string)
    ensures |Rows(f, row)| == Newlines(f) + 1
    decreases |f|
  {
    if f != "" {
      RowsCount(f[1..], if f[0] == '\n' then "" else Stored(row, f[0]));
    }
  }

  lemma {:induction false} RowsBounded(f: string, row: string)
    requires |row| <= 256
    ensures forall i :: 0 <= i < |Rows(f, row)| ==> |Rows(f, row)[i]| <= 256
    decreases |f|
  {
    if f != "" {
      RowsBounded(f[1..], if f[0] == '\n' then "" else Stored(row, f[0]));
    }
  }

  // ---------------------------------------------------------------- writing a file

  function StripReturns(f: string): string {
    if f == "" then "" else (if f[0] == '\r' then "" else [f[0]]) + StripReturns(f[1..])
  }

  /** The lines of a file, separated by newlines. */
  function Lines(rows: seq<string>): string
    requires rows != []
  {
    if |rows| == 1 then rows[0] else rows[0] + (['\n'] + Lines(rows[1..]))
  }

  /** `f` is these lines, with carriage returns anywhere. */
  ghost predicate IsTextOf(f: string, rows: seq<string>) {
    rows != [] && EOF_BYTE !in f && StripReturns(f) == Lines(rows)
  }

  lemma {:induction false} AllReadable(f: string)
    requires EOF_BYTE !in f
    ensures Readable(f) == f
  {
    if f != "" {
      AllReadable(f[1..]);
      assert f == [f[0]] + f[1..];
    }
  }

  /** What a row holds of its line. */
  function Held(line: string): (r: string)
    ensures |r| <= 256
  {
    if |line| <= 256 then line else line[..256]
  }

  function HeldRows(lines: seq<string>): (rows: seq<string>)
    ensures |rows| == |lines|
  {
    if lines == [] then [] else [Held(lines[0])] + HeldRows(lines[1..])
  }

  ghost predicate OneLiners(lines: seq<string>) {
    forall i :: 0 <= i < |lines| ==> '\n' !in lines[i]
  }

  lemma HoldOne(seen: string, c: char)
    requires c != '\r'
    ensures Stored(Held(seen), c) == Held(seen + [c])
  {
  }

  /** With `seen` of the first line read and `f` still to come. */
  lemma {:induction false} TextRows(f: string, seen: string, lines: seq<string>)
    requires lines != [] && OneLiners(lines) && |seen| <= |lines[0]| && seen + StripReturns(f) == Lines(lines)
    ensures Rows(f, Held(seen)) == HeldRows(lines)
    decreases |f|
  {
    var t := Lines(lines);
    var first := lines[0];
    assert t[..|first|] == first && t[..|seen|] == seen && (|lines| > 1 ==> t[|first|] == '\n');
    if f == "" {
      assert seen + "" == seen && lines == [first];
    } else {
      var c, rest := f[0], StripReturns(f[1..]);
      assert forall k :: 0 <= k < |first| ==> t[k] == first[k];
      if c == '\r' {
        assert "" + rest == rest;
        TextRows(f[1..], seen, lines);
      } else {
        assert t[|seen|] == c && seen + ([c] + rest) == (seen + [c]) + rest;
        if c == '\n' {
          assert seen == first && |lines| > 1 && t[|seen| + 1..] == rest == Lines(lines[1..]);
          assert "" + rest == rest;
          TextRows(f[1..], "", lines[1..]);
        } else {
          HoldOne(seen, c);
          TextRows(f[1..], seen + [c], lines);
        }
      }
    }
  }

  /** Reading a written file gives its lines, up to 256 characters of each. */
  lemma RowsOfText(f: string, lines: seq<string>)
    requires IsTextOf(f, lines) && OneLiners(lines)
    ensures Rows(Readable(f), "") == HeldRows(lines)
  {
    AllReadable(f);
    assert "" + StripReturns(f) == StripReturns(f);
    TextRows(f, "", lines);
  }

  lemma {:induction false} NothingToStrip(t: string)
    requires '\r' !in t
    ensures StripReturns(t) == t
  {
    if t != "" {
      NothingToStrip(t[1..]);
      assert t == [t[0]] + t[1..];
    }
  }

  lemma {:induction false} CharsOfLines(rows: seq<string>, c: char)
    requires rows != [] && c != '\n' && forall i :: 0 <= i < |rows| ==> c !in rows[i]
    ensures c !in Lines(rows)
  {
    if |rows| > 1 {
      CharsOfLines(rows[1..], c);
    }
  }

  /** Lines without carriage returns and 0xFF bytes can be written. */
  lemma LinesAreText(rows: seq<string>)
    requires rows != [] && forall i :: 0 <= i < |rows| ==> '\r' !in rows[i] && EOF_BYTE !in rows[i]
    ensures IsTextOf(Lines(rows), rows)
  {
    CharsOfLines(rows, '\r');
    CharsOfLines(rows, EOF_BYTE);
    NothingToStrip(Lines(rows));
  }

  // ---------------------------------------------------------------- the line buffer

  /** The buffer cell `p` for these rows: row p/256, zero behind its characters. */
  function CellOf(rows: seq<string>, p: nat): char {
    if p / 256 < |rows| && p % 256 < |rows[p / 256]| then rows[p / 256][p % 256] else '\0'
  }

  function Image(rows: seq<string>, size: nat): (b: string)
    ensures |b| == size && forall p :: 0 <= p < size ==> b[p] == CellOf(rows, p)
  {
    seq(size, p requires 0 <= p < size => CellOf(rows, p))
  }

  /** func_conf_lib_GetLine_Count. */
  method GetLineCount(file: Option<string>) returns (n: int)
    ensures n == if file == None then -1 else Newlines(Readable(file.value)) + 1
  {
    if file == None {
      return -1;
    }
    var f, i := file.value, 0;
    n := 0;
    while i < |f| && f[i] != EOF_BYTE
      invariant i <= |f| && n + Newlines(Readable(f[i..])) == Newlines(Readable(f))
    {
      assert f[i..][1..] == f[i + 1..];
      assert Readable(f[i..])[1..] == Readable(f[i + 1..]);
      if f[i] == '\n' {
        n := n + 1;
      }
      i := i + 1;
    }
    n := n + 1;
  }

  lemma PutCell(rows: seq<string>, row: string, c: char, size: nat)
    requires |row| < 256 && 256 * |rows| + |row| < size
    ensures Image(rows + [row], size)[256 * |rows| + |row| := c] == Image(rows + [row + [c]], size)
  {
    var at := 256 * |rows| + |row|;
    forall p | 0 <= p < size
      ensures CellOf(rows + [row + [c]], p) == if p == at then c else CellOf(rows + [row], p)
    {
      assert p == 256 * (p / 256) + p % 256;
    }
  }

  lemma NextRow(rows: seq<string>, size: nat)
    ensures Image(rows + [""], size) == Image(rows, size)
  {
  }

  /** One character other than a newline. */
  method StoreChar(buf: array<char>, locate: nat, safe: nat, c: char, ghost rows: seq<string>, ghost row: string)
    returns (locate': nat, safe': nat)
    requires safe == |row| <= 256 && locate == 256 * |rows| + |row| && 256 * (|rows| + 1) <= buf.Length
    requires buf[..] == Image(rows + [row], buf.Length)
    modifies buf
    ensures safe' == |Stored(row, c)| <= 256 && locate' == 256 * |rows| + |Stored(row, c)|
    ensures buf[..] == Image(rows + [Stored(row, c)], buf.Length)
  {
    locate', safe' := locate, safe;
    if safe < 256 {
      if c != '\r' {
        PutCell(rows, row, c, buf.Length);
        buf[locate] := c;
        locate' := locate + 1;
        safe' := safe + 1;
      }
    }
  }

  /** What reading one more character does to the rows still to come. */
  lemma NextChar(f: string, row: string)
    requires f != "" && f[0] != EOF_BYTE
    ensures Rows(Readable(f), row) == if f[0] == '\n' then [row] + Rows(Readable(f[1..]), "")
                                      else Rows(Readable(f[1..]), Stored(row, f[0]))
  {
    assert Readable(f)[1..] == Readable(f[1..]);
  }

  /** The reading loop of both passes: every byte content fits the buffer of one row more than there are
      lines, and each row holds its line. */
  method FillRows(f: string, buf: array<char>) returns (lineNumber: nat)
    requires buf.Length == 256 * (Newlines(Readable(f)) + 2)
    requires forall p :: 0 <= p < buf.Length ==> buf[p] == '\0'
    modifies buf
    ensures lineNumber == Newlines(Readable(f))
    ensures buf[..] == Image(Rows(Readable(f), ""), buf.Length)
  {
    var i, locate, safe := 0, 0, 0;
    lineNumber := 0;
    ghost var rows: seq<string>, row := [], "";
    ghost var all := Rows(Readable(f), "");
    RowsCount(Readable(f), "");
    assert Image([""], buf.Length) == buf[..];
    assert f[0..] == f && [] + [row] == [""];
    while i < |f| && f[i] != EOF_BYTE
      invariant i <= |f| && rows + Rows(Readable(f[i..]), row) == all
      invariant lineNumber == |rows| && safe == |row| <= 256 && locate == 256 * |rows| + |row|
      invariant buf[..] == Image(rows + [row], buf.Length)
    {
      RowsCount(Readable(f[i..]), row);
      assert f[i..][0] == f[i] && f[i..][1..] == f[i + 1..];
      NextChar(f[i..], row);
      if f[i] != '\n' {
        locate, safe := StoreChar(buf, locate, safe, f[i], rows, row);
        row := Stored(row, f[i]);
      } else {
        lineNumber := lineNumber + 1;
        locate := 256 * lineNumber;
        safe := 0;
        Assoc(rows, [row], Rows(Readable(f[i + 1..]), ""));
        rows, row := rows + [row], "";
        NextRow(rows, buf.Length);
      }
      i := i + 1;
    }
    assert all == rows + [row];
  }

  // ---------------------------------------------------------------- one row of the buffer

  /** The text from `off` is one character and the text from the next offset. */
  lemma OneBefore(b: string, off: nat, next: nat, rest: string, t: string)
    requires next == off + 1 <= |b| && b[off] != '\0' && (next + |rest| <= |b| || rest == "") && t == [b[off]] + rest
    requires forall k :: 0 <= k < |rest| ==> rest[k] == b[next + k] != '\0'
    ensures forall k :: 0 <= k < |t| ==> t[k] == b[off + k] != '\0'
  {
    forall k | 0 <= k < |t|
      ensures t[k] == b[off + k] != '\0'
    {
      if k > 0 {
        assert t[k] == rest[k - 1] == b[next + (k - 1)];
      }
    }
  }

  /** The C string at an offset of the buffer. A row of 256 characters has no terminator, so its string
      goes on into the next row. */
  function StrAt(b: string, off: nat): (t: string)
    ensures off + |t| <= |b| || t == ""
    ensures forall k :: 0 <= k < |t| ==> t[k] == b[off + k] != '\0'
    ensures off + |t| < |b| ==> b[off + |t|] == '\0'
    decreases |b| - off
  {
    if off < |b| && b[off] != '\0' then
      var next := off + 1;
      var rest := StrAt(b, next);
      var t := [b[off]] + rest;
      OneBefore(b, off, next, rest, t);
      t
    else ""
  }

  /** The buffer ends in a terminator. */
  ghost predicate Terminated(b: string) {
    b != "" && b[|b| - 1] == '\0'
  }

  lemma StrAtInside(b: string, off: nat)
    requires off < |b| && Terminated(b)
    ensures off + |StrAt(b, off)| < |b|
  {
    var t := StrAt(b, off);
    assert t != "" ==> t[|t| - 1] == b[off + |t| - 1];
  }

  lemma {:induction false} ZeroEnds(b: string, off: nat, n: nat)
    requires n <= |StrAt(b, off)| && off + n < |b| && b[off + n] == '\0'
    ensures n == |StrAt(b, off)|
    decreases n
  {
    if n > 0 {
      ZeroEnds(b, off + 1, n - 1);
    }
  }

  method StrLen(buf: array<char>, off: nat) returns (n: nat)
    requires off < buf.Length && Terminated(buf[..])
    ensures n == |StrAt(buf[..], off)| && off + n < buf.Length
  {
    ghost var t := StrAt(buf[..], off);
    StrAtInside(buf[..], off);
    n := 0;
    while buf[off + n] != '\0'
      invariant n <= |t| && off + |t| < buf.Length
      decreases |t| - n
    {
      n := n + 1;
    }
    ZeroEnds(buf[..], off, n);
  }

  /** func_conf_lib_Get_Comment on a row. */
  method GetComment(buf: array<char>, off: nat) returns (r: int)
    requires off < buf.Length && Terminated(buf[..])
    ensures r == if IsComment(StrAt(buf[..], off)) then 1 else 0
  {
    var max := StrLen(buf, off);
    ghost var t := StrAt(buf[..], off);
    if max <= 0 {
      return 1;
    }
    var count := 0;
    while count < max
      invariant count <= max && forall k :: 0 <= k < count ==> IsBlank(t[k])
    {
      assert buf[off + count] == t[count];
      if buf[off + count] != ' ' && buf[off + count] != '\t' {
        SolidFromIs(t, 0, count);
        return if buf[off + count] == '#' then 1 else 0;
      }
      count := count + 1;
    }
    SolidFromIs(t, 0, |t|);
    return 0;
  }

  /** func_conf_lib_Chk_Item on a row. */
  method ChkItem(buf: array<char>, off: nat) returns (r: int)
    requires off < buf.Length && Terminated(buf[..])
    ensures r == if IsGroup(StrAt(buf[..], off)) then 1 else 0
  {
    var max := StrLen(buf, off);
    ghost var t := StrAt(buf[..], off);
    if max <= 0 {
      return 1;
    }
    var count := 0;
    while count < max
      invariant count <= max && forall k :: 0 <= k < count ==> IsBlank(t[k])
    {
      assert buf[off + count] == t[count];
      if buf[off + count] != ' ' && buf[off + count] != '\t' {
        SolidFromIs(t, 0, count);
        return if buf[off + count] == '*' then 1 else 0;
      }
      count := count + 1;
    }
    SolidFromIs(t, 0, |t|);
    return 0;
  }

  /** A terminator written at `k` characters behind `off`, when that is inside the string there. */
  function EndAt(b: string, off: nat, k: nat): (r: string)
    ensures |r| == |b|
  {
    if off + k < |b| then b[off + k := '\0'] else b
  }

  lemma {:induction false} StrAtEnded(b: string, off: nat, k: nat)
    requires off < |b| && k <= |StrAt(b, off)| && Terminated(b)
    ensures Terminated(EndAt(b, off, k))
    ensures StrAt(EndAt(b, off, k), off) == StrAt(b, off)[..k]
    decreases k
  {
    if k > 0 {
      assert EndAt(b, off, k) == EndAt(b, off + 1, k - 1);
      StrAtEnded(b, off + 1, k - 1);
      assert StrAt(b, off)[..k] == [b[off]] + StrAt(b, off + 1)[..k - 1];
    }
  }

  /** Ending the row at `off` at its first comment sign. */
  function DropComment(b: string, off: nat): (r: string)
    ensures |r| == |b|
  {
    var t := StrAt(b, off);
    if HashAt(t, 0) < |t| then EndAt(b, off, HashAt(t, 0)) else b
  }

  /** Ending the row at `off` behind its last solid character, when it has one. */
  function DropBlanks(b: string, off: nat): (r: string)
    ensures |r| == |b|
  {
    var t := StrAt(b, off);
    var k := SolidLength(t, |t|);
    if k == 0 then b else EndAt(b, off, k)
  }

  /** What cutting the row at `off` does to the buffer. */
  function CutAt(b: string, off: nat): (r: string)
    ensures |r| == |b|
  {
    DropBlanks(DropComment(b, off), off)
  }

  lemma DropCommentGives(b: string, off: nat)
    requires off < |b| && Terminated(b)
    ensures var t := StrAt(b, off);
            Terminated(DropComment(b, off)) && StrAt(DropComment(b, off), off) == t[..HashAt(t, 0)]
  {
    var t := StrAt(b, off);
    StrAtEnded(b, off, HashAt(t, 0));
    assert HashAt(t, 0) == |t| ==> t[..HashAt(t, 0)] == t;
  }

  lemma DropBlanksGives(b: string, off: nat)
    requires off < |b| && Terminated(b)
    ensures var t := StrAt(b, off);
            var k := SolidLength(t, |t|);
            Terminated(DropBlanks(b, off)) && StrAt(DropBlanks(b, off), off) == if k == 0 then t else t[..k]
  {
    var t := StrAt(b, off);
    StrAtEnded(b, off, SolidLength(t, |t|));
  }

  /** Cutting a row leaves the cut text there. */
  lemma CutAtGives(b: string, off: nat)
    requires off < |b| && Terminated(b)
    ensures Terminated(CutAt(b, off)) && StrAt(CutAt(b, off), off) == CutText(StrAt(b, off))
  {
    DropCommentGives(b, off);
    DropBlanksGives(DropComment(b, off), off);
  }

  /** The first loop of func_conf_lib_Cut_Comment. */
  method CutHash(buf: array<char>, off: nat)
    requires off < buf.Length && Terminated(buf[..])
    modifies buf
    ensures buf[..] == DropComment(old(buf[..]), off)
  {
    var max := StrLen(buf, off);
    ghost var t := StrAt(buf[..], off);
    var count := 0;
    while count < max
      invariant count <= max && buf[..] == old(buf[..]) && forall k :: 0 <= k < count ==> t[k] != '#'
    {
      assert buf[off + count] == t[count];
      if buf[off + count] == '#' {
        HashAtIs(t, count);
        buf[off + count] := '\0';
        return;
      }
      count := count + 1;
    }
    HashAtIs(t, count);
  }

  /** The second loop: from the terminator back to the last solid character. */
  method TrimRow(buf: array<char>, off: nat)
    requires off < buf.Length && Terminated(buf[..])
    modifies buf
    ensures buf[..] == DropBlanks(old(buf[..]), off)
  {
    var count: int := StrLen(buf, off);
    ghost var t := StrAt(buf[..], off);
    while count >= 0
      invariant -1 <= count <= |t| && buf[..] == old(buf[..])
      invariant forall k :: count < k < |t| ==> IsBlank(t[k])
      decreases count
    {
      assert count < |t| ==> t[count] == buf[off + count];
      if buf[off + count] != ' ' && buf[off + count] != '\t' && buf[off + count] != '\0' {
        SolidLengthIs(t, |t|, count + 1);
        buf[off + count + 1] := '\0';
        return;
      }
      count := count - 1;
    }
    SolidLengthIs(t, |t|, 0);
  }

  /** func_conf_lib_Cut_Comment on a row, in place. */
  method CutComment(buf: array<char>, off: nat)
    requires off < buf.Length && Terminated(buf[..])
    modifies buf
    ensures Terminated(buf[..]) && buf[..] == CutAt(old(buf[..]), off)
    ensures StrAt(buf[..], off) == CutText(StrAt(old(buf[..]), off))
  {
    CutAtGives(buf[..], off);
    DropCommentGives(buf[..], off);
    var max := StrLen(buf, off);
    if max <= 0 {
      return;
    }
    CutHash(buf, off);
    TrimRow(buf, off);
  }

  // ---------------------------------------------------------------- the two passes over the rows

  /** The lines that count from row `i` to row `n`, each read after the rows before it were cut. */
  function BufferLines(b: string, i: nat, n: nat): seq<Line>
    decreases n + 1 - i
  {
    if i > n then []
    else if IsComment(StrAt(b, 256 * i)) then BufferLines(b, i + 1, n)
    else
      var c := CutAt(b, 256 * i);
      [Line(i + 1, StrAt(c, 256 * i))] + BufferLines(c, i + 1, n)
  }

  /** The counted lines of a file. */
  function FileLines(f: string): seq<Line> {
    BufferLines(FileBuffer(f), 0, Newlines(Readable(f)))
  }

  /** The line buffer of a file once it is filled. */
  function FileBuffer(f: string): string {
    Image(Rows(Readable(f), ""), 256 * (Newlines(Readable(f)) + 2))
  }

  function TestFile(file: Option<string>): int {
    if file == None then -2
    else if MAX_LINES < Newlines(Readable(file.value)) + 1 then -3
    else TestResult(FileLines(file.value))
  }

  lemma ImageTerminated(f: string)
    ensures Terminated(FileBuffer(f))
  {
    RowsCount(Readable(f), "");
  }

  /** What both passes do with a row: skip a comment, cut anything else. */
  method CutRow(buf: array<char>, row: nat, ghost n: nat) returns (counts: bool)
    requires 256 * row < buf.Length && Terminated(buf[..]) && row <= n
    modifies buf
    ensures Terminated(buf[..])
    ensures !counts ==> BufferLines(old(buf[..]), row, n) == BufferLines(buf[..], row + 1, n)
    ensures counts ==>
              BufferLines(old(buf[..]), row, n) == [Line(row + 1, StrAt(buf[..], 256 * row))] + BufferLines(buf[..], row + 1, n)
  {
    var comment := GetComment(buf, 256 * row);
    counts := comment == 0;
    if counts {
      CutComment(buf, 256 * row);
    }
  }

  /** The counting loop of func_conf_lib_Test_Parser. */
  method CountRows(buf: array<char>, lineNumber: nat) returns (rc: int)
    requires 256 * lineNumber < buf.Length && Terminated(buf[..])
    modifies buf
    ensures rc == TestResult(BufferLines(old(buf[..]), 0, lineNumber))
  {
    ghost var lines := BufferLines(buf[..], 0, lineNumber);
    ghost var rest := lines;
    var row, groups, current := 0, 0, 0;
    while row <= lineNumber
      invariant row <= lineNumber + 1 && Terminated(buf[..])
      invariant rest == BufferLines(buf[..], row, lineNumber) && current + |rest| == |lines|
      invariant (groups > 0 <==> current > 0) && if current == 0 then rest == lines else IsGroup(lines[0].text)
    {
      var counts := CutRow(buf, row, lineNumber);
      rest := BufferLines(buf[..], row + 1, lineNumber);
      if counts {
        var heading := ChkItem(buf, 256 * row);
        if heading == 1 {
          groups := groups + 1;
        } else if groups <= 0 {
          return -6;
        }
        current := current + 1;
      }
      row := row + 1;
    }
    return current;
  }

  /** func_conf_lib_Test_Parser: for every content of the file, all writes stay inside the buffer and the
      result is the number of lines that count, or the error. */
  method TestParser(file: Option<string>) returns (rc: int)
    ensures rc == TestFile(file)
    ensures file.None? ==> rc == -2
    ensures file.Some? && Newlines(Readable(file.value)) >= 3000 ==> rc == -3
    ensures file.Some? && Newlines(Readable(file.value)) < 3000 ==>
              var ls := FileLines(file.value);
              rc == if ls == [] then 0 else if IsGroup(ls[0].text) then |ls| else -6
  {
    var lineCount := GetLineCount(file);
    if lineCount == -1 {
      return -2;
    }
    if 3000 < lineCount {
      return -3;
    }
    var buf := new char[(lineCount + 1) * 256](_ => '\0');
    var lineNumber := FillRows(file.value, buf);
    ImageTerminated(file.value);
    rc := CountRows(buf, lineNumber);
  }
}
