/** The filling pass of the configuration loader and the lookup of one option, lib_src/com/dap_update_cfg.c,
    and what they make of a file that a table was written to. */
module ConfigLoad {
  import opened CStrings
  import opened ConfigText
  import opened ConfigFile
  import opened ConfigRows
  import opened ConfigApart
  import T = ConfigTable
  import R = ConfigRender

  // ---------------------------------------------------------------- filling one entry

  const TEXT_SIZE: nat := 288   // the 31 bytes of _cf_item with the 257 bytes of _cf_opt behind them

  /** A text with a terminator behind it reads back as it was written. */
  lemma StrAtOf(b: string, off: nat, t: string)
    requires IsCString(t) && off + |t| < |b| && b[off..off + |t|] == t && b[off + |t|] == '\0'
    ensures StrAt(b, off) == t
  {
    StrAtRuns(b, off, t);
    assert StrAt(b, off + |t|) == "" && t + "" == t;
  }

  /** Copy `t` to `at` and end it. */
  method Place(mem: array<char>, at: nat, t: string)
    requires at + |t| < mem.Length
    modifies mem
    ensures mem[..] == old(mem[..at]) + t + ['\0'] + old(mem[at + |t| + 1..])
  {
    for k := 0 to |t|
      invariant mem[..at + k] == old(mem[..at]) + t[..k]
      invariant forall j :: at + k <= j < mem.Length ==> mem[j] == old(mem[j])
    {
      mem[at + k] := t[k];
    }
    mem[at + |t|] := '\0';
    assert mem[at + |t| + 1..] == old(mem[at + |t| + 1..]);
    assert mem[..at + |t|] == old(mem[..at]) + t;
  }

  lemma CleanSlice(s: string, i: nat, j: nat)
    requires IsCString(s) && i <= j <= |s|
    ensures IsCString(s[i..j])
  {
    assert forall k :: 0 <= k < j - i ==> s[i..j][k] == s[i + k] && s[i + k] in s;
  }

  method SkipBlanks(t: string, i: nat) returns (count: nat)
    requires i <= |t|
    ensures count == SolidFrom(t, i)
  {
    count := i;
    while count < |t| && (t[count] == ' ' || t[count] == '\t')
      invariant i <= count <= |t| && forall k :: i <= k < count ==> IsBlank(t[k])
    {
      count := count + 1;
    }
    SolidFromIs(t, i, count);
  }

  method SkipWord(t: string, i: nat) returns (count: nat)
    requires i <= |t|
    ensures count == WordEnd(t, i)
  {
    count := i;
    while count < |t| && t[count] != ' ' && t[count] != '\t'
      invariant i <= count <= |t| && forall k :: i <= k < count ==> !IsBlank(t[k])
    {
      count := count + 1;
    }
    WordEndIs(t, i, count);
  }

  /** Write a group name at the item field and empty the option; read the item back. */
  method StoreGroup(name: string) returns (item: string, opt: string)
    requires IsCString(name) && |name| < TEXT_SIZE
    ensures item == (if |name| <= ITEM_SIZE then name else name[..ITEM_SIZE]) && opt == ""
  {
    var mem := new char[TEXT_SIZE](_ => '\0');
    Place(mem, 0, name);
    mem[ITEM_SIZE] := '\0';
    ghost var n := if |name| <= ITEM_SIZE then |name| else ITEM_SIZE;
    CleanSlice(name, 0, n);
    assert mem[0..n] == name[..n] && mem[n] == '\0';
    StrAtOf(mem[..], 0, name[..n]);
    item, opt := StrAt(mem[..], 0), StrAt(mem[..], ITEM_SIZE);
  }

  /** Write an item name and then its option; read both back. */
  method StoreItem(name: string, text: string) returns (item: string, opt: string)
    requires IsCString(name) && IsCString(text) && |name| < TEXT_SIZE && |text| < OPT_SIZE
    ensures item == (if |name| < ITEM_SIZE then name else name[..ITEM_SIZE] + text) && opt == text
  {
    var mem := new char[TEXT_SIZE](_ => '\0');
    Place(mem, 0, name);
    assert |name| < ITEM_SIZE ==> mem[..|name|] == name && mem[|name|] == '\0';
    assert |name| >= ITEM_SIZE ==> mem[..ITEM_SIZE] == name[..ITEM_SIZE];
    ghost var front := mem[..ITEM_SIZE];
    Place(mem, ITEM_SIZE, text);
    assert mem[..ITEM_SIZE] == front && mem[ITEM_SIZE..ITEM_SIZE + |text|] == text && mem[ITEM_SIZE + |text|] == '\0';
    StrAtOf(mem[..], ITEM_SIZE, text);
    if |name| < ITEM_SIZE {
      assert mem[0..|name|] == front[..|name|] == name && mem[|name|] == front[|name|];
      StrAtOf(mem[..], 0, name);
    } else {
      CleanSlice(name, 0, ITEM_SIZE);
      assert mem[0..ITEM_SIZE + |text|] == name[..ITEM_SIZE] + text;
      StrAtOf(mem[..], 0, name[..ITEM_SIZE] + text);
    }
    item, opt := StrAt(mem[..], 0), StrAt(mem[..], ITEM_SIZE);
  }

  /** func_conf_lib_GItem_Copy, with the option emptied behind it. */
  method FillGroup(l: Line, group: nat) returns (e: Entry)
    requires IsCString(l.text) && |GroupName(l.text)| < TEXT_SIZE
    ensures e == GroupEntry(l, group)
  {
    var count := SkipBlanks(l.text, 0);
    if count < |l.text| && l.text[count] == '*' {
      count := count + 1;
    }
    var end := SkipWord(l.text, count);
    CleanSlice(l.text, count, end);
    var item, opt := StoreGroup(l.text[count..end]);
    e := Entry(GROUP, group, item, opt, l.num);
  }

  /** func_conf_lib_Opt_Copy. */
  method FillItem(l: Line, group: nat) returns (e: Entry)
    requires IsCString(l.text) && |ItemName(l.text)| < TEXT_SIZE && |ItemOpt(l.text)| < OPT_SIZE
    ensures e == ItemEntry(l, group)
  {
    var end := SkipWord(l.text, 0);
    var count := SkipBlanks(l.text, end);
    CleanSlice(l.text, 0, end);
    CleanSlice(l.text, count, |l.text|);
    assert l.text[0..end] == l.text[..end] && l.text[count..|l.text|] == l.text[count..];
    var item, opt := StoreItem(l.text[..end], l.text[count..]);
    e := Entry(ITEM, group, item, opt, l.num);
  }

  // ---------------------------------------------------------------- the filling pass

  /** The name and the option of a line stay inside the text fields of an entry. */
  predicate FieldsFit(t: string) {
    if IsGroup(t) then |GroupName(t)| < TEXT_SIZE else |ItemName(t)| < TEXT_SIZE && |ItemOpt(t)| < OPT_SIZE
  }

  ghost predicate Fits(ls: seq<Line>) {
    ls != [] ==> FieldsFit(ls[0].text) && Fits(ls[1..])
  }

  /** The filling pass over `rest`, with `groups` headings read and the entries `done` filled: its result
      and the entries at its end. */
  function LoadFrom(rest: seq<Line>, groups: nat, done: seq<Entry>): (int, seq<Entry>)
    decreases |rest|
  {
    if rest == [] then (0, done)
    else if IsGroup(rest[0].text) then
      if groups >= MAX_GROUPS then (-6, done) else LoadFrom(rest[1..], groups + 1, done + [GroupEntry(rest[0], groups + 1)])
    else if groups == 0 then (-7, done)
    else LoadFrom(rest[1..], groups, done + [ItemEntry(rest[0], groups)])
  }

  /** It fills the entries of the lines unless one stands before every heading or there are too many. */
  lemma {:induction false} LoadFromFills(rest: seq<Line>, groups: nat, done: seq<Entry>)
    requires groups <= MAX_GROUPS
    ensures LoadFrom(rest, groups, done).0
         == if groups == 0 then LoadResult(rest) else if groups + GroupCount(rest) > MAX_GROUPS then -6 else 0
    ensures LoadFrom(rest, groups, done).0 == 0 ==> LoadFrom(rest, groups, done).1 == done + Entries(rest, groups)
    decreases |rest|
  {
    if rest == [] {
      assert done + [] == done;
    } else {
      var group := if IsGroup(rest[0].text) then groups + 1 else groups;
      if 0 < group <= MAX_GROUPS {
        var e, later := if IsGroup(rest[0].text) then GroupEntry(rest[0], group) else ItemEntry(rest[0], group), rest[1..];
        LoadFromFills(later, group, done + [e]);
        Assoc(done, [e], Entries(later, group));
      }
    }
  }

  /** One counted line of the filling pass: an error code, or the next entry. */
  method FillEntry(line: Line, heading: int, groups: nat, ghost rest: seq<Line>, ghost done: seq<Entry>)
    returns (rc: int, groups': nat, e: Entry)
    requires IsCString(line.text) && FieldsFit(line.text) && heading == if IsGroup(line.text) then 1 else 0
    ensures LoadFrom([line] + rest, groups, done) == if rc == 0 then LoadFrom(rest, groups', done + [e]) else (rc, done)
  {
    assert ([line] + rest)[0] == line && ([line] + rest)[1..] == rest;
    rc, groups', e := 0, groups, Entry(0, 0, "", "", 0);
    if heading == 1 {
      if 254 < groups {
        return -6, groups, e;
      }
      groups' := groups + 1;
      e := FillGroup(line, groups');
    } else {
      if groups <= 0 {
        return -7, groups, e;
      }
      e := FillItem(line, groups);
    }
  }

  lemma FitsTail(l: Line, rest: seq<Line>)
    requires Fits([l] + rest)
    ensures FieldsFit(l.text) && Fits(rest)
  {
    assert ([l] + rest)[0] == l && ([l] + rest)[1..] == rest;
  }

  /** One row of the filling pass. */
  method FillRow(buf: array<char>, row: nat, groups: nat, ghost n: nat, ghost done: seq<Entry>)
    returns (rc: int, groups': nat, e: Option<Entry>, ghost done': seq<Entry>)
    requires row <= n && 256 * row < buf.Length && Terminated(buf[..]) && Fits(BufferLines(buf[..], row, n))
    modifies buf
    ensures Terminated(buf[..]) && Fits(BufferLines(buf[..], row + 1, n))
    ensures rc == 0 ==> done' == done + (if e.Some? then [e.value] else [])
    ensures rc == 0 ==> |done'| + |BufferLines(buf[..], row + 1, n)| == |done| + |old(BufferLines(buf[..], row, n))|
    ensures LoadFrom(old(BufferLines(buf[..], row, n)), groups, done)
         == if rc == 0 then LoadFrom(BufferLines(buf[..], row + 1, n), groups', done') else (rc, done)
  {
    rc, groups', e, done' := 0, groups, None, done;
    var counts := CutRow(buf, row, n);
    if counts {
      ghost var rest := BufferLines(buf[..], row + 1, n);
      var line := Line(row + 1, StrAt(buf[..], 256 * row));
      FitsTail(line, rest);
      var heading := ChkItem(buf, 256 * row);
      var x;
      rc, groups', x := FillEntry(line, heading, groups, rest, done);
      e, done' := Some(x), done + [x];
    }
  }

  method PutEntry(es: array<Entry>, copied: nat, e: Entry)
    requires copied < es.Length
    modifies es
    ensures es[..copied + 1] == old(es[..copied]) + [e]
  {
    es[copied] := e;
  }

  /** One turn of the loop: the entry of the row, if it counts, is put behind those already there. */
  method FillNext(buf: array<char>, row: nat, groups: nat, es: array<Entry>, copied: nat, ghost n: nat)
    returns (rc: int, groups': nat, copied': nat)
    requires row <= n && 256 * row < buf.Length && Terminated(buf[..]) && Fits(BufferLines(buf[..], row, n))
    requires copied + |BufferLines(buf[..], row, n)| <= es.Length
    modifies buf, es
    ensures Terminated(buf[..]) && Fits(BufferLines(buf[..], row + 1, n)) && copied' <= es.Length
    ensures rc == 0 ==> copied' + |BufferLines(buf[..], row + 1, n)| <= es.Length
    ensures LoadFrom(old(BufferLines(buf[..], row, n)), groups, old(es[..copied]))
         == if rc == 0 then LoadFrom(BufferLines(buf[..], row + 1, n), groups', es[..copied']) else (rc, es[..copied'])
  {
    copied' := copied;
    var e;
    ghost var done;
    rc, groups', e, done := FillRow(buf, row, groups, n, es[..copied]);
    if rc == 0 && e.Some? {
      PutEntry(es, copied, e.value);
      copied' := copied + 1;
    }
    assert rc == 0 ==> es[..copied'] == done;
  }

  /** The loop of func_conf_lib_Load_Parser. */
  method FillLoop(buf: array<char>, lineNumber: nat, es: array<Entry>) returns (rc: int, copied: nat)
    requires 256 * lineNumber < buf.Length && Terminated(buf[..])
    requires Fits(BufferLines(buf[..], 0, lineNumber)) && |BufferLines(buf[..], 0, lineNumber)| <= es.Length
    modifies buf, es
    ensures copied <= es.Length && (rc, es[..copied]) == LoadFrom(old(BufferLines(buf[..], 0, lineNumber)), 0, [])
  {
    var row, groups := 0, 0;
    rc, copied := 0, 0;
    ghost var goal := LoadFrom(BufferLines(buf[..], 0, lineNumber), 0, []);
    assert es[..0] == [];
    while row <= lineNumber && rc == 0
      invariant row <= lineNumber + 1 && Terminated(buf[..]) && copied <= es.Length
      invariant rc == 0 ==> Fits(BufferLines(buf[..], row, lineNumber)) && copied + |BufferLines(buf[..], row, lineNumber)| <= es.Length
      invariant goal == if rc == 0 then LoadFrom(BufferLines(buf[..], row, lineNumber), groups, es[..copied]) else (rc, es[..copied])
      decreases lineNumber + 1 - row, if rc == 0 then 1 else 0
    {
      rc, groups, copied := FillNext(buf, row, groups, es, copied, lineNumber);
      row := row + 1;
    }
    NoneLeft(buf[..], row, lineNumber, groups, es[..copied]);
  }

  lemma NoneLeft(b: string, row: nat, n: nat, groups: nat, done: seq<Entry>)
    ensures row > n ==> LoadFrom(BufferLines(b, row, n), groups, done) == (0, done)
  {
  }

  /** The filling pass over a filled buffer: the entries of its counted lines, or the error. */
  method FillRowsInto(buf: array<char>, lineNumber: nat, es: array<Entry>, ghost ls: seq<Line>) returns (rc: int)
    requires 256 * lineNumber < buf.Length && Terminated(buf[..])
    requires ls == BufferLines(buf[..], 0, lineNumber) && Fits(ls) && |ls| <= es.Length
    modifies buf, es
    ensures rc == LoadResult(ls)
    ensures rc == 0 ==> |Entries(ls, 0)| <= es.Length && es[..|Entries(ls, 0)|] == Entries(ls, 0)
  {
    LoadFromFills(ls, 0, []);
    var copied;
    rc, copied := FillLoop(buf, lineNumber, es);
    assert rc == 0 ==> es[..copied] == Entries(ls, 0);
  }

  function LoadFile(file: Option<string>): int {
    if file == None then -2
    else if MAX_LINES < Newlines(Readable(file.value)) + 1 then -3
    else LoadResult(FileLines(file.value))
  }

  /** func_conf_lib_Load_Parser into the array that the counting pass sized. */
  method LoadParser(file: Option<string>, es: array<Entry>) returns (rc: int)
    requires file.Some? ==> Fits(FileLines(file.value)) && |FileLines(file.value)| <= es.Length
    modifies es
    ensures rc == LoadFile(file)
    ensures file.None? ==> rc == -2
    ensures file.Some? && Newlines(Readable(file.value)) >= 3000 ==> rc == -3
    ensures file.Some? && Newlines(Readable(file.value)) < 3000 ==>
              var ls := FileLines(file.value);
              rc == if ls == [] then 0 else if !IsGroup(ls[0].text) then -7 else if GroupCount(ls) > 255 then -6 else 0
    ensures rc == 0 ==> var all := Entries(FileLines(file.value), 0);
                        |all| <= es.Length && es[..|all|] == all
  {
    var lineCount := GetLineCount(file);
    if lineCount == -1 {
      return -2;
    }
    if 3000 < lineCount {
      return -3;
    }
    var buf := new char[(lineCount + 1) * 256](_ => '\0');
    var lineNumber := FillRows(file.value, buf);
    ImageTerminated(file.value);
    rc := FillRowsInto(buf, lineNumber, es, FileLines(file.value));
  }

  // ---------------------------------------------------------------- looking an option up

  /** What ConfigGetValue gives for a file, in terms of the nested map. */
  ghost function ConfigValue(file: Option<string>, group: string, item: string): (int, string) {
    if TestFile(file) <= 0 then (-1, "")
    else if LoadFile(file) < 0 || !T.NoDuplicates(Entries(FileLines(file.value), 0)) then (-2, "")
    else T.NestedLookup(T.Nested(Entries(FileLines(file.value), 0)), group, item)
  }

  /** ConfigGetValue: -1 for an unusable file or a missing group, -2 for a table that does not load or a
      missing item, else the option of the item in the group. */
  method ConfigGetValue(file: Option<string>, group: string, item: string) returns (rc: int, opt: string)
    requires file.Some? ==> Fits(FileLines(file.value))
    ensures (rc, opt) == ConfigValue(file, group, item)
  {
    var sized := TestParser(file);
    if sized <= 0 {
      return -1, "";
    }
    ghost var ls := FileLines(file.value);
    PassesAgree(ls);
    var es := new Entry[sized](_ => Entry(0, 0, "", "", 0));
    var count := TestParser(file);
    var loaded := LoadParser(file, es);
    if loaded < 0 {
      return -2, "";
    }
    assert es[..count] == Entries(ls, 0);
    var check := T.DuplicationCheck(es, count);
    if check < 0 {
      return -2, "";
    }
    T.LookupIsNested(Entries(ls, 0), group, item);
    rc, opt := T.LookupLoops(es, count, group, item);
  }

  // ---------------------------------------------------------------- files that can be loaded

  /** What a row holds fits the fields of an entry. */
  lemma HeldFit(t: string)
    requires |t| <= 256
    ensures FieldsFit(CutText(t))
  {
  }

  lemma {:induction false} RowsFit(ts: seq<string>, num: int)
    requires AreRows(ts)
    ensures Fits(CountedLines(ts, num))
    decreases |ts|
  {
    if ts != [] {
      var rest := CountedLines(ts[1..], num + 1);
      HeldFit(ts[0]);
      RowsFit(ts[1..], num + 1);
      assert [] + rest == rest && ([Line(num, CutText(ts[0]))] + rest)[1..] == rest;
    }
  }

  /** A file whose rows are apart can be loaded. */
  lemma ApartFits(f: string)
    requires Apart(RowTexts(f), false)
    ensures Fits(FileLines(f))
  {
    FileApart(f);
    FileBuffered(f);
    RowsFit(RowTexts(f), 1);
  }

  /** A file that overflows a text field has a row of 256 characters without a comment sign. */
  lemma OverflowFillsRow(f: string)
    ensures !Fits(FileLines(f)) ==> exists i :: 0 <= i < |RowTexts(f)| && Full(RowTexts(f)[i])
  {
    if forall i :: 0 <= i < |RowTexts(f)| ==> !Full(RowTexts(f)[i]) {
      NoneFull(RowTexts(f), false);
      ApartFits(f);
    }
  }

  // ---------------------------------------------------------------- files that a table was written to

  /** Lines that a file can hold: on one line each, without a zero byte. */
  ghost predicate Storable(lines: seq<string>) {
    forall i :: 0 <= i < |lines| ==> '\n' !in lines[i] && IsCString(lines[i])
  }

  /** The rows say what the lines say, and are apart. */
  ghost predicate Clear(lines: seq<string>) {
    (forall i :: 0 <= i < |lines| ==> Whole(lines[i])) && Apart(HeldRows(lines), false)
  }

  lemma {:induction false} TextsOfHeld(lines: seq<string>)
    requires Storable(lines)
    ensures Texts(HeldRows(lines)) == HeldRows(lines)
    decreases |lines|
  {
    if lines != [] {
      assert forall i :: 0 <= i < |lines[1..]| ==> lines[1..][i] == lines[i + 1];
      TextsOfHeld(lines[1..]);
      assert IsCString(lines[0]);
      ClipWhole(Held(lines[0]));
    }
  }

  /** Reading a written file line by line: exactly when its rows are apart, and as they were written exactly
      when cutting to 256 characters loses nothing. */
  lemma WrittenLines(f: string, lines: seq<string>)
    requires IsTextOf(f, lines) && Storable(lines)
    ensures Rows(Readable(f), "") == RowTexts(f) == HeldRows(lines)
    ensures FileLines(f) == CountedLines(HeldRows(lines), 1) <==> Apart(HeldRows(lines), false)
    ensures CountedLines(HeldRows(lines), 1) == CountedLines(lines, 1) <==> forall i :: 0 <= i < |lines| ==> Whole(lines[i])
  {
    RowsOfText(f, lines);
    TextsOfHeld(lines);
    FileApart(f);
    HeldLines(lines, 1);
  }

  /** Lines shorter than their rows, or with a comment sign in them, are clear. */
  lemma ShortIsClear(lines: seq<string>)
    requires forall i :: 0 <= i < |lines| ==> |lines[i]| < 256 || '#' in Held(lines[i])
    ensures Clear(lines)
  {
    HeldAt(lines);
    NoneFull(HeldRows(lines), false);
  }

  lemma {:induction false} HeldAt(lines: seq<string>)
    ensures forall i :: 0 <= i < |lines| ==> HeldRows(lines)[i] == Held(lines[i])
    decreases |lines|
  {
    if lines != [] {
      HeldAt(lines[1..]);
    }
  }

  /** A file that a table was written to, carriage returns anywhere, loads exactly that table if and only if
      its names fit: names, options, order, group membership and line numbers. */
  lemma FileReadsBack(f: string, ls: seq<R.Source>)
    requires R.AllGood(ls) && IsTextOf(f, R.Raws(ls)) && Storable(R.Raws(ls)) && Clear(R.Raws(ls))
    requires R.Headings(ls) <= MAX_GROUPS
    ensures Entries(FileLines(f), 0) == R.Meaning(ls, 0, 1) <==> R.AllFit(ls)
    ensures |FileLines(f)| == |R.Meaning(ls, 0, 1)|
  {
    WrittenLines(f, R.Raws(ls));
    R.TableReadsBack(ls, 0, 1);
    R.LinesMatch(ls, 0, 1);
  }

  /** What looking up an option gives for a table, by the entries kept of it: nothing without a heading in
      front or over 3000 lines, an error over 255 groups or with duplicates, else lookup in the nested map. */
  ghost function TableValue(ls: seq<R.Source>, group: string, item: string): (int, string) {
    var es := R.Kept(ls, 0, 1);
    if |R.Raws(ls)| > MAX_LINES || es == [] || es[0].flag != GROUP then (-1, "")
    else if R.Headings(ls) > MAX_GROUPS || !T.NoDuplicates(es) then (-2, "")
    else T.NestedLookup(T.Nested(es), group, item)
  }

  /** ConfigValue in terms of the counted lines. */
  lemma ValueOfLines(f: string, group: string, item: string)
    ensures var ls := FileLines(f);
            ConfigValue(Some(f), group, item) ==
              (if MAX_LINES < Newlines(Readable(f)) + 1 || ls == [] || !IsGroup(ls[0].text) then (-1, "")
               else if GroupCount(ls) > MAX_GROUPS || !T.NoDuplicates(Entries(ls, 0)) then (-2, "")
               else T.NestedLookup(T.Nested(Entries(ls, 0)), group, item))
  {
  }

  lemma FileLooksUp(f: string, ls: seq<R.Source>, group: string, item: string)
    requires R.AllGood(ls) && IsTextOf(f, R.Raws(ls)) && Storable(R.Raws(ls)) && Clear(R.Raws(ls))
    ensures ConfigValue(Some(f), group, item) == TableValue(ls, group, item)
  {
    ValueOfLines(f, group, item);
    WrittenLines(f, R.Raws(ls));
    RowsCount(Readable(f), "");
    R.LinesMatch(ls, 0, 1);
    R.KeptIsMeant(ls, 0, 1);
    if R.Headings(ls) <= MAX_GROUPS {
      R.TableLoads(ls, 0, 1);
    }
  }

  /** From the bytes of a file that a table was written to, to the option. */
  method LookUpWritten(f: string, group: string, item: string, ghost ls: seq<R.Source>) returns (rc: int, opt: string)
    requires R.AllGood(ls) && IsTextOf(f, R.Raws(ls)) && Storable(R.Raws(ls)) && Clear(R.Raws(ls))
    ensures (rc, opt) == TableValue(ls, group, item)
  {
    WrittenLines(f, R.Raws(ls));
    ApartFits(f);
    FileLooksUp(f, ls, group, item);
    rc, opt := ConfigGetValue(Some(f), group, item);
  }

  // ---------------------------------------------------------------- a line that takes the next one

  /** The option of an item that fills its row is followed by what stands in front of the next comment sign or
      terminator. */
  lemma OptionTakes(name: string, sep: string, opt: string, u: string)
    requires R.Good(R.Setting(name, sep, opt, "")) && opt != ""
    ensures var t, w := CutText(name + sep + opt + u), Front(u);
            ItemName(t) == name && ItemOpt(t) == opt + w[..SolidLength(w, |w|)]
  {
    var w := Front(u);
    var x := opt + w[..SolidLength(w, |w|)];
    R.SettingBody(name, sep, opt);
    FullTakes(name + sep + opt, u);
    assert name + sep + opt + w[..SolidLength(w, |w|)] == name + sep + x;
    R.SettingBody(name, sep, x);
  }

  /** A table of a heading and two items, the first of which has `opt` for its option. */
  function Sample(opt: string): seq<R.Source> {
    [R.Heading("", "G", ""), R.Setting("aaaa", " ", opt, ""), R.Setting("b", " ", "2", "")]
  }

  lemma SampleRaws(opt: string)
    ensures R.Raws(Sample(opt)) == ["*G", "aaaa " + opt, "b 2"]
  {
    var ls := Sample(opt);
    assert ls[1..] == [ls[1], ls[2]] && [ls[1], ls[2]][1..] == [ls[2]] && [ls[2]][1..] == [];
    assert R.Raw(ls[0]) == "*G" && R.Raw(ls[1]) == "aaaa " + opt && R.Raw(ls[2]) == "b 2";
    assert R.Raws([ls[2]]) == ["b 2"] + R.Raws([]);
    assert R.Raws([ls[1], ls[2]]) == ["aaaa " + opt, "b 2"];
  }

  lemma SampleGood(opt: string)
    requires opt != "" && R.IsOption(opt)
    ensures R.AllGood(Sample(opt)) && R.AllFit(Sample(opt)) && R.Headings(Sample(opt)) == 1
  {
    var ls := Sample(opt);
    assert ls[1..] == [ls[1], ls[2]] && [ls[1], ls[2]][1..] == [ls[2]] && [ls[2]][1..] == [];
    assert R.AllGood([ls[2]]) && R.AllFit([ls[2]]);
    assert R.AllGood([ls[1], ls[2]]) && R.AllFit([ls[1], ls[2]]);
    assert R.Headings([ls[2]]) == 0 && R.Headings([ls[1], ls[2]]) == 0;
  }

  /** A full row in front of a short one that ends solid: cutting the text of both changes neither. */
  lemma NextKept(r: string, n: string)
    requires Full(r) && n != "" && |n| < 256 && '#' !in n && !IsBlank(n[|n| - 1])
    ensures CutText(r + n) == r + n && CutRows([r, n]) == [r, n]
  {
    var t := r + n;
    HashAtIs(t, |t|);
    assert t[..|t|] == t && t[|t| - 1] == n[|n| - 1];
    SolidLengthIs(t, |t|, |t|);
    assert [r, n][1..] == [n] && RunOn([r, n]) == t;
    assert EndRows([r, n], |t|) == [r] + EndRows([n], |n|) == [r, n];
  }

  lemma OneLine(n: string, num: int)
    requires |n| < 256 && !IsComment(n)
    ensures RowLines([n], num) == CountedLines([n], num) == [Line(num, CutText(n))]
  {
    assert [n][1..] == [];
    assert AreRows([n]) && CountedLines([n], num) == [Line(num, CutText(n))] + CountedLines([], num + 1);
    OwnRow([n]);
  }

  /** Three rows of which the second takes the third. */
  lemma ThreeLines(h: string, r: string, n: string)
    requires |h| < 256 && !IsComment(h) && Full(r) && !IsComment(r + n)
    requires n != "" && |n| < 256 && '#' !in n && !IsBlank(n[|n| - 1]) && !IsComment(n)
    ensures RowLines([h, r, n], 1) == CountedLines([h, r + n, n], 1)
         == [Line(1, CutText(h)), Line(2, r + n), Line(3, CutText(n))]
  {
    var later := [Line(2, r + n), Line(3, CutText(n))];
    OneLine(n, 3);
    NextKept(r, n);
    assert [r, n][1..] == [n] && RunOn([r, n]) == r + n && AreRows([n]) && AreRows([r, n]);
    assert RowLines([r, n], 2) == later;
    assert [r + n, n][1..] == [n];
    assert CountedLines([r + n, n], 2) == later;
    assert [h, r, n][1..] == [r, n] && [h, r + n, n][1..] == [r + n, n];
    OwnRow([h, r, n]);
  }

  lemma SampleMeans(opt: string)
    ensures var es := R.Meaning(Sample(opt), 0, 1);
            |es| == 3 && es[1].opt == opt
  {
    var ls := Sample(opt);
    assert ls[1..] == [ls[1], ls[2]] && [ls[1], ls[2]][1..] == [ls[2]] && [ls[2]][1..] == [];
    assert |R.Meaning([ls[2]], 1, 3)| == 1;
    assert |R.Meaning([ls[1], ls[2]], 1, 2)| == 2 && R.Meaning([ls[1], ls[2]], 1, 2)[0].opt == opt;
  }

  /** What the rows of the table read as is the table with the longer option. */
  lemma SampleText(v: string)
    requires |v| == 251 && R.Solid(v)
    ensures R.IsOption(v) && R.IsOption(v + "b 2")
    ensures var t := "aaaa " + (v + "b 2");
            && RowLines(R.Raws(Sample(v)), 1) == CountedLines(R.Raws(Sample(v + "b 2")), 1)
            && RowLines(R.Raws(Sample(v)), 1) == [Line(1, CutText("*G")), Line(2, t), Line(3, CutText("b 2"))]
            && !IsGroup(t) && |ItemName(t)| == 4 && |ItemOpt(t)| == 254
  {
    var r := "aaaa " + v;
    SampleRaws(v);
    SampleRaws(v + "b 2");
    assert "aaaa " + (v + "b 2") == r + "b 2" && "aaaa" + " " == "aaaa ";
    R.SettingBody("aaaa", " ", v + "b 2");
    ThreeLines("*G", r, "b 2");
  }

  lemma ThreeFit(a: Line, b: Line, c: Line)
    requires FieldsFit(a.text) && FieldsFit(b.text) && FieldsFit(c.text)
    ensures Fits([a, b, c])
  {
    assert [a, b, c][1..] == [b, c] && [b, c][1..] == [c] && [c][1..] == [];
    assert Fits([c]) && Fits([b, c]);
  }

  lemma SampleStored(lines: seq<string>, v: string)
    requires |v| == 251 && R.Solid(v) && IsCString(v) && '\n' !in v && '\r' !in v && EOF_BYTE !in v
    requires lines == ["*G", "aaaa " + v, "b 2"]
    ensures Storable(lines) && IsTextOf(Lines(lines), lines) && HeldRows(lines) == lines
  {
    LinesAreText(lines);
    HeldAt(lines);
  }

  lemma SampleFits(v: string)
    requires |v| == 251 && R.Solid(v)
    ensures Fits(RowLines(R.Raws(Sample(v)), 1))
  {
    SampleText(v);
    HeldFit("*G");
    HeldFit("b 2");
    ThreeFit(Line(1, CutText("*G")), Line(2, "aaaa " + (v + "b 2")), Line(3, CutText("b 2")));
  }

  lemma SampleLoads(v: string)
    requires |v| == 251 && R.Solid(v)
    ensures Entries(RowLines(R.Raws(Sample(v)), 1), 0) == R.Meaning(Sample(v + "b 2"), 0, 1)
  {
    SampleText(v);
    assert v + "b 2" != "";
    SampleGood(v + "b 2");
    R.TableReadsBack(Sample(v + "b 2"), 0, 1);
  }

  /** With an option that makes the first item's line 256 characters long the file loads as another table, in
      which the next line stands behind that option. */
  lemma NextLineTaken(v: string)
    requires |v| == 251 && R.Solid(v) && IsCString(v) && '\n' !in v && '\r' !in v && EOF_BYTE !in v
    ensures R.AllGood(Sample(v)) && R.AllFit(Sample(v)) && Storable(R.Raws(Sample(v)))
    ensures var f := Lines(R.Raws(Sample(v)));
            && IsTextOf(f, R.Raws(Sample(v))) && Fits(FileLines(f))
            && Entries(FileLines(f), 0) == R.Meaning(Sample(v + "b 2"), 0, 1) != R.Meaning(Sample(v), 0, 1)
  {
    SampleGood(v);
    SampleRaws(v);
    SampleStored(R.Raws(Sample(v)), v);
    WrittenLines(Lines(R.Raws(Sample(v))), R.Raws(Sample(v)));
    LinesOfFile(Lines(R.Raws(Sample(v))));
    SampleFits(v);
    SampleLoads(v);
    SampleMeans(v);
    SampleMeans(v + "b 2");
  }
}
