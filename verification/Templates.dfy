/** Placeholder templates, expanded in place: the `@NAME#` placeholders of fcom_ReportHeaderFilter in
    lib_src/com/dap_report.c and the `{NAME}` placeholders of fdb_NameFilter in
    lib_src/db/dap_checkdb.c.

    A template is a C string in a larger buffer: the scan for a closing mark reads on past the end of
    the text when it finds none, so the functions below look at the whole buffer `b`, of which the first
    `n` characters are the text. */
module Templates {
  import opened CStrings
  import opened CBuffers

  /** Where the scan for a closing mark stops: at the mark, or after `limit` characters. */
  function SkipTo(b: string, i: nat, close: char, limit: nat): (j: nat)
    requires i + limit <= |b|
    ensures i <= j <= i + limit
    decreases limit
  {
    if limit == 0 || b[i] == close then i else SkipTo(b, i + 1, close, limit - 1)
  }

  // ---------------------------------------------------------------- templates as pieces

  datatype Piece = Lit(text: string) | Hole(name: string)

  /** The marks of one kind of template and how far the scan for the closing mark looks. */
  datatype Marks = Marks(open: char, close: char, limit: nat)

  const HEADER := Marks('@', '#', 20)
  const NAMES := Marks('{', '}', 40)

  function Flatten(ps: seq<Piece>, m: Marks): string {
    if ps == [] then ""
    else (match ps[0] case Lit(text) => text case Hole(name) => [m.open] + name + [m.close]) + Flatten(ps[1..], m)
  }

  /** Literals without the opening mark, names without the closing mark and within the scan. */
  ghost predicate Proper(p: Piece, m: Marks) {
    match p
    case Lit(text) => m.open !in text
    case Hole(name) => m.close !in name && |name| + 2 <= m.limit
  }

  ghost predicate AllProper(ps: seq<Piece>, m: Marks) {
    ps != [] ==> Proper(ps[0], m) && AllProper(ps[1..], m)
  }

  /** Every placeholder that the scan meets in b[i..n] is closed within its reach and inside the text. */
  ghost predicate Closed(b: string, n: nat, i: nat, m: Marks)
    requires n + m.limit <= |b|
    decreases n - i
  {
    i >= n
    || (b[i] != m.open && Closed(b, n, i + 1, m))
    || (b[i] == m.open
        && var j := SkipTo(b, i, m.close, m.limit);
           j < i + m.limit && j < n && j > i && Closed(b, n, j + 1, m))
  }

  lemma {:induction false} SkipToFinds(b: string, i: nat, m: Marks, limit: nat, j: nat)
    requires i <= j < i + limit <= |b| && b[j] == m.close && forall k :: i <= k < j ==> b[k] != m.close
    ensures SkipTo(b, i, m.close, limit) == j
    decreases limit
  {
    if i < j {
      SkipToFinds(b, i + 1, m, limit - 1, j);
    }
  }

  lemma {:induction false} SkipToPasses(b: string, i: nat, m: Marks, limit: nat)
    requires i + limit <= |b|
    ensures var j := SkipTo(b, i, m.close, limit);
            (j < i + limit ==> b[j] == m.close) && forall k :: i <= k < j ==> b[k] != m.close
    decreases limit
  {
    if limit > 0 && b[i] != m.close {
      SkipToPasses(b, i + 1, m, limit - 1);
    }
  }

  /** Every closed template is made of proper pieces. */
  lemma {:induction false} ClosedHasPieces(b: string, n: nat, i: nat, m: Marks) returns (ps: seq<Piece>)
    requires n + m.limit <= |b| && i <= n && m.open != m.close && Closed(b, n, i, m)
    ensures AllProper(ps, m) && Flatten(ps, m) == b[i..n]
    decreases n - i
  {
    if i == n {
      ps := [];
    } else if b[i] != m.open {
      var rest := ClosedHasPieces(b, n, i + 1, m);
      ps := [Lit([b[i]])] + rest;
      assert ps[1..] == rest;
    } else {
      var j := SkipTo(b, i, m.close, m.limit);
      SkipToPasses(b, i, m, m.limit);
      var rest := ClosedHasPieces(b, n, j + 1, m);
      ps := [Hole(b[i + 1..j])] + rest;
      assert ps[1..] == rest;
      assert b[i..n] == [m.open] + b[i + 1..j] + [m.close] + b[j + 1..n];
    }
  }

  // ---------------------------------------------------------------- fcom_ReportHeaderFilter

  /** The value inserted at placeholder number `k`; surplus placeholders are erased. */
  function Nth(vals: seq<string>, k: nat): string {
    if k < |vals| then vals[k] else ""
  }

  /** The expansion of b[i..n], the next placeholder being number `k`. */
  function Expand(b: string, n: nat, i: nat, vals: seq<string>, k: nat): string
    requires n + HEADER.limit <= |b|
    decreases n - i
  {
    if i >= n then ""
    else if b[i] != '@' then [b[i]] + Expand(b, n, i + 1, vals, k)
    else Nth(vals, k) + Expand(b, n, SkipTo(b, i, '#', 20) + 1, vals, k + 1)
  }

  /** The literal chunks with the values at the placeholders. */
  function Render(ps: seq<Piece>, vals: seq<string>, k: nat): string {
    if ps == [] then ""
    else match ps[0]
      case Lit(text) => text + Render(ps[1..], vals, k)
      case Hole(_) => Nth(vals, k) + Render(ps[1..], vals, k + 1)
  }

  /** Literal text is copied. */
  lemma {:induction false} ExpandLiteral(b: string, n: nat, i: nat, j: nat, vals: seq<string>, k: nat)
    requires n + HEADER.limit <= |b| && i <= j <= n && '@' !in b[i..j]
    ensures Expand(b, n, i, vals, k) == b[i..j] + Expand(b, n, j, vals, k)
    decreases j - i
  {
    if i < j {
      assert b[i] == b[i..j][0] && b[i + 1..j] == b[i..j][1..];
      ExpandLiteral(b, n, i + 1, j, vals, k);
    }
  }

  /** Expansion of any text made of proper pieces interleaves the literals with the values, in order;
      inserted text is never scanned again. */
  lemma {:induction false} ExpandRenders(ps: seq<Piece>, b: string, n: nat, i: nat, vals: seq<string>, k: nat)
    requires AllProper(ps, HEADER) && n + HEADER.limit <= |b| && i <= n && b[i..n] == Flatten(ps, HEADER)
    ensures Expand(b, n, i, vals, k) == Render(ps, vals, k)
    decreases |ps|
  {
    if ps != [] {
      var rest := ps[1..];
      match ps[0]
      case Lit(text) =>
        var next := i + |text|;
        ExpandText(b, n, i, text, Flatten(rest, HEADER), vals, k);
        RenderFirst(ps, vals, k);
        ExpandRenders(rest, b, n, next, vals, k);
      case Hole(name) =>
        var next := i + |name| + 2;
        ExpandHole(b, n, i, name, Flatten(rest, HEADER), vals, k);
        RenderFirst(ps, vals, k);
        ExpandRenders(rest, b, n, next, vals, k + 1);
    }
  }

  lemma RenderFirst(ps: seq<Piece>, vals: seq<string>, k: nat)
    requires ps != []
    ensures Render(ps, vals, k) == if ps[0].Lit? then ps[0].text + Render(ps[1..], vals, k)
                                   else Nth(vals, k) + Render(ps[1..], vals, k + 1)
  {
  }

  lemma ExpandText(b: string, n: nat, i: nat, text: string, rest: string, vals: seq<string>, k: nat)
    requires n + HEADER.limit <= |b| && i <= n && Proper(Lit(text), HEADER) && b[i..n] == text + rest
    ensures i + |text| <= n && b[i + |text|..n] == rest
    ensures Expand(b, n, i, vals, k) == text + Expand(b, n, i + |text|, vals, k)
  {
    assert b[i..i + |text|] == b[i..n][..|text|] && b[i + |text|..n] == b[i..n][|text|..];
    ExpandLiteral(b, n, i, i + |text|, vals, k);
  }

  lemma ExpandHole(b: string, n: nat, i: nat, name: string, rest: string, vals: seq<string>, k: nat)
    requires n + HEADER.limit <= |b| && i <= n && Proper(Hole(name), HEADER) && b[i..n] == ['@'] + name + ['#'] + rest
    ensures i + |name| + 2 <= n && b[i + |name| + 2..n] == rest
    ensures Expand(b, n, i, vals, k) == Nth(vals, k) + Expand(b, n, i + |name| + 2, vals, k + 1)
  {
    HoleAt(b, n, i, name, rest, HEADER);
  }

  lemma HoleAt(b: string, n: nat, i: nat, name: string, rest: string, m: Marks)
    requires n + m.limit <= |b| && i <= n && Proper(Hole(name), m) && m.open != m.close
    requires b[i..n] == [m.open] + name + [m.close] + rest
    ensures var j := i + |name| + 1;
            b[i] == m.open && SkipTo(b, i, m.close, m.limit) == j < n && b[j + 1..n] == rest
  {
    var j := i + |name| + 1;
    var t := b[i..n];
    assert forall k :: 0 <= k < |t| ==> b[i + k] == t[k];
    assert t[0] == m.open && t[|name| + 1] == m.close && forall k :: 0 <= k < |name| ==> t[k + 1] == name[k];
    assert forall k :: i < k < j ==> b[k] == name[k - i - 1];
    SkipToFinds(b, i, m, m.limit, j);
    assert b[j + 1..n] == t[|name| + 2..];
  }

  /** For every template whose placeholders all close in reach, the expansion is the literal chunks
      interleaved with the values. */
  lemma HeaderExpansion(b: string, n: nat, vals: seq<string>) returns (ps: seq<Piece>)
    requires n + HEADER.limit <= |b| && Closed(b, n, 0, HEADER)
    ensures AllProper(ps, HEADER) && Flatten(ps, HEADER) == b[..n]
    ensures Expand(b, n, 0, vals, 0) == Render(ps, vals, 0)
  {
    ps := ClosedHasPieces(b, n, 0, HEADER);
    assert b[0..n] == b[..n];
    ExpandRenders(ps, b, n, 0, vals, 0);
  }

  // ---------------------------------------------------------------- fdb_NameFilter

  function Lower(c: char): char {
    if 'A' <= c <= 'Z' then (c as int + 32) as char else c
  }

  const CREATE := "create table "

  /** strncasecmp(out, "CREATE TABLE ", 13) == 0. */
  predicate StartsCreate(out: string) {
    |out| >= |CREATE| && forall k :: 0 <= k < |CREATE| ==> Lower(out[k]) == CREATE[k]
  }

  /** fcom_StrTokenR: token number `cnt`, when there is one. */
  function StrTokenR(s: string, mark: string, cnt: nat): Option<string> {
    if cnt < |Tokens(s, mark)| then Some(Tokens(s, mark)[cnt]) else None
  }

  /** The part after the database name; empty when the table name has one part only. */
  function IndexName(table: string): string {
    match StrTokenR(table, ".", 1)
    case Some(t) => t
    case None => ""
  }

  /** The text for a placeholder after the output `out`, and whether the index name is still to come. */
  function NameValue(out: string, first: bool, table: string): (string, bool) {
    if StartsCreate(out) then (table, first)
    else if first then (IndexName(table), false)
    else (table, false)
  }

  function ExpandNames(b: string, n: nat, i: nat, out: string, first: bool, table: string): string
    requires n + NAMES.limit <= |b|
    decreases n - i
  {
    if i >= n then out
    else if b[i] != '{' then ExpandNames(b, n, i + 1, out + [b[i]], first, table)
    else
      var (v, still) := NameValue(out, first, table);
      ExpandNames(b, n, SkipTo(b, i, '}', 40) + 1, out + v, still, table)
  }

  function RenderNames(ps: seq<Piece>, out: string, first: bool, table: string): string
    decreases |ps|
  {
    if ps == [] then out
    else match ps[0]
      case Lit(text) => RenderNames(ps[1..], out + text, first, table)
      case Hole(_) =>
        var (v, still) := NameValue(out, first, table);
        RenderNames(ps[1..], out + v, still, table)
  }

  lemma {:induction false} NamesLiteral(b: string, n: nat, i: nat, j: nat, out: string, first: bool, table: string)
    requires n + NAMES.limit <= |b| && i <= j <= n && '{' !in b[i..j]
    ensures ExpandNames(b, n, i, out, first, table) == ExpandNames(b, n, j, out + b[i..j], first, table)
    decreases j - i
  {
    if i < j {
      assert b[i] == b[i..j][0] && b[i + 1..j] == b[i..j][1..];
      NamesLiteral(b, n, i + 1, j, out + [b[i]], first, table);
      assert out + [b[i]] + b[i + 1..j] == out + b[i..j];
    } else {
      assert out + b[i..j] == out;
    }
  }

  /** Name expansion of any text made of proper pieces is the fold over the pieces. */
  lemma {:induction false} NamesRender(ps: seq<Piece>, b: string, n: nat, i: nat, out: string, first: bool, table: string)
    requires AllProper(ps, NAMES) && n + NAMES.limit <= |b| && i <= n && b[i..n] == Flatten(ps, NAMES)
    ensures ExpandNames(b, n, i, out, first, table) == RenderNames(ps, out, first, table)
    decreases |ps|
  {
    if ps != [] {
      var rest := ps[1..];
      match ps[0]
      case Lit(text) =>
        var next, now := i + |text|, out + text;
        NamesText(b, n, i, text, Flatten(rest, NAMES), out, first, table);
        NamesRender(rest, b, n, next, now, first, table);
      case Hole(name) =>
        var next := i + |name| + 2;
        var (v, still) := NameValue(out, first, table);
        HoleAt(b, n, i, name, Flatten(rest, NAMES), NAMES);
        NamesRender(rest, b, n, next, out + v, still, table);
    }
  }

  lemma NamesText(b: string, n: nat, i: nat, text: string, rest: string, out: string, first: bool, table: string)
    requires n + NAMES.limit <= |b| && i <= n && Proper(Lit(text), NAMES) && b[i..n] == text + rest
    ensures i + |text| <= n && b[i + |text|..n] == rest
    ensures ExpandNames(b, n, i, out, first, table) == ExpandNames(b, n, i + |text|, out + text, first, table)
  {
    assert b[i..i + |text|] == b[i..n][..|text|] && b[i + |text|..n] == b[i..n][|text|..];
    NamesLiteral(b, n, i, i + |text|, out, first, table);
  }

  /** The literal chunks with `head` at the first placeholder and `table` at every later one. */
  function Substituted(ps: seq<Piece>, head: string, table: string): string {
    if ps == [] then ""
    else match ps[0]
      case Lit(text) => text + Substituted(ps[1..], head, table)
      case Hole(_) => head + Substituted(ps[1..], table, table)
  }

  /** The literal text in front of the first placeholder. */
  function Opening(ps: seq<Piece>): string {
    if ps == [] || ps[0].Hole? then "" else ps[0].text + Opening(ps[1..])
  }

  /** A statement that starts with CREATE TABLE does so whatever follows. */
  lemma CreateStays(out: string, more: string)
    requires StartsCreate(out)
    ensures StartsCreate(out + more)
  {
    assert forall k :: 0 <= k < |CREATE| ==> (out + more)[k] == out[k];
  }

  /** After CREATE TABLE, and once the index name is out, every placeholder gets the full name. */
  lemma {:induction false} NamesSettled(ps: seq<Piece>, out: string, first: bool, table: string)
    requires StartsCreate(out) || !first
    ensures RenderNames(ps, out, first, table) == out + Substituted(ps, table, table)
    decreases |ps|
  {
    if ps != [] {
      var rest := ps[1..];
      var v := if ps[0].Lit? then ps[0].text else table;
      if StartsCreate(out) {
        CreateStays(out, v);
      }
      NamesSettled(rest, out + v, first, table);
      Assoc(out, v, Substituted(rest, table, table));
    } else {
      assert out + "" == out;
    }
  }

  /** The text in front of the first placeholder decides its name: the full name when the output then starts
      with CREATE TABLE, else the index name. Every later placeholder gets the full name. */
  lemma {:induction false} NamesFixed(ps: seq<Piece>, out: string, first: bool, table: string)
    ensures RenderNames(ps, out, first, table)
         == out + Substituted(ps, if first && !StartsCreate(out + Opening(ps)) then IndexName(table) else table, table)
    decreases |ps|
  {
    if StartsCreate(out) || !first {
      NamesSettled(ps, out, first, table);
      if StartsCreate(out) {
        CreateStays(out, Opening(ps));
      }
    } else if ps == [] {
      assert out + "" == out;
    } else if ps[0].Lit? {
      var text, rest := ps[0].text, ps[1..];
      NamesFixed(rest, out + text, first, table);
      Assoc(out, text, Opening(rest));
      Assoc(out, text, Substituted(rest, if StartsCreate(out + text + Opening(rest)) then table else IndexName(table), table));
    } else {
      var rest, head := ps[1..], IndexName(table);
      assert out + Opening(ps) == out;
      NamesSettled(rest, out + head, false, table);
      Assoc(out, head, Substituted(rest, table, table));
    }
  }

  /** For every closed statement the placeholders get the names that its text before the first placeholder
      calls for. */
  lemma StatementExpansion(b: string, n: nat, table: string) returns (ps: seq<Piece>)
    requires n + NAMES.limit <= |b| && Closed(b, n, 0, NAMES)
    ensures AllProper(ps, NAMES) && Flatten(ps, NAMES) == b[..n]
    ensures var c := |Opening(ps)|;
            c <= n && Opening(ps) == b[..c] && '{' !in b[..c] && (c < n ==> b[c] == '{')
    ensures ExpandNames(b, n, 0, "", true, table)
         == Substituted(ps, if StartsCreate(Opening(ps)) then table else IndexName(table), table)
  {
    ps := ClosedHasPieces(b, n, 0, NAMES);
    assert b[0..n] == b[..n];
    NamesRender(ps, b, n, 0, "", true, table);
    NamesFixed(ps, "", true, table);
    assert "" + Opening(ps) == Opening(ps);
    OpeningEnds(ps);
    assert b[..n][..|Opening(ps)|] == b[..|Opening(ps)|];
  }

  /** The opening runs up to the first opening mark. */
  lemma {:induction false} OpeningEnds(ps: seq<Piece>)
    requires AllProper(ps, NAMES)
    ensures var t, c := Flatten(ps, NAMES), |Opening(ps)|;
            c <= |t| && t[..c] == Opening(ps) && '{' !in Opening(ps) && (c < |t| ==> t[c] == '{')
  {
    if ps != [] && ps[0].Lit? {
      OpeningEnds(ps[1..]);
      assert Flatten(ps, NAMES) == ps[0].text + Flatten(ps[1..], NAMES);
    }
  }

  // ---------------------------------------------------------------- the loops of the source

  /** The scan for the closing mark. */
  method Scan(buf: array<char>, i: nat, close: char, limit: nat) returns (j: nat)
    requires i + limit <= buf.Length
    ensures j == SkipTo(buf[..], i, close, limit)
  {
    j := i;
    for k := 0 to limit
      invariant j == i + k && SkipTo(buf[..], i, close, limit) == SkipTo(buf[..], j, close, limit - k)
    {
      if buf[j] == close {
        break;
      }
      j := j + 1;
    }
  }

  /** The value for the next placeholder: the chart first, then the utilities, then nothing. */
  method InsertValue(tmp: array<char>, sChart: string, sUtil: string, workFlag: nat, ghost out: string, ghost k: nat)
    returns (flag: nat)
    requires Zeroed(tmp[..], out) && IsCString(sChart) && IsCString(sUtil)
    requires |out| + |Nth([sChart, sUtil], k)| < tmp.Length && workFlag == Min(k, 2) + 1
    modifies tmp
    ensures Zeroed(tmp[..], out + Nth([sChart, sUtil], k)) && flag == Min(k + 1, 2) + 1
  {
    flag := workFlag;
    if workFlag == 1 {
      StrCat(tmp, sChart, out);
      flag := flag + 1;
    } else if workFlag == 2 {
      StrCat(tmp, sUtil, out);
      flag := flag + 1;
    } else {
      assert out + "" == out;
    }
  }

  /** The main loop of fcom_ReportHeaderFilter. */
  method ExpandInto(jsbuff: array<char>, slen: nat, sChart: string, sUtil: string, tmp: array<char>) returns (j: nat)
    requires slen + HEADER.limit <= jsbuff.Length && jsbuff != tmp && Zeroed(tmp[..], "")
    requires IsCString(jsbuff[..slen]) && IsCString(sChart) && IsCString(sUtil)
    requires |Expand(jsbuff[..], slen, 0, [sChart, sUtil], 0)| < tmp.Length
    modifies tmp
    ensures Zeroed(tmp[..], Expand(jsbuff[..], slen, 0, [sChart, sUtil], 0))
    ensures j == |Expand(jsbuff[..], slen, 0, [sChart, sUtil], 0)|
  {
    ghost var b, vals, k, out := jsbuff[..], [sChart, sUtil], 0, "";
    ghost var goal := Expand(b, slen, 0, vals, 0);
    var i, workFlag := 0, 1;
    j := 0;
    while i < slen
      modifies tmp
      invariant Zeroed(tmp[..], out) && j == |out| && workFlag == Min(k, 2) + 1
      invariant goal == out + Expand(b, slen, i, vals, k)
      decreases slen - i
    {
      if jsbuff[i] != '@' {
        assert jsbuff[i] == jsbuff[..slen][i];
        Assoc(out, [b[i]], Expand(b, slen, i + 1, vals, k));
        PutChar(tmp, j, jsbuff[i], out);
        j := j + 1;
        out := out + [b[i]];
      } else {
        Assoc(out, Nth(vals, k), Expand(b, slen, SkipTo(b, i, '#', 20) + 1, vals, k + 1));
        workFlag := InsertValue(tmp, sChart, sUtil, workFlag, out, k);
        out := out + Nth(vals, k);
        j := StrLen(tmp, out);
        i := Scan(jsbuff, i, '#', 20);
        k := k + 1;
      }
      i := i + 1;
    }
    assert goal == out;
  }

  /** fcom_ReportHeaderFilter: expands the text `t` that `jsbuff` holds, in place. */
  method ReportHeaderFilter(jsbuff: array<char>, sChart: string, sUtil: string, totSize: nat, gotMemory: bool, ghost t: string)
    returns (rc: int)
    requires HoldsC(jsbuff[..], t) && |t| + HEADER.limit <= jsbuff.Length && IsCString(sChart) && IsCString(sUtil)
    requires |Expand(jsbuff[..], |t|, 0, [sChart, sUtil], 0)| <= totSize
    requires |Expand(jsbuff[..], |t|, 0, [sChart, sUtil], 0)| < jsbuff.Length
    modifies jsbuff
    ensures !gotMemory ==> rc == -1 && jsbuff[..] == old(jsbuff[..])
    ensures gotMemory ==> HoldsC(jsbuff[..], Expand(old(jsbuff[..]), |t|, 0, [sChart, sUtil], 0))
    ensures gotMemory ==> rc == |Expand(old(jsbuff[..]), |t|, 0, [sChart, sUtil], 0)|
  {
    var slen := StrLen(jsbuff, t);
    if !gotMemory {
      return -1;
    }
    ghost var goal := Expand(jsbuff[..], slen, 0, [sChart, sUtil], 0);
    var tmp := new char[totSize + 1](_ => '\0');
    var j := ExpandInto(jsbuff, slen, sChart, sUtil, tmp);
    StrCpy(jsbuff, 0, tmp[..j]);
    rc := StrLen(jsbuff, goal);
  }

  /** The main loop of fdb_NameFilter. */
  method ExpandNamesInto(sqlbuff: array<char>, slen: nat, table: string, tmp: array<char>) returns (j: nat)
    requires slen + NAMES.limit <= sqlbuff.Length && sqlbuff != tmp && Zeroed(tmp[..], "")
    requires IsCString(sqlbuff[..slen]) && IsCString(table)
    requires |ExpandNames(sqlbuff[..], slen, 0, "", true, table)| < tmp.Length
    modifies tmp
    ensures Zeroed(tmp[..], ExpandNames(sqlbuff[..], slen, 0, "", true, table))
    ensures j == |ExpandNames(sqlbuff[..], slen, 0, "", true, table)|
  {
    ghost var b := sqlbuff[..];
    ghost var goal := ExpandNames(b, slen, 0, "", true, table);
    var i, firstWork := 0, true;
    ghost var out := "";
    j := 0;
    while i < slen
      modifies tmp
      invariant Zeroed(tmp[..], out) && j == |out|
      invariant goal == ExpandNames(b, slen, i, out, firstWork, table)
      decreases slen - i
    {
      NamesGrow(b, slen, i, out, firstWork, table);
      if sqlbuff[i] != '{' {
        assert sqlbuff[i] == sqlbuff[..slen][i];
        NamesGrow(b, slen, i + 1, out + [b[i]], firstWork, table);
        PutChar(tmp, j, sqlbuff[i], out);
        j := j + 1;
        out := out + [sqlbuff[i]];
      } else {
        var piece := table;
        if !StartsCreate(tmp[..j]) && firstWork {
          piece := IndexName(table);
          firstWork := false;
        }
        IndexNameClean(table);
        NamesGrow(b, slen, SkipTo(b, i, '}', 40) + 1, out + piece, firstWork, table);
        StrCat(tmp, piece, out);
        out := out + piece;
        j := StrLen(tmp, out);
        i := Scan(sqlbuff, i, '}', 40);
      }
      i := i + 1;
    }
  }

  lemma {:induction false} NamesGrow(b: string, n: nat, i: nat, out: string, first: bool, table: string)
    requires n + NAMES.limit <= |b|
    ensures |ExpandNames(b, n, i, out, first, table)| >= |out|
    decreases n - i
  {
    if i < n {
      if b[i] != '{' {
        NamesGrow(b, n, i + 1, out + [b[i]], first, table);
      } else {
        var (v, still) := NameValue(out, first, table);
        NamesGrow(b, n, SkipTo(b, i, '}', 40) + 1, out + v, still, table);
      }
    }
  }

  lemma {:induction false} TokensClean(s: string, mark: string)
    requires IsCString(s)
    ensures forall k :: 0 <= k < |Tokens(s, mark)| ==> IsCString(Tokens(s, mark)[k])
    decreases |s|
  {
    if s != "" {
      var n := if s[0] in mark then 1 else WordLength(s, mark);
      assert IsCString(s[n..]) && IsCString(s[..n]);
      TokensClean(s[n..], mark);
    }
  }

  lemma IndexNameClean(table: string)
    requires IsCString(table)
    ensures IsCString(IndexName(table))
  {
    TokensClean(table, ".");
  }

  /** fdb_NameFilter: expands the statement `t` that `sqlbuff` holds, in place. Its buffers hold 5119
      characters of output, a table name of 127 and an index name of 49. */
  method NameFilter(sqlbuff: array<char>, table: string, ghost t: string)
    requires HoldsC(sqlbuff[..], t) && |t| + NAMES.limit <= sqlbuff.Length && IsCString(table)
    requires |table| < 128 && |IndexName(table)| < 50
    requires |ExpandNames(sqlbuff[..], |t|, 0, "", true, table)| < 5120
    requires |ExpandNames(sqlbuff[..], |t|, 0, "", true, table)| < sqlbuff.Length
    modifies sqlbuff
    ensures HoldsC(sqlbuff[..], ExpandNames(old(sqlbuff[..]), |t|, 0, "", true, table))
  {
    var slen := StrLen(sqlbuff, t);
    var tmp := new char[5120](_ => '\0');
    var j := ExpandNamesInto(sqlbuff, slen, table, tmp);
    StrCpy(sqlbuff, 0, tmp[..j]);
  }
}
