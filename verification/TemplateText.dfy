/** Placeholder templates by their characters: which text each piece of a report header in
    lib_src/com/dap_report.c and of a statement in lib_src/db/dap_checkdb.c expands to. */
module TemplateText {
  import opened CStrings
  import opened CBuffers
  import opened Templates

  /** A placeholder that is closed, or the characters that are skipped for one that is not. */
  predicate IsHole(p: string, m: Marks) {
    p != "" && p[0] == m.open
  }

  /** Literal text; a placeholder whose closing mark is among the first `limit` characters; or the opening mark
      with `limit` characters behind it, when there is none among the first `limit`. */
  predicate IsPiece(p: string, m: Marks) {
    if IsHole(p, m) then
      || (2 <= |p| <= m.limit && p[|p| - 1] == m.close && m.close !in p[..|p| - 1])
      || (|p| == m.limit + 1 && m.close !in p[..m.limit])
    else m.open !in p
  }

  predicate AllPieces(ps: seq<string>, m: Marks) {
    ps != [] ==> IsPiece(ps[0], m) && AllPieces(ps[1..], m)
  }

  lemma PieceAt(b: string, n: nat, i: nat, p: string, rest: string)
    requires i <= n <= |b| && b[i..n] == p + rest
    ensures i + |p| <= n && b[i..i + |p|] == p && b[i + |p|..n] == rest && forall k :: 0 <= k < |p| ==> b[i + k] == p[k]
  {
    assert b[i..i + |p|] == b[i..n][..|p|] && b[i + |p|..n] == b[i..n][|p|..];
    assert forall k :: 0 <= k < |p| ==> b[i..n][k] == p[k];
  }

  /** Where the scan for the closing mark of a placeholder ends. */
  lemma HoleEnds(b: string, n: nat, i: nat, p: string, rest: string, m: Marks)
    requires i <= n && n + m.limit <= |b| && b[i..n] == p + rest && IsHole(p, m) && IsPiece(p, m) && m.open != m.close
    ensures i + |p| <= n && b[i] == m.open && SkipTo(b, i, m.close, m.limit) + 1 == i + |p| && b[i + |p|..n] == rest
  {
    PieceAt(b, n, i, p, rest);
    assert b[i + 0] == p[0];
    var last := |p| - 1;
    forall k | i <= k < i + last
      ensures b[k] != m.close
    {
      assert b[i + (k - i)] == p[k - i] && p[k - i] in p[..last];
    }
    if |p| <= m.limit {
      assert b[i + last] == p[last];
      SkipToFinds(b, i, m, m.limit, i + last);
    } else {
      SkipToPasses(b, i, m, m.limit);
    }
  }

  // ---------------------------------------------------------------- report headers

  /** The texts of the pieces, the next placeholder being number `k`. */
  ghost predicate Filled(ps: seq<string>, ts: seq<string>, vals: seq<string>, k: nat) {
    |ts| == |ps| && (ps != [] ==>
      var hole := IsHole(ps[0], HEADER);
      ts[0] == (if hole then Nth(vals, k) else ps[0]) && Filled(ps[1..], ts[1..], vals, if hole then k + 1 else k))
  }

  lemma HeaderPiece(b: string, n: nat, i: nat, p: string, rest: string, vals: seq<string>, k: nat)
    requires n + HEADER.limit <= |b| && i <= n && b[i..n] == p + rest && IsPiece(p, HEADER)
    ensures i + |p| <= n && b[i + |p|..n] == rest
    ensures IsHole(p, HEADER) ==> Expand(b, n, i, vals, k) == Nth(vals, k) + Expand(b, n, i + |p|, vals, k + 1)
    ensures !IsHole(p, HEADER) ==> Expand(b, n, i, vals, k) == p + Expand(b, n, i + |p|, vals, k)
  {
    PieceAt(b, n, i, p, rest);
    if IsHole(p, HEADER) {
      HoleEnds(b, n, i, p, rest, HEADER);
    } else {
      ExpandLiteral(b, n, i, i + |p|, vals, k);
    }
  }

  lemma HeaderStep(b: string, n: nat, i: nat, ps: seq<string>, ts: seq<string>, vals: seq<string>, k: nat)
    requires n + HEADER.limit <= |b| && i <= n && b[i..n] == Concat(ps) && AllPieces(ps, HEADER) && ps != []
    requires Filled(ps, ts, vals, k)
    ensures var next := if IsHole(ps[0], HEADER) then k + 1 else k;
            && i + |ps[0]| <= n && b[i + |ps[0]|..n] == Concat(ps[1..]) && AllPieces(ps[1..], HEADER)
            && Filled(ps[1..], ts[1..], vals, next)
            && (Expand(b, n, i + |ps[0]|, vals, next) == Concat(ts[1..]) ==> Expand(b, n, i, vals, k) == Concat(ts))
  {
    HeaderPiece(b, n, i, ps[0], Concat(ps[1..]), vals, k);
  }

  lemma {:induction false} HeaderPieces(b: string, n: nat, i: nat, ps: seq<string>, ts: seq<string>, vals: seq<string>, k: nat)
    requires n + HEADER.limit <= |b| && i <= n && b[i..n] == Concat(ps) && AllPieces(ps, HEADER) && Filled(ps, ts, vals, k)
    ensures Expand(b, n, i, vals, k) == Concat(ts)
    decreases |ps|
  {
    if ps != [] {
      HeaderStep(b, n, i, ps, ts, vals, k);
      HeaderPieces(b, n, i + |ps[0]|, ps[1..], ts[1..], vals, if IsHole(ps[0], HEADER) then k + 1 else k);
    }
  }

  lemma {:induction false} HeaderPiecesFrom(ps: seq<string>)
    requires forall k :: 0 <= k < |ps| ==>
               if ps[k] != "" && ps[k][0] == '@' then
                 || (2 <= |ps[k]| <= 20 && ps[k][|ps[k]| - 1] == '#' && '#' !in ps[k][..|ps[k]| - 1])
                 || (|ps[k]| == 21 && '#' !in ps[k][..20])
               else '@' !in ps[k]
    ensures AllPieces(ps, HEADER)
  {
    if ps != [] {
      assert forall k :: 0 <= k < |ps[1..]| ==> ps[1..][k] == ps[k + 1];
      HeaderPiecesFrom(ps[1..]);
    }
  }

  lemma {:induction false} FilledFrom(ps: seq<string>, ts: seq<string>, holes: seq<nat>, a: string, b: string)
    requires |ts| == |ps| && |holes| == |ps| + 1
    requires forall k :: 0 <= k < |ps| ==> holes[k + 1] == holes[k] + (if ps[k] != "" && ps[k][0] == '@' then 1 else 0)
    requires forall k :: 0 <= k < |ps| ==>
               ts[k] == if ps[k] != "" && ps[k][0] == '@' then (if holes[k] == 0 then a else if holes[k] == 1 then b else "") else ps[k]
    ensures Filled(ps, ts, [a, b], holes[0])
    decreases |ps|
  {
    if ps != [] {
      assert holes[0 + 1] == holes[0] + (if ps[0] != "" && ps[0][0] == '@' then 1 else 0);
      assert forall k :: 0 <= k < |ps[1..]| ==> ps[1..][k] == ps[k + 1] && ts[1..][k] == ts[k + 1] && holes[1..][k] == holes[k + 1];
      forall k | 0 <= k < |ps[1..]|
        ensures holes[1..][k + 1] == holes[1..][k] + (if ps[1..][k] != "" && ps[1..][k][0] == '@' then 1 else 0)
      {
        assert holes[k + 1 + 1] == holes[k + 1] + (if ps[k + 1] != "" && ps[k + 1][0] == '@' then 1 else 0);
      }
      FilledFrom(ps[1..], ts[1..], holes[1..], a, b);
    }
  }

  /** fcom_ReportHeaderFilter piece by piece. A placeholder runs from `@` to the first `#` among its first 20
      characters, or over 21 characters when there is none; the first one becomes the chart, the second one the
      utilities, all others nothing. Everything else stays. */
  method HeaderText(jsbuff: array<char>, sChart: string, sUtil: string, totSize: nat, ghost t: string, ghost ps: seq<string>,
                    ghost ts: seq<string>, ghost holes: seq<nat>)
    returns (rc: int)
    requires HoldsC(jsbuff[..], t) && |t| + 20 <= jsbuff.Length && IsCString(sChart) && IsCString(sUtil) && t == Concat(ps)
    requires forall k :: 0 <= k < |ps| ==>
               if ps[k] != "" && ps[k][0] == '@' then
                 || (2 <= |ps[k]| <= 20 && ps[k][|ps[k]| - 1] == '#' && '#' !in ps[k][..|ps[k]| - 1])
                 || (|ps[k]| == 21 && '#' !in ps[k][..20])
               else '@' !in ps[k]
    requires |ts| == |ps| && |holes| == |ps| + 1 && holes[0] == 0
    requires forall k :: 0 <= k < |ps| ==> holes[k + 1] == holes[k] + (if ps[k] != "" && ps[k][0] == '@' then 1 else 0)
    requires forall k :: 0 <= k < |ps| ==>
               ts[k] == if ps[k] != "" && ps[k][0] == '@' then (if holes[k] == 0 then sChart else if holes[k] == 1 then sUtil else "") else ps[k]
    requires |Concat(ts)| <= totSize && |Concat(ts)| < jsbuff.Length
    modifies jsbuff
    ensures HoldsC(jsbuff[..], Concat(ts)) && rc == |Concat(ts)|
  {
    HeaderPiecesFrom(ps);
    FilledFrom(ps, ts, holes, sChart, sUtil);
    assert jsbuff[..][0..|t|] == t;
    HeaderPieces(jsbuff[..], |t|, 0, ps, ts, [sChart, sUtil], 0);
    rc := ReportHeaderFilter(jsbuff, sChart, sUtil, totSize, true, t);
  }

  // ---------------------------------------------------------------- statements

  /** The texts of the pieces behind the output `out`. */
  ghost predicate Named(ps: seq<string>, ts: seq<string>, out: string, first: bool, table: string)
    decreases |ps|
  {
    |ts| == |ps| && (ps != [] ==>
      if IsHole(ps[0], NAMES) then
        var (v, still) := NameValue(out, first, table);
        ts[0] == v && Named(ps[1..], ts[1..], out + v, still, table)
      else ts[0] == ps[0] && Named(ps[1..], ts[1..], out + ps[0], first, table))
  }

  lemma NamePiece(b: string, n: nat, i: nat, p: string, rest: string, out: string, first: bool, table: string)
    requires n + NAMES.limit <= |b| && i <= n && b[i..n] == p + rest && IsPiece(p, NAMES)
    ensures i + |p| <= n && b[i + |p|..n] == rest
    ensures IsHole(p, NAMES) ==>
              var (v, still) := NameValue(out, first, table);
              ExpandNames(b, n, i, out, first, table) == ExpandNames(b, n, i + |p|, out + v, still, table)
    ensures !IsHole(p, NAMES) ==> ExpandNames(b, n, i, out, first, table) == ExpandNames(b, n, i + |p|, out + p, first, table)
  {
    PieceAt(b, n, i, p, rest);
    if IsHole(p, NAMES) {
      HoleEnds(b, n, i, p, rest, NAMES);
    } else {
      NamesLiteral(b, n, i, i + |p|, out, first, table);
    }
  }

  lemma NameStep(b: string, n: nat, i: nat, ps: seq<string>, ts: seq<string>, out: string, first: bool, table: string)
    requires n + NAMES.limit <= |b| && i <= n && b[i..n] == Concat(ps) && AllPieces(ps, NAMES) && ps != []
    requires Named(ps, ts, out, first, table)
    ensures var still := if IsHole(ps[0], NAMES) then NameValue(out, first, table).1 else first;
            && i + |ps[0]| <= n && b[i + |ps[0]|..n] == Concat(ps[1..]) && AllPieces(ps[1..], NAMES)
            && Named(ps[1..], ts[1..], out + ts[0], still, table)
            && ExpandNames(b, n, i, out, first, table) == ExpandNames(b, n, i + |ps[0]|, out + ts[0], still, table)
  {
    NamePiece(b, n, i, ps[0], Concat(ps[1..]), out, first, table);
  }

  lemma {:induction false} NamePieces(b: string, n: nat, i: nat, ps: seq<string>, ts: seq<string>, out: string, first: bool, table: string)
    requires n + NAMES.limit <= |b| && i <= n && b[i..n] == Concat(ps) && AllPieces(ps, NAMES) && Named(ps, ts, out, first, table)
    ensures ExpandNames(b, n, i, out, first, table) == out + Concat(ts)
    decreases |ps|
  {
    if ps == [] {
      assert out + "" == out;
    } else {
      NameStep(b, n, i, ps, ts, out, first, table);
      var still := if IsHole(ps[0], NAMES) then NameValue(out, first, table).1 else first;
      NamePieces(b, n, i + |ps[0]|, ps[1..], ts[1..], out + ts[0], still, table);
      Assoc(out, ts[0], Concat(ts[1..]));
    }
  }

  lemma {:induction false} NamePiecesFrom(ps: seq<string>)
    requires forall k :: 0 <= k < |ps| ==>
               if ps[k] != "" && ps[k][0] == '{' then
                 || (2 <= |ps[k]| <= 40 && ps[k][|ps[k]| - 1] == '}' && '}' !in ps[k][..|ps[k]| - 1])
                 || (|ps[k]| == 41 && '}' !in ps[k][..40])
               else '{' !in ps[k]
    ensures AllPieces(ps, NAMES)
  {
    if ps != [] {
      assert forall k :: 0 <= k < |ps[1..]| ==> ps[1..][k] == ps[k + 1];
      NamePiecesFrom(ps[1..]);
    }
  }

  /** The full name at every placeholder, once the output starts with CREATE TABLE or the index name is out. */
  lemma {:induction false} NamedSettled(ps: seq<string>, ts: seq<string>, out: string, first: bool, table: string)
    requires StartsCreate(out) || !first
    requires |ts| == |ps| && forall k :: 0 <= k < |ps| ==> ts[k] == if ps[k] != "" && ps[k][0] == '{' then table else ps[k]
    ensures Named(ps, ts, out, first, table)
    decreases |ps|
  {
    if ps != [] {
      if StartsCreate(out) {
        CreateStays(out, ts[0]);
      }
      assert forall k :: 0 <= k < |ps[1..]| ==> ps[1..][k] == ps[k + 1] && ts[1..][k] == ts[k + 1];
      NamedSettled(ps[1..], ts[1..], out + ts[0], first, table);
    }
  }

  lemma {:induction false} NamedFrom(ps: seq<string>, ts: seq<string>, out: string, h: nat, head: string, table: string)
    requires h <= |ps| && forall k :: 0 <= k < h ==> !(ps[k] != "" && ps[k][0] == '{')
    requires h < |ps| ==> ps[h] != "" && ps[h][0] == '{'
    requires head == if StartsCreate(out + Concat(ps[..h])) then table else IndexName(table)
    requires |ts| == |ps| && forall k :: 0 <= k < |ps| ==>
               ts[k] == if ps[k] != "" && ps[k][0] == '{' then (if k == h then head else table) else ps[k]
    ensures Named(ps, ts, out, true, table)
    decreases |ps|
  {
    if ps != [] {
      assert forall k :: 0 <= k < |ps[1..]| ==> ps[1..][k] == ps[k + 1] && ts[1..][k] == ts[k + 1];
      if h > 0 {
        assert ps[..h][0] == ps[0] && ps[..h][1..] == ps[1..][..h - 1];
        Assoc(out, ps[0], Concat(ps[1..][..h - 1]));
        NamedFrom(ps[1..], ts[1..], out + ps[0], h - 1, head, table);
      } else {
        assert ps[..0] == [] && out + "" == out;
        if StartsCreate(out) {
          CreateStays(out, table);
          NamedSettled(ps[1..], ts[1..], out + table, true, table);
        } else {
          NamedSettled(ps[1..], ts[1..], out + head, false, table);
        }
      }
    }
  }

  lemma CreateSpelled(front: string)
    ensures StartsCreate(front) <==>
              |front| >= 13 && forall j :: 0 <= j < 13 ==> front[j] == "CREATE TABLE "[j] || front[j] == "create table "[j]
  {
    if StartsCreate(front) {
      forall j | 0 <= j < 13
        ensures front[j] == "CREATE TABLE "[j] || front[j] == "create table "[j]
      {
        assert Lower(front[j]) == CREATE[j];
      }
    }
  }

  /** The name behind the first dot. */
  lemma IndexSpelled(table: string, db: string, idx: string, rest: string)
    requires db != "" && idx != "" && '.' !in db && '.' !in idx && (rest == "" || rest[0] == '.')
    requires table == db + ("." + (idx + rest))
    ensures IndexName(table) == idx
  {
    TokensHead(db, "." + (idx + rest), ".");
    assert ("." + (idx + rest))[1..] == idx + rest;
    TokensHead(idx, rest, ".");
  }

  lemma NoIndex(table: string)
    requires '.' !in table
    ensures IndexName(table) == ""
  {
    if table != "" {
      assert table + "" == table;
      TokensHead(table, "", ".");
    }
  }

  /** fdb_NameFilter piece by piece. A placeholder runs from an opening brace to the first closing one among its
      first 40 characters, or over 41 characters when there is none. The first one becomes the full name when the text
      in front of it starts with CREATE TABLE, in letters of either case, else the name behind the first dot; all
      later ones become the full name. Everything else stays. */
  method StatementText(sqlbuff: array<char>, table: string, ghost t: string, ghost ps: seq<string>, ghost ts: seq<string>,
                       ghost h: nat, ghost db: string, ghost idx: string, ghost rest: string)
    requires HoldsC(sqlbuff[..], t) && |t| + 40 <= sqlbuff.Length && IsCString(table) && t == Concat(ps)
    requires |table| < 128 && |idx| < 50
    requires || ('.' !in table && idx == "")
             || (table == db + ("." + (idx + rest)) && db != "" && idx != "" && '.' !in db && '.' !in idx && (rest == "" || rest[0] == '.'))
    requires forall k :: 0 <= k < |ps| ==>
               if ps[k] != "" && ps[k][0] == '{' then
                 || (2 <= |ps[k]| <= 40 && ps[k][|ps[k]| - 1] == '}' && '}' !in ps[k][..|ps[k]| - 1])
                 || (|ps[k]| == 41 && '}' !in ps[k][..40])
               else '{' !in ps[k]
    requires h <= |ps| && (forall k :: 0 <= k < h ==> !(ps[k] != "" && ps[k][0] == '{')) && (h < |ps| ==> ps[h] != "" && ps[h][0] == '{')
    requires var front := Concat(ps[..h]);
             var head := if |front| >= 13 && forall j :: 0 <= j < 13 ==> front[j] == "CREATE TABLE "[j] || front[j] == "create table "[j]
                         then table else idx;
             |ts| == |ps| && forall k :: 0 <= k < |ps| ==>
               ts[k] == if ps[k] != "" && ps[k][0] == '{' then (if k == h then head else table) else ps[k]
    requires |Concat(ts)| < 5120 && |Concat(ts)| < sqlbuff.Length
    modifies sqlbuff
    ensures HoldsC(sqlbuff[..], Concat(ts))
  {
    if '.' !in table {
      NoIndex(table);
    } else {
      IndexSpelled(table, db, idx, rest);
    }
    CreateSpelled(Concat(ps[..h]));
    NamePiecesFrom(ps);
    assert "" + Concat(ps[..h]) == Concat(ps[..h]);
    NamedFrom(ps, ts, "", h, if StartsCreate(Concat(ps[..h])) then table else idx, table);
    assert sqlbuff[..][0..|t|] == t && "" + Concat(ts) == Concat(ts);
    NamePieces(sqlbuff[..], |t|, 0, ps, ts, "", true, table);
    NameFilter(sqlbuff, table, t);
  }
}
