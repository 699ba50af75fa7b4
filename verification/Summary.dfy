/** Change summaries: fjson_GetSummaryFt of lib_src/json/dap_json_parse.c prints the sections of a JSON
    object as `tag('v1','v2')` text, fcom_GetTagValue of lib_src/com/dap_string.c cuts one section out
    again, and the readers of lib_src/json/dap_json.c decide events from it. */
module Summary {
  import opened CStrings
  import opened CBuffers

  datatype Member = Member(key: string, value: string)

  /** One section of the object, members in iteration order. */
  datatype Section = Section(key: string, members: seq<Member>)

  // ---------------------------------------------------------------- the printer

  const ADD := "add"
  const DEL := "del"
  const MOD := "mod"
  const BLACK := "black"
  const ACCESS := "access"
  const WHITE := "white"
  const BLOCK := "block"

  predicate IsTag(process: bool, key: string) {
    key == BLOCK || (if process then key == BLACK || key == ACCESS || key == WHITE else key == ADD || key == DEL || key == MOD)
  }

  /** A member named `size` prints only an opening bracket, and only when it comes first. */
  function MemberText(m: Member, loop: nat): string {
    if m.key == "size" then (if loop == 0 then "(" else "")
    else (if loop == 0 then "(" else ",") + ("'" + (m.value + "'"))
  }

  /** The members from number `loop` on. */
  function MembersText(ms: seq<Member>, loop: nat): string
    decreases |ms|
  {
    if ms == [] then "" else MemberText(ms[0], loop) + MembersText(ms[1..], loop + 1)
  }

  /** What a section prints in front of its members: its key when that is a known tag. */
  function Label(process: bool, key: string): string {
    if IsTag(process, key) then key else ""
  }

  function SectionText(process: bool, s: Section): string {
    Label(process, s.key) + (MembersText(s.members, 0) + ")")
  }

  function SummaryText(process: bool, ss: seq<Section>): string {
    if ss == [] then "" else SectionText(process, ss[0]) + SummaryText(process, ss[1..])
  }

  /** The JSON values are C strings. */
  ghost predicate Clean(ms: seq<Member>) {
    forall i :: 0 <= i < |ms| ==> IsCString(ms[i].value)
  }

  ghost predicate AllClean(ss: seq<Section>) {
    forall i :: 0 <= i < |ss| ==> Clean(ss[i].members)
  }

  /** One turn of the inner loop. */
  method AppendMember(tmp: array<char>, m: Member, loop: nat, ghost text: string)
    requires Zeroed(tmp[..], text) && |text + MemberText(m, loop)| < tmp.Length && IsCString(m.value)
    modifies tmp
    ensures Zeroed(tmp[..], text + MemberText(m, loop))
  {
    if m.key == "size" {
      if loop == 0 {
        StrCat(tmp, "(", text);
      } else {
        assert text + "" == text;
      }
    } else {
      var mark := if loop == 0 then "(" else ",";
      Assoc(text, mark, "'" + (m.value + "'"));
      StrCat(tmp, mark, text);
      StrCat(tmp, "'" + (m.value + "'"), text + mark);
    }
  }

  /** The inner loop of fjson_GetSummaryFt. */
  method AppendMembers(tmp: array<char>, ms: seq<Member>, ghost text: string)
    requires Zeroed(tmp[..], text) && |text + MembersText(ms, 0)| < tmp.Length && Clean(ms)
    modifies tmp
    ensures Zeroed(tmp[..], text + MembersText(ms, 0))
  {
    ghost var now, goal := text, text + MembersText(ms, 0);
    assert ms[0..] == ms;
    for loop := 0 to |ms|
      invariant Zeroed(tmp[..], now) && now + MembersText(ms[loop..], loop) == goal
    {
      assert ms[loop..][0] == ms[loop] && ms[loop..][1..] == ms[loop + 1..];
      Assoc(now, MemberText(ms[loop], loop), MembersText(ms[loop + 1..], loop + 1));
      AppendMember(tmp, ms[loop], loop, now);
      now := now + MemberText(ms[loop], loop);
    }
    assert ms[|ms|..] == [] && now + "" == now;
  }

  /** The tag comparison of fjson_GetSummaryFt. */
  method AppendTag(process: bool, tmp: array<char>, key: string, ghost text: string)
    requires Zeroed(tmp[..], text) && |text + Label(process, key)| < tmp.Length
    modifies tmp
    ensures Zeroed(tmp[..], text + Label(process, key))
  {
    var strAdd := if process then BLACK else ADD;
    var strMod := if process then WHITE else MOD;
    var strDel := if process then ACCESS else DEL;
    if key == strAdd {
      StrCat(tmp, strAdd, text);
    } else if key == strDel {
      StrCat(tmp, strDel, text);
    } else if key == strMod {
      StrCat(tmp, strMod, text);
    } else if key == BLOCK {
      StrCat(tmp, BLOCK, text);
    } else {
      assert text + "" == text;
    }
  }

  /** One turn of the section loop. */
  method AppendSection(process: bool, tmp: array<char>, s: Section, ghost text: string)
    requires Zeroed(tmp[..], text) && |text + SectionText(process, s)| < tmp.Length && Clean(s.members)
    modifies tmp
    ensures Zeroed(tmp[..], text + SectionText(process, s))
  {
    ghost var k, m := Label(process, s.key), MembersText(s.members, 0);
    Assoc(text + k, m, ")");
    Assoc(text, k, m + ")");
    AppendTag(process, tmp, s.key, text);
    AppendMembers(tmp, s.members, text + k);
    StrCat(tmp, ")", text + k + m);
  }

  /** fcom_SubStr: copies `len` characters of `orgstr` from position `start`, counted from 1, to the
      front of `substr`. */
  method SubStr(start: nat, len: nat, orgstr: array<char>, substr: array<char>)
    requires 1 <= start && start - 1 + len <= orgstr.Length && len <= substr.Length && orgstr != substr
    modifies substr
    ensures substr[..] == orgstr[start - 1..start - 1 + len] + old(substr[len..])
  {
    var subOffset := 0;
    for orgOffset := start - 1 to start + len - 1
      invariant subOffset == orgOffset - (start - 1)
      invariant substr[..subOffset] == orgstr[start - 1..orgOffset] && substr[subOffset..] == old(substr[subOffset..])
    {
      substr[subOffset] := orgstr[orgOffset];
      subOffset := subOffset + 1;
    }
  }

  /** The section loop of fjson_GetSummaryFt. */
  method AppendSections(process: bool, tmp: array<char>, ss: seq<Section>)
    requires Zeroed(tmp[..], "") && |SummaryText(process, ss)| < tmp.Length && AllClean(ss)
    modifies tmp
    ensures Zeroed(tmp[..], SummaryText(process, ss))
  {
    ghost var now, goal := "", SummaryText(process, ss);
    assert ss[0..] == ss && now + goal == goal;
    for i := 0 to |ss|
      invariant Zeroed(tmp[..], now) && now + SummaryText(process, ss[i..]) == goal
    {
      assert ss[i..][0] == ss[i] && ss[i..][1..] == ss[i + 1..];
      Assoc(now, SectionText(process, ss[i]), SummaryText(process, ss[i + 1..]));
      AppendSection(process, tmp, ss[i], now);
      now := now + SectionText(process, ss[i]);
    }
    assert ss[|ss|..] == [] && now + "" == now;
  }

  /** fjson_GetSummaryFt. The text must fit its 2048-byte buffer. A text of more than 1023 characters is
      not cut: the copy runs from the result into the local buffer, and the result stays as it was. */
  method GetSummaryFt(process: bool, ss: seq<Section>, res: array<char>)
    requires |SummaryText(process, ss)| < 2048 && AllClean(ss) && 1024 <= res.Length
    modifies res
    ensures var text := SummaryText(process, ss);
            && (|text| <= 1023 ==> HoldsC(res[..], text) && res[|text| + 1..] == old(res[|text| + 1..]))
            && (|text| > 1023 ==> res[..] == old(res[..]))
  {
    var tmp := new char[2048](_ => '\0');
    AppendSections(process, tmp, ss);
    FinishSummary(tmp, res, SummaryText(process, ss));
  }

  /** The last lines of fjson_GetSummaryFt, which hand the text over. */
  method FinishSummary(tmp: array<char>, res: array<char>, ghost text: string)
    requires HoldsC(tmp[..], text) && tmp != res && 1023 <= tmp.Length && 1024 <= res.Length
    modifies tmp, res
    ensures |text| <= 1023 ==> HoldsC(res[..], text) && res[|text| + 1..] == old(res[|text| + 1..])
    ensures |text| > 1023 ==> res[..] == old(res[..])
  {
    var n := StrLen(tmp, text);
    if n > 1023 {
      SubStr(1, 1023, res, tmp);
    } else {
      StrCpy(res, 0, tmp[..n]);
    }
  }

  /** What the caller of fjson_GetSummaryFt gets: nothing when the text is too long. */
  function Delivered(process: bool, ss: seq<Section>): string {
    var text := SummaryText(process, ss);
    if |text| <= 1023 then text else ""
  }

  /** The caller: zero a 4096-byte buffer, have it filled, use it as a C string. */
  method StoreSummary(process: bool, ss: seq<Section>) returns (summary: string)
    requires |SummaryText(process, ss)| < 2048 && AllClean(ss)
    ensures summary == Delivered(process, ss)
    ensures summary == SummaryText(process, ss) <==> |SummaryText(process, ss)| <= 1023
  {
    var strSummary := new char[4096](_ => '\0');
    GetSummaryFt(process, ss, strSummary);
    var n := StrLen(strSummary, Delivered(process, ss));
    summary := strSummary[..n];
  }

  // ---------------------------------------------------------------- the tag reader

  /** The text of s[i..] between `tag1` and the next `tag2`; None when either is missing. */
  function TagFrom(s: string, i: nat, tag1: string, tag2: string): Option<string>
    requires i <= |s|
  {
    match Find(s, tag1, i)
    case None => None
    case Some(k) =>
      match Find(s, tag2, k + |tag1|)
      case None => None
      case Some(e) => Some(s[k + |tag1|..e])
  }

  function TagValue(s: string, tag1: string, tag2: string): Option<string> {
    TagFrom(s, 0, tag1, tag2)
  }

  /** fcom_GetTagValue: writes the value, cut to one less than the buffer when longer, and no terminator. */
  method GetTagValue(s: string, tag1: string, tag2: string, out: array<char>) returns (rc: Option<int>)
    requires out.Length > 0
    modifies out
    ensures var v := TagValue(s, tag1, tag2);
            var n := if v.None? then 0 else if |v.value| > out.Length then out.Length - 1 else |v.value|;
            && (v.Some? ==> out[..n] == v.value[..n])
            && out[n..] == old(out[n..])
            && (Find(s, tag1, 0).None? ==> rc == Some(-1))
            && (v.Some? ==> rc == Some(Find(s, tag1, 0).value + |tag1| + |v.value| + |tag2|))
  {
    var start := Find(s, tag1, 0);
    if start == None {
      return Some(-1);
    }
    var from_ := start.value + |tag1|;
    var end := Find(s, tag2, from_);
    if end == None {
      return None;
    }
    var n: nat := end.value - from_;
    if n > out.Length {
      n := out.Length - 1;
    }
    CopyOut(s[from_..end.value], n, out);
    return Some(end.value + |tag2|);
  }

  /** strncpy of the first `n` characters. */
  method CopyOut(t: string, n: nat, out: array<char>)
    requires n <= |t| && n <= out.Length
    modifies out
    ensures out[..n] == t[..n] && out[n..] == old(out[n..])
  {
    for i := 0 to n
      invariant out[..i] == t[..i] && out[i..] == old(out[i..])
    {
      out[i] := t[i];
    }
  }

  // ---------------------------------------------------------------- reading back what was printed

  /** The values of a section: all members but `size`. */
  function Values(ms: seq<Member>): seq<string> {
    if ms == [] then [] else (if ms[0].key == "size" then [] else [ms[0].value]) + Values(ms[1..])
  }

  function QuotedTail(vs: seq<string>): string {
    if vs == [] then "" else "," + ("'" + (vs[0] + "'")) + QuotedTail(vs[1..])
  }

  /** 'v0','v1',... */
  function Quoted(vs: seq<string>): string {
    if vs == [] then "" else "'" + (vs[0] + "'") + QuotedTail(vs[1..])
  }

  predicate Plain(s: string) {
    '(' !in s && ')' !in s
  }

  /** What a section prints between its brackets. A `size` in front leaves a comma in front. */
  function Body(ms: seq<Member>): string
    requires ms != []
  {
    if ms[0].key == "size" then QuotedTail(Values(ms)) else Quoted(Values(ms))
  }

  /** A section with values without parentheses, under any key. */
  ghost predicate WellFormed(s: Section) {
    forall i :: 0 <= i < |s.members| ==> Plain(s.members[i].value)
  }

  ghost predicate AllWellFormed(ss: seq<Section>) {
    ss != [] ==> WellFormed(ss[0]) && AllWellFormed(ss[1..])
  }

  lemma {:induction false} LaterMembers(ms: seq<Member>, loop: nat)
    requires loop > 0
    ensures MembersText(ms, loop) == QuotedTail(Values(ms))
    decreases |ms|
  {
    if ms != [] {
      LaterMembers(ms[1..], loop + 1);
      if ms[0].key == "size" {
        assert Values(ms) == Values(ms[1..]);
      } else {
        assert Values(ms)[0] == ms[0].value && Values(ms)[1..] == Values(ms[1..]);
      }
    }
  }

  /** A section with members prints as its label and its body in brackets; one without has no opening
      bracket. */
  lemma SectionPrints(process: bool, s: Section)
    ensures var head := Label(process, s.key);
            SectionText(process, s) == if s.members == [] then head + ")" else Bracketed(head, Body(s.members))
  {
    var head, m := Label(process, s.key), MembersText(s.members, 0);
    if s.members == [] {
      assert m + ")" == ")";
    } else {
      BodyPrints(s.members);
      assert m + ")" == "(" + (Body(s.members) + ")");
    }
  }

  lemma BodyPrints(ms: seq<Member>)
    requires ms != []
    ensures MembersText(ms, 0) == "(" + Body(ms)
  {
    LaterMembers(ms[1..], 1);
    var vs := Values(ms);
    if ms[0].key == "size" {
      assert vs == Values(ms[1..]);
    } else {
      assert vs[0] == ms[0].value && vs[1..] == Values(ms[1..]);
      assert MembersText(ms, 0) == "(" + ("'" + (vs[0] + "'")) + QuotedTail(vs[1..]);
    }
  }

  lemma {:induction false} QuotedTailPlain(vs: seq<string>)
    requires forall i :: 0 <= i < |vs| ==> Plain(vs[i])
    ensures Plain(QuotedTail(vs))
  {
    if vs != [] {
      QuotedTailPlain(vs[1..]);
    }
  }

  lemma {:induction false} ValuesPlain(ms: seq<Member>)
    requires forall i :: 0 <= i < |ms| ==> Plain(ms[i].value)
    ensures forall i :: 0 <= i < |Values(ms)| ==> Plain(Values(ms)[i])
  {
    if ms != [] {
      ValuesPlain(ms[1..]);
    }
  }

  lemma BodyPlain(s: Section)
    requires WellFormed(s) && s.members != []
    ensures Plain(Body(s.members))
  {
    var vs := Values(s.members);
    ValuesPlain(s.members);
    QuotedTailPlain(vs);
    if vs != [] {
      QuotedTailPlain(vs[1..]);
    }
  }

  /** No tag is the end of another. */
  lemma TagsApart(process: bool, a: string, b: string, k: nat)
    requires IsTag(process, a) && IsTag(process, b) && k <= |b| && b[k..] == a
    ensures a == b
  {
    assert b[|b| - 1] == b[k..][|a| - 1] && b[|b| - 2] == b[k..][|a| - 2];
  }

  predicate EndsWith(s: string, t: string) {
    |t| <= |s| && s[|s| - |t|..] == t
  }

  lemma NoTagInside(process: bool, a: string, key: string)
    requires IsTag(process, a) && a != key
    ensures !EndsWith(Label(process, key), a)
  {
    if EndsWith(Label(process, key), a) {
      TagsApart(process, a, key, |key| - |a|);
    }
  }

  lemma TagsPlain(process: bool, a: string)
    requires IsTag(process, a)
    ensures Plain(a)
  {
  }

  lemma LabelPlain(process: bool, key: string)
    ensures Plain(Label(process, key))
  {
    if IsTag(process, key) {
      TagsPlain(process, key);
    }
  }

  function Bracketed(key: string, body: string): string {
    key + ("(" + (body + ")"))
  }

  /** What an occurrence of a tag and its bracket puts on the text. */
  lemma SpanOfTag(s: string, j: nat, tag: string)
    requires Plain(tag) && OccursAt(s, j, tag + "(")
    ensures forall m :: j <= m < j + |tag| ==> s[m] == tag[m - j]
    ensures s[j + |tag|] == '(' && forall m :: j <= m < j + |tag| ==> s[m] != ')'
  {
    var t := tag + "(";
    assert forall m :: j <= m < j + |t| ==> s[m] == s[j..j + |t|][m - j] == t[m - j];
    assert t[|tag|] == '(';
  }

  /** Where a tag and its bracket start in front of a section's own bracket, they end with it. */
  lemma OccursAtTag(tag: string, key: string, rest: string, j: nat)
    requires Plain(tag) && Plain(key) && tag != "" && j <= |key| && OccursAt(key + ("(" + rest), j, tag + "(")
    ensures j < |key| && EndsWith(key, tag)
  {
    var s := key + ("(" + rest);
    SpanOfTag(s, j, tag);
    assert s[|key|] == '(' && forall m :: 0 <= m < |key| ==> s[m] == key[m];
    assert forall m :: 0 <= m < |key| ==> s[m] != '(';
    assert forall m :: j <= m < j + |tag| ==> s[m] != '(';
    assert j + |tag| == |key| && key[j..] == s[j..|key|] == tag;
  }

  /** Where they start inside a body that a closing bracket follows, they end there too. */
  lemma OccursInBody(tag: string, body: string, rest: string, j: nat)
    requires Plain(tag) && j <= |body| && OccursAt(body + (")" + rest), j, tag + "(")
    ensures OccursAt(body, j, tag + "(")
  {
    var s, p := body + (")" + rest), tag + "(";
    SpanOfTag(s, j, tag);
    assert s[|body|] == ')' && forall m :: 0 <= m < |body| ==> s[m] == body[m];
    assert body[j..j + |p|] == s[j..j + |p|];
  }

  lemma OccursAtTagOrInside(tag: string, key: string, body: string, rest: string, j: nat)
    requires Plain(tag) && Plain(key) && tag != ""
    requires j < |key| + |body| + 2 && OccursAt(Bracketed(key, body) + rest, j, tag + "(")
    ensures j < |key| ==> EndsWith(key, tag)
    ensures j >= |key| ==> j > |key| && OccursAt(body, j - |key| - 1, tag + "(")
  {
    var s, t := Bracketed(key, body) + rest, body + (")" + rest);
    assert s == key + ("(" + t);
    if j <= |key| {
      OccursAtTag(tag, key, t, j);
    } else {
      var at := |key| + 1;
      assert s[at..|s|] == t;
      OccursInSlice(s, at, |s|, j - at, tag + "(");
      OccursInBody(tag, body, rest, j - at);
    }
  }

  /** A section without members never opens a bracket. */
  lemma NoBracket(tag: string, key: string, rest: string, j: nat)
    requires Plain(tag) && Plain(key) && j < |key| + 1
    ensures !OccursAt(key + ")" + rest, j, tag + "(")
  {
    var s := key + ")" + rest;
    assert s[|key|] == ')' && forall m :: 0 <= m < |key| ==> s[m] == key[m];
    if OccursAt(s, j, tag + "(") {
      SpanOfTag(s, j, tag);
    }
  }

  /** The body of the section printed under `tag`, when there is one. */
  function Lookup(ss: seq<Section>, tag: string): Option<string> {
    if ss == [] then None
    else if ss[0].key == tag && ss[0].members != [] then Some(Body(ss[0].members))
    else Lookup(ss[1..], tag)
  }

  /** The text in front of the first closing bracket. */
  function Front(t: string): (f: string)
    ensures |f| <= |t| && t[..|f|] == f && ')' !in f && (|f| < |t| ==> t[|f|] == ')')
  {
    if t == "" || t[0] == ')' then "" else [t[0]] + Front(t[1..])
  }

  lemma {:induction false} FrontWhole(t: string)
    ensures Front(t) == t <==> ')' !in t
  {
    if |Front(t)| == |t| {
      assert Front(t) == t[..|t|] == t;
    }
  }

  lemma FrontIs(t: string, n: nat)
    requires n <= |t| && ')' !in t[..n] && (n < |t| ==> t[n] == ')')
    ensures Front(t) == t[..n]
  {
    var k := |Front(t)|;
    assert forall m :: 0 <= m < n ==> t[m] == t[..n][m];
    assert forall m :: 0 <= m < k ==> t[m] == t[..k][m];
  }

  lemma FrontOver(a: string, b: string)
    ensures Front(a + b) == if ')' in a then Front(a) else a + Front(b)
  {
    var t, n := a + b, if ')' in a then |Front(a)| else |a| + |Front(b)|;
    FrontWhole(a);
    assert t[..n] == if ')' in a then a[..n] else a + b[..|Front(b)|];
    FrontIs(t, n);
  }

  lemma OtherChar(s: string, j: nat, c: char)
    requires j < |s| && s[j] != c
    ensures !OccursAt(s, j, [c])
  {
    assert s[j..j + 1][0] == s[j];
  }

  /** The closing mark that the reader finds after a text which a closing bracket follows. */
  lemma CloseAt(s: string, from_: nat, t: string, rest: string)
    requires from_ <= |s| && s[from_..] == t + (")" + rest)
    ensures var end := from_ + |Front(t)|;
            Find(s, ")", from_) == Some(end) && s[from_..end] == Front(t)
  {
    var end := from_ + |Front(t)|;
    FrontAt(s, from_, t, rest);
    assert s[end..end + 1] == ")";
    forall j | from_ <= j < end
      ensures !OccursAt(s, j, ")")
    {
      OtherChar(s, j, ')');
    }
    FindUnique(s, ")", from_, end);
  }

  lemma FrontAt(s: string, from_: nat, t: string, rest: string)
    requires from_ <= |s| && s[from_..] == t + (")" + rest)
    ensures var end := from_ + |Front(t)|;
            && end < |s| && s[end] == ')' && s[from_..end] == Front(t)
            && forall j :: from_ <= j < end ==> s[j] != ')'
  {
    var f, u := Front(t), s[from_..];
    assert forall m :: 0 <= m < |u| ==> s[from_ + m] == u[m];
    assert u[|f|] == ')' && u[..|f|] == t[..|f|] == f;
    assert s[from_..from_ + |f|] == u[..|f|];
    forall j | from_ <= j < from_ + |f|
      ensures s[j] != ')'
    {
      assert s[j] == f[j - from_];
    }
  }

  /** The same, where the section stands in the text. */
  lemma OccursInside(s: string, i: nat, key: string, body: string, rest: string, tag: string, j: nat)
    requires Plain(tag) && Plain(key) && tag != "" && !EndsWith(key, tag)
    requires i <= |s| && s[i..] == Bracketed(key, body) + rest
    requires i <= j < i + |key| + |body| + 2 && OccursAt(s, j, tag + "(")
    ensures j > i + |key| && OccursAt(body, j - i - |key| - 1, tag + "(")
  {
    assert s[i..|s|] == s[i..];
    OccursInSlice(s, i, |s|, j - i, tag + "(");
    OccursAtTagOrInside(tag, key, body, rest, j - i);
  }

  lemma OccursInWhole(s: string, b: nat, t: string, k: nat, p: string)
    requires b + |t| <= |s| && s[b..b + |t|] == t && OccursAt(t, k, p)
    ensures OccursAt(s, b + k, p)
  {
    OccursInSlice(s, b, b + |t|, k, p);
  }

  lemma InsideIsAfterKey(s: string, i: nat, key: string, body: string, rest: string)
    requires i <= |s| && s[i..] == Bracketed(key, body) + rest
    ensures var b := i + |key| + 1;
            && b + |body| + 1 <= |s| && s[b..b + |body|] == body && s[b..] == body + (")" + rest)
            && s[b + |body| + 1..] == rest && s[i..b] == key + "("
  {
    var b, t := i + |key| + 1, s[i..];
    assert s[b..b + |body|] == t[|key| + 1..|key| + 1 + |body|] && s[b..] == t[|key| + 1..];
    assert s[b + |body| + 1..] == t[|key| + |body| + 2..] && s[i..b] == t[..|key| + 1];
  }

  lemma ReadsSection(s: string, i: nat, tag: string, body: string, rest: string)
    requires i <= |s| && s[i..] == Bracketed(tag, body) + rest
    ensures TagFrom(s, i, tag + "(", ")") == Some(Front(body))
  {
    InsideIsAfterKey(s, i, tag, body, rest);
    CloseAt(s, i + |tag| + 1, body, rest);
  }

  /** In the text from `i` on, the mark starts nowhere in front of the body at `b`, and from there to the closing
      bracket only where it starts in the body. */
  ghost predicate OnlyInBody(s: string, i: nat, b: nat, body: string, p: string) {
    && (forall j :: i <= j < b ==> !OccursAt(s, j, p))
    && (forall m :: 0 <= m <= |body| && OccursAt(s, b + m, p) ==> OccursAt(body, m, p))
  }

  lemma OtherSection(s: string, i: nat, b: nat, key: string, body: string, rest: string, tag: string)
    requires Plain(tag) && Plain(key) && tag != "" && !EndsWith(key, tag)
    requires i <= |s| && s[i..] == Bracketed(key, body) + rest && b == i + |key| + 1
    ensures OnlyInBody(s, i, b, body, tag + "(")
  {
    forall j | i <= j < b
      ensures !OccursAt(s, j, tag + "(")
    {
      if OccursAt(s, j, tag + "(") {
        OccursInside(s, i, key, body, rest, tag, j);
      }
    }
    forall m | 0 <= m <= |body| && OccursAt(s, b + m, tag + "(")
      ensures OccursAt(body, m, tag + "(")
    {
      OccursInside(s, i, key, body, rest, tag, b + m);
    }
  }

  /** What the reader gets from a section under another tag: the text behind the first mark in the body, or
      nothing yet. */
  lemma ReadsBody(s: string, i: nat, b: nat, body: string, rest: string, p: string, next: nat)
    requires i <= b <= |s| && s[b..] == body + (")" + rest) && OnlyInBody(s, i, b, body, p) && next == b + |body| + 1
    ensures next <= |s|
    ensures TagFrom(s, i, p, ")") == if Behind(body, p).Some? then Behind(body, p) else TagFrom(s, next, p, ")")
  {
    assert next <= |s| by {
      SuffixStarts(s, b, body, ")" + rest);
    }
    BehindFirst(body, p);
    if Behind(body, p).None? {
      NoneInBody(s, i, b, body, p, next);
    } else {
      ReadsFirst(s, i, b, body, rest, p, Find(body, p, 0).value);
    }
  }

  lemma BehindFirst(body: string, p: string)
    ensures Behind(body, p).None? ==> forall m :: 0 <= m <= |body| ==> !OccursAt(body, m, p)
    ensures Behind(body, p).Some? ==>
              && Find(body, p, 0).Some?
              && var k := Find(body, p, 0).value;
                 && k + |p| <= |body| && Behind(body, p) == Some(Front(body[k + |p|..]))
                 && OccursAt(body, k, p) && forall m :: 0 <= m < k ==> !OccursAt(body, m, p)
  {
    FindIsFirst(body, p, 0);
  }

  lemma ReadsFirst(s: string, i: nat, b: nat, body: string, rest: string, p: string, k: nat)
    requires i <= b <= |s| && s[b..] == body + (")" + rest) && OnlyInBody(s, i, b, body, p)
    requires OccursAt(body, k, p) && forall m :: 0 <= m < k ==> !OccursAt(body, m, p)
    ensures TagFrom(s, i, p, ")") == Some(Front(body[k + |p|..]))
  {
    SuffixStarts(s, b, body, ")" + rest);
    OccursInWhole(s, b, body, k, p);
    FirstInBody(s, i, b, body, p, k);
    SuffixAt(s, b, body, ")" + rest, k + |p|, b + k + |p|);
    ReadsInside(s, i, b + k, b + k + |p|, body[k + |p|..], rest, p);
  }

  lemma NoneInBody(s: string, i: nat, b: nat, body: string, p: string, next: nat)
    requires i <= b && OnlyInBody(s, i, b, body, p) && next == b + |body| + 1 <= |s|
    requires forall m :: 0 <= m <= |body| ==> !OccursAt(body, m, p)
    ensures TagFrom(s, i, p, ")") == TagFrom(s, next, p, ")")
  {
    forall j | i <= j < next
      ensures !OccursAt(s, j, p)
    {
      if j >= b {
        assert !OccursAt(body, j - b, p);
        assert j == b + (j - b);
      }
    }
    FindSkips(s, p, i, next);
  }

  lemma SuffixStarts(s: string, b: nat, t: string, rest: string)
    requires b <= |s| && s[b..] == t + rest
    ensures b + |t| <= |s| && s[b..b + |t|] == t
  {
    assert s[b..b + |t|] == s[b..][..|t|];
  }

  lemma FirstInBody(s: string, i: nat, b: nat, body: string, p: string, k: nat)
    requires i <= b && OnlyInBody(s, i, b, body, p) && k <= |body| && OccursAt(s, b + k, p)
    requires forall m :: 0 <= m < k ==> !OccursAt(body, m, p)
    ensures Find(s, p, i) == Some(b + k)
  {
    forall j | i <= j < b + k
      ensures !OccursAt(s, j, p)
    {
      if j >= b {
        assert !OccursAt(body, j - b, p);
        assert j == b + (j - b);
      }
    }
    FindUnique(s, p, i, b + k);
  }

  lemma ReadsInside(s: string, i: nat, at: nat, from_: nat, t: string, rest: string, p: string)
    requires i <= |s| && Find(s, p, i) == Some(at) && from_ == at + |p| && s[from_..] == t + (")" + rest)
    ensures TagFrom(s, i, p, ")") == Some(Front(t))
  {
    CloseAt(s, from_, t, rest);
    TagFromIs(s, i, p, ")", at, from_, from_ + |Front(t)|);
  }

  lemma TagFromIs(s: string, i: nat, tag1: string, tag2: string, k: nat, from_: nat, e: nat)
    requires i <= |s| && Find(s, tag1, i) == Some(k) && from_ == k + |tag1| && Find(s, tag2, from_) == Some(e)
    ensures TagFrom(s, i, tag1, tag2) == Some(s[from_..e])
  {
  }

  lemma SuffixAt(s: string, b: nat, t: string, rest: string, at: nat, from_: nat)
    requires b <= |s| && s[b..] == t + rest && at <= |t| && from_ == b + at
    ensures from_ <= |s| && s[from_..] == t[at..] + rest
  {
    assert s[b + at..] == s[b..][at..];
  }

  /** The text behind a mark inside a body. */
  function Behind(body: string, mark: string): Option<string> {
    match Find(body, mark, 0)
    case None => None
    case Some(k) => Some(Front(body[k + |mark|..]))
  }

  /** What a value of an earlier section makes the reader take for the section of `tag`: the text behind the
      first `tag(` in a body printed before that section. */
  function Mask(ss: seq<Section>, tag: string): Option<string> {
    if ss == [] || (ss[0].key == tag && ss[0].members != []) then None
    else if ss[0].members != [] && Behind(Body(ss[0].members), tag + "(").Some? then Behind(Body(ss[0].members), tag + "(")
    else Mask(ss[1..], tag)
  }

  /** What the reader gets: a mask, or the body of the section up to its first closing bracket. */
  function Heard(ss: seq<Section>, tag: string): Option<string> {
    if Mask(ss, tag).Some? then Mask(ss, tag)
    else match Lookup(ss, tag)
      case None => None
      case Some(body) => Some(Front(body))
  }

  lemma SkipsEmpty(s: string, i: nat, key: string, rest: string, tag: string) returns (next: nat)
    requires Plain(tag) && Plain(key) && i <= |s| && s[i..] == key + ")" + rest
    ensures next <= |s| && s[next..] == rest
    ensures TagFrom(s, i, tag + "(", ")") == TagFrom(s, next, tag + "(", ")")
  {
    next := i + |key| + 1;
    assert s[next..] == s[i..][|key| + 1..];
    assert s[i..|s|] == s[i..];
    forall j | i <= j < next
      ensures !OccursAt(s, j, tag + "(")
    {
      OccursInSlice(s, i, |s|, j - i, tag + "(");
      NoBracket(tag, key, rest, j - i);
    }
    FindSkips(s, tag + "(", i, next);
  }

  lemma NothingLeft(s: string, tag: string)
    ensures TagFrom(s, |s|, tag + "(", ")") == None
  {
  }

  lemma SectionStep(process: bool, c: Section, rest: string, tag: string, s: string, i: nat) returns (next: nat)
    requires IsTag(process, tag) && i <= |s| && s[i..] == SectionText(process, c) + rest
    ensures next <= |s| && s[next..] == rest
    ensures TagFrom(s, i, tag + "(", ")") ==
              if c.members == [] then TagFrom(s, next, tag + "(", ")")
              else if c.key == tag then Some(Front(Body(c.members)))
              else if Behind(Body(c.members), tag + "(").Some? then Behind(Body(c.members), tag + "(")
              else TagFrom(s, next, tag + "(", ")")
  {
    var head := Label(process, c.key);
    SectionPrints(process, c);
    TagsPlain(process, tag);
    LabelPlain(process, c.key);
    if c.members == [] {
      next := SkipsEmpty(s, i, head, rest, tag);
    } else {
      var body := Body(c.members);
      next := i + |head| + |body| + 2;
      InsideIsAfterKey(s, i, head, body, rest);
      if c.key == tag {
        ReadsSection(s, i, tag, body, rest);
      } else {
        NoTagInside(process, tag, c.key);
        ReadsOther(s, i, head, body, rest, tag, next);
      }
    }
  }

  lemma ReadsOther(s: string, i: nat, key: string, body: string, rest: string, tag: string, next: nat)
    requires Plain(tag) && Plain(key) && tag != "" && !EndsWith(key, tag)
    requires i <= |s| && s[i..] == Bracketed(key, body) + rest && next == i + |key| + |body| + 2
    ensures next <= |s|
    ensures TagFrom(s, i, tag + "(", ")")
         == if Behind(body, tag + "(").Some? then Behind(body, tag + "(") else TagFrom(s, next, tag + "(", ")")
  {
    var b, p := i + |key| + 1, tag + "(";
    InsideIsAfterKey(s, i, key, body, rest);
    OtherSection(s, i, b, key, body, rest, tag);
    ReadsBody(s, i, b, body, rest, p, next);
  }

  lemma {:induction false} TagInRest(process: bool, ss: seq<Section>, tag: string, s: string, i: nat)
    requires IsTag(process, tag) && i <= |s| && s[i..] == SummaryText(process, ss)
    ensures TagFrom(s, i, tag + "(", ")") == Heard(ss, tag)
    decreases |ss|
  {
    if ss == [] {
      NothingLeft(s, tag);
    } else {
      var next := SectionStep(process, ss[0], SummaryText(process, ss[1..]), tag, s, i);
      TagInRest(process, ss[1..], tag, s, next);
    }
  }

  /** Reading any printed summary gives, for each known tag, what an earlier value put in its way, else what
      its section printed between its brackets up to the first closing one, else nothing. */
  lemma TagOfSummary(process: bool, ss: seq<Section>, tag: string)
    requires IsTag(process, tag)
    ensures TagValue(SummaryText(process, ss), tag + "(", ")") == Heard(ss, tag)
  {
    var s := SummaryText(process, ss);
    assert s[0..] == s;
    TagInRest(process, ss, tag, s, 0);
  }

  /** Exactly when the reader gets what the section printed: nothing masks it and it holds no closing bracket,
      or the mask happens to be the same text. */
  lemma TagExact(process: bool, ss: seq<Section>, tag: string)
    requires IsTag(process, tag)
    ensures TagValue(SummaryText(process, ss), tag + "(", ")") == Lookup(ss, tag) <==>
              match Mask(ss, tag)
              case Some(text) => Lookup(ss, tag) == Some(text)
              case None => Lookup(ss, tag).None? || ')' !in Lookup(ss, tag).value
  {
    TagOfSummary(process, ss, tag);
    if Lookup(ss, tag).Some? {
      FrontWhole(Lookup(ss, tag).value);
    }
  }

  /** Values without brackets mask nothing and end nothing. */
  lemma {:induction false} PlainUnmasked(process: bool, ss: seq<Section>, tag: string)
    requires AllWellFormed(ss) && IsTag(process, tag)
    ensures Mask(ss, tag) == None && (Lookup(ss, tag).Some? ==> ')' !in Lookup(ss, tag).value)
  {
    if ss != [] {
      if ss[0].members != [] {
        BodyPlain(ss[0]);
        NoTagWithoutBracket(Body(ss[0].members), tag);
      }
      PlainUnmasked(process, ss[1..], tag);
    }
  }

  lemma NoTagWithoutBracket(body: string, tag: string)
    requires '(' !in body
    ensures Behind(body, tag + "(") == None
  {
    var p := tag + "(";
    assert p[|tag|] == '(';
    if Find(body, p, 0).Some? {
      OccursHolds(body, Find(body, p, 0).value, p, |tag|);
    }
  }

  lemma OccursHolds(s: string, k: nat, p: string, m: nat)
    requires OccursAt(s, k, p) && m < |p|
    ensures p[m] in s
  {
    assert s[k + m] == s[k..k + |p|][m];
  }

  /** Exactly the quoted, comma-joined values come back unless a `size` member stands before them. */
  lemma BodyIsQuoted(ms: seq<Member>)
    requires ms != []
    ensures Body(ms) == Quoted(Values(ms)) <==> ms[0].key != "size" || Values(ms) == []
  {
    if ms[0].key == "size" && Values(ms) != [] {
      assert QuotedTail(Values(ms))[0] == ',' && Quoted(Values(ms))[0] == '\'';
    }
  }

  // ---------------------------------------------------------------- the readers

  /** What fcom_GetTagValue leaves as a C string in the readers' zeroed 4096-byte buffer. */
  function Cut(v: Option<string>): string {
    match v
    case None => ""
    case Some(t) => if |t| > 4096 then t[..4095] else t
  }

  /** The first lines of every reader: zero a buffer, fetch the tag, use the buffer as a C string. */
  method ReadTag(summary: string, tag: string) returns (v: string)
    requires IsCString(summary) && |summary| < 4096
    ensures v == Cut(TagValue(summary, tag + "(", ")"))
  {
    var out := new char[4096](_ => '\0');
    var rc := GetTagValue(summary, tag + "(", ")", out);
    ghost var goal := Cut(TagValue(summary, tag + "(", ")"));
    assert forall k :: 0 <= k < |goal| ==> goal[k] in summary;
    var n := 0;
    while out[n] != '\0'
      invariant n <= |goal| < 4096
      decreases |goal| - n
    {
      n := n + 1;
    }
    assert n == |goal|;
    v := out[..n];
  }

  /** fjson_GetLengthConnectExtSummary. */
  function ConnectExt(summary: string): int {
    if |Cut(TagValue(summary, ADD + "(", ")"))| > 0 then 1 else 0
  }

  /** fjson_GetLengthSystemVmSummary. */
  function SystemVm(summary: string): int {
    (if Contains(Cut(TagValue(summary, ADD + "(", ")")), "vm") then 1 else 0)
    + (if Contains(Cut(TagValue(summary, MOD + "(", ")")), "vm") then 1 else 0)
  }

  /** fjson_GetLengthProcessAccessSummary. */
  function ProcessAccess(summary: string): int {
    var v := Cut(TagValue(summary, ACCESS + "(", ")"));
    if v == "" then -1 else if Contains(v, "[off]") then 0 else 1
  }

  /** fjson_GetLengthProcessWhiteSummary. */
  function ProcessWhite(summary: string): int {
    if Contains(Cut(TagValue(summary, WHITE + "(", ")")), "[off]") then 1 else 0
  }

  /** fjson_GetLengthProcessBlackSummary. */
  function ProcessBlack(summary: string): int {
    var v := Cut(TagValue(summary, BLACK + "(", ")"));
    if Contains(v, "[on]") then 1 else if Contains(v, "[kill]") then -1 else 0
  }

  /** fjson_GetLengthProcessBlockSummary. */
  function ProcessBlock(summary: string): int {
    var v := Cut(TagValue(summary, BLOCK + "(", ")"));
    if Contains(v, "[off]") then 1 else if Contains(v, "[kill]") then 2 else 0
  }

  /** Some value of the sections under `tag` that print contains `word`. */
  predicate Says(ss: seq<Section>, tag: string, word: string) {
    if ss == [] then false
    else if ss[0].key == tag && ss[0].members != [] then AnyContains(Values(ss[0].members), word)
    else Says(ss[1..], tag, word)
  }

  predicate AnyContains(vs: seq<string>, word: string) {
    vs != [] && (Contains(vs[0], word) || AnyContains(vs[1..], word))
  }

  ghost predicate Somewhere(s: string, p: string) {
    exists k :: 0 <= k <= |s| && OccursAt(s, k, p)
  }

  lemma ContainsSomewhere(s: string, p: string)
    ensures Contains(s, p) <==> Somewhere(s, p)
  {
    FindIsFirst(s, p, 0);
    if Contains(s, p) {
      assert OccursAt(s, Find(s, p, 0).value, p);
    }
  }

  lemma InSlice(s: string, i: nat, j: nat, word: string)
    requires i <= j <= |s| && Somewhere(s[i..j], word)
    ensures Somewhere(s, word)
  {
    var k :| 0 <= k <= j - i && OccursAt(s[i..j], k, word);
    OccursInSlice(s, i, j, k, word);
    assert OccursAt(s, i + k, word);
  }

  /** An occurrence of a word without `c` avoids the place of a `c`. */
  lemma AvoidsSeparator(s: string, at: nat, word: string)
    requires at < |s| && s[at] !in word && word != "" && Somewhere(s, word)
    ensures Somewhere(s[0..at], word) || Somewhere(s[at + 1..|s|], word)
  {
    var k :| 0 <= k <= |s| && OccursAt(s, k, word);
    assert forall m :: k <= m < k + |word| ==> s[m] == s[k..k + |word|][m - k];
    if k < at {
      OccursInSlice(s, 0, at, k, word);
      assert OccursAt(s[0..at], k, word);
    } else {
      OccursInSlice(s, at + 1, |s|, k - at - 1, word);
      assert OccursAt(s[at + 1..|s|], k - at - 1, word);
    }
  }

  /** A word without the separator `c` occurs in a + [c] + b exactly when it occurs in `a` or in `b`. */
  lemma ContainsAround(a: string, c: char, b: string, word: string)
    requires c !in word && word != ""
    ensures Contains(a + ([c] + b), word) <==> Contains(a, word) || Contains(b, word)
  {
    ContainsSomewhere(a + ([c] + b), word);
    ContainsSomewhere(a, word);
    ContainsSomewhere(b, word);
    SomewhereAround(a, c, b, word);
  }

  lemma SomewhereAround(a: string, c: char, b: string, word: string)
    requires c !in word && word != ""
    ensures Somewhere(a + ([c] + b), word) <==> Somewhere(a, word) || Somewhere(b, word)
  {
    var s := a + ([c] + b);
    assert s[0..|a|] == a && s[|a| + 1..|s|] == b && s[|a|] == c;
    if Somewhere(s, word) {
      AvoidsSeparator(s, |a|, word);
    }
    PartsContain(s, 0, |a|, word);
    PartsContain(s, |a| + 1, |s|, word);
  }

  lemma PartsContain(s: string, i: nat, j: nat, word: string)
    requires i <= j <= |s|
    ensures Somewhere(s[i..j], word) ==> Somewhere(s, word)
  {
    if Somewhere(s[i..j], word) {
      InSlice(s, i, j, word);
    }
  }

  lemma ShortTextFree(t: string, word: string)
    requires |t| < |word|
    ensures !Contains(t, word)
  {
  }

  lemma QuotedValue(before: string, v: string, rest: string, word: string)
    requires '\'' !in word && |word| > 1 && |before| <= 1
    ensures Contains(before + (['\''] + (v + (['\''] + rest))), word) <==> Contains(v, word) || Contains(rest, word)
  {
    ShortTextFree(before, word);
    ContainsAround(v, '\'', rest, word);
    ContainsAround(before, '\'', v + (['\''] + rest), word);
  }

  /** A word without quotes and longer than a comma is in a printed value list exactly when it is in one
      of the values. */
  lemma {:induction false} TailSays(vs: seq<string>, word: string)
    requires '\'' !in word && |word| > 1
    ensures Contains(QuotedTail(vs), word) <==> AnyContains(vs, word)
  {
    ShortTextFree("", word);
    if vs != [] {
      TailSays(vs[1..], word);
      var rest := QuotedTail(vs[1..]);
      QuotedValue(",", vs[0], rest, word);
      TailHead(vs);
    }
  }

  lemma QuotedSays(vs: seq<string>, word: string)
    requires '\'' !in word && |word| > 1
    ensures Contains(Quoted(vs), word) <==> AnyContains(vs, word)
  {
    ShortTextFree("", word);
    if vs != [] {
      TailSays(vs[1..], word);
      var rest := QuotedTail(vs[1..]);
      QuotedValue("", vs[0], rest, word);
      QuotedHead(vs);
    }
  }

  lemma TailHead(vs: seq<string>)
    requires vs != []
    ensures QuotedTail(vs) == "," + (['\''] + (vs[0] + (['\''] + QuotedTail(vs[1..]))))
  {
  }

  lemma QuotedHead(vs: seq<string>)
    requires vs != []
    ensures Quoted(vs) == "" + (['\''] + (vs[0] + (['\''] + QuotedTail(vs[1..]))))
  {
  }

  lemma {:induction false} LookupSays(ss: seq<Section>, tag: string, word: string)
    requires '\'' !in word && |word| > 1
    ensures Says(ss, tag, word) <==> Lookup(ss, tag).Some? && Contains(Lookup(ss, tag).value, word)
  {
    if ss != [] {
      if ss[0].members != [] {
        QuotedSays(Values(ss[0].members), word);
        TailSays(Values(ss[0].members), word);
      }
      LookupSays(ss[1..], tag, word);
    }
  }

  // ---------------------------------------------------------------- what a reader finds

  /** Some value contains `word` in front of the first closing bracket. */
  predicate AnyInFront(vs: seq<string>, word: string) {
    vs != [] && (Contains(Front(vs[0]), word) || (')' !in vs[0] && AnyInFront(vs[1..], word)))
  }

  lemma FrontQuoted(before: string, v: string, rest: string)
    requires ')' !in before
    ensures Front(before + (['\''] + (v + (['\''] + rest))))
         == before + (['\''] + (if ')' in v then Front(v) else v + (['\''] + Front(rest))))
  {
    FrontOver(before, ['\''] + (v + (['\''] + rest)));
    FrontOver(['\''], v + (['\''] + rest));
    FrontOver(v, ['\''] + rest);
    FrontOver(['\''], rest);
  }

  /** A word in the front of a printed value with its quotes and the text around it. */
  lemma FrontSays(before: string, v: string, rest: string, word: string)
    requires '\'' !in word && |word| > 1 && |before| <= 1 && ')' !in before
    ensures Contains(Front(before + (['\''] + (v + (['\''] + rest)))), word) <==>
              Contains(Front(v), word) || (')' !in v && Contains(Front(rest), word))
  {
    FrontQuoted(before, v, rest);
    FrontWhole(v);
    if ')' in v {
      ShortTextFree(before, word);
      ContainsAround(before, '\'', Front(v), word);
    } else {
      QuotedValue(before, v, Front(rest), word);
    }
  }

  lemma {:induction false} TailInFront(vs: seq<string>, word: string)
    requires '\'' !in word && |word| > 1
    ensures Contains(Front(QuotedTail(vs)), word) <==> AnyInFront(vs, word)
  {
    ShortTextFree("", word);
    if vs != [] {
      var rest := QuotedTail(vs[1..]);
      TailHead(vs);
      TailInFront(vs[1..], word);
      FrontSays(",", vs[0], rest, word);
    }
  }

  lemma QuotedInFront(vs: seq<string>, word: string)
    requires '\'' !in word && |word| > 1
    ensures Contains(Front(Quoted(vs)), word) <==> AnyInFront(vs, word)
  {
    ShortTextFree("", word);
    if vs != [] {
      TailInFront(vs[1..], word);
      FrontSays("", vs[0], QuotedTail(vs[1..]), word);
      QuotedHead(vs);
    }
  }

  /** A reader finds `word` under `tag`: in the mask, or else in the section's values in front of the first
      closing bracket. */
  predicate Finds(ss: seq<Section>, tag: string, word: string) {
    match Mask(ss, tag)
    case Some(text) => Contains(text, word)
    case None => SaysInFront(ss, tag, word)
  }

  predicate SaysInFront(ss: seq<Section>, tag: string, word: string) {
    if ss == [] then false
    else if ss[0].key == tag && ss[0].members != [] then AnyInFront(Values(ss[0].members), word)
    else SaysInFront(ss[1..], tag, word)
  }

  lemma {:induction false} LookupInFront(ss: seq<Section>, tag: string, word: string)
    requires '\'' !in word && |word| > 1
    ensures SaysInFront(ss, tag, word) <==> Lookup(ss, tag).Some? && Contains(Front(Lookup(ss, tag).value), word)
  {
    if ss != [] {
      if ss[0].members != [] {
        QuotedInFront(Values(ss[0].members), word);
        TailInFront(Values(ss[0].members), word);
      }
      LookupInFront(ss[1..], tag, word);
    }
  }

  /** The text is short enough to be delivered. */
  predicate Kept(process: bool, ss: seq<Section>) {
    |SummaryText(process, ss)| <= 1023
  }

  /** The text of a tag in what the caller got. */
  lemma TagDelivered(process: bool, ss: seq<Section>, tag: string)
    requires IsTag(process, tag)
    ensures TagValue(Delivered(process, ss), tag + "(", ")") == if Kept(process, ss) then Heard(ss, tag) else None
  {
    if Kept(process, ss) {
      TagOfSummary(process, ss, tag);
    } else {
      NothingLeft("", tag);
    }
  }

  /** A reader of what the caller got finds a word under a tag exactly when the summary was not too long and
      the word stands in the way of the section or in its values in front of the first closing bracket. */
  lemma ReaderFinds(process: bool, ss: seq<Section>, tag: string, word: string)
    requires IsTag(process, tag) && '\'' !in word && |word| > 1
    ensures Contains(Cut(TagValue(Delivered(process, ss), tag + "(", ")")), word) <==> Kept(process, ss) && Finds(ss, tag, word)
  {
    ShortTextFree("", word);
    TagDelivered(process, ss, tag);
    LookupInFront(ss, tag, word);
  }

  /** What stands in front is said by the section; the other way round, when no closing bracket comes before. */
  lemma FrontIsSaid(ss: seq<Section>, tag: string, word: string)
    requires '\'' !in word && |word| > 1
    ensures SaysInFront(ss, tag, word) ==> Says(ss, tag, word)
    ensures (Lookup(ss, tag).Some? ==> ')' !in Lookup(ss, tag).value) ==> (SaysInFront(ss, tag, word) <==> Says(ss, tag, word))
  {
    LookupInFront(ss, tag, word);
    LookupSays(ss, tag, word);
    if Lookup(ss, tag).Some? {
      var body := Lookup(ss, tag).value;
      FrontWhole(body);
      ContainsSomewhere(body, word);
      ContainsSomewhere(Front(body), word);
      PartsContain(body, 0, |Front(body)|, word);
    }
  }

  /** With nothing in the way and no closing bracket in the section, that is when a value contains the word. */
  lemma ReaderSays(process: bool, ss: seq<Section>, tag: string, word: string)
    requires IsTag(process, tag) && '\'' !in word && |word| > 1
    requires Mask(ss, tag) == None && (Lookup(ss, tag).Some? ==> ')' !in Lookup(ss, tag).value)
    ensures Contains(Cut(TagValue(Delivered(process, ss), tag + "(", ")")), word) <==> Kept(process, ss) && Says(ss, tag, word)
  {
    ReaderFinds(process, ss, tag, word);
    FrontIsSaid(ss, tag, word);
  }

  /** The process readers, for every object. */
  lemma ProcessReaders(ss: seq<Section>)
    ensures var t, kept := Delivered(true, ss), Kept(true, ss);
            && ProcessWhite(t) == (if kept && Finds(ss, WHITE, "[off]") then 1 else 0)
            && ProcessBlack(t) == (if kept && Finds(ss, BLACK, "[on]") then 1
                                   else if kept && Finds(ss, BLACK, "[kill]") then -1 else 0)
            && ProcessBlock(t) == (if kept && Finds(ss, BLOCK, "[off]") then 1
                                   else if kept && Finds(ss, BLOCK, "[kill]") then 2 else 0)
            && ProcessAccess(t) == (if !kept || Heard(ss, ACCESS) in {None, Some("")} then -1
                                    else if Finds(ss, ACCESS, "[off]") then 0 else 1)
  {
    BlackReader(ss);
    BlockReader(ss);
    AccessReader(ss);
    ReaderFinds(true, ss, WHITE, "[off]");
  }

  lemma BlackReader(ss: seq<Section>)
    ensures ProcessBlack(Delivered(true, ss))
         == if Kept(true, ss) && Finds(ss, BLACK, "[on]") then 1 else if Kept(true, ss) && Finds(ss, BLACK, "[kill]") then -1 else 0
  {
    ReaderFinds(true, ss, BLACK, "[on]");
    ReaderFinds(true, ss, BLACK, "[kill]");
  }

  lemma BlockReader(ss: seq<Section>)
    ensures ProcessBlock(Delivered(true, ss))
         == if Kept(true, ss) && Finds(ss, BLOCK, "[off]") then 1 else if Kept(true, ss) && Finds(ss, BLOCK, "[kill]") then 2 else 0
  {
    ReaderFinds(true, ss, BLOCK, "[off]");
    ReaderFinds(true, ss, BLOCK, "[kill]");
  }

  lemma AccessReader(ss: seq<Section>)
    ensures ProcessAccess(Delivered(true, ss))
         == if !Kept(true, ss) || Heard(ss, ACCESS) in {None, Some("")} then -1 else if Finds(ss, ACCESS, "[off]") then 0 else 1
  {
    ReaderFinds(true, ss, ACCESS, "[off]");
    TagDelivered(true, ss, ACCESS);
  }

  /** The two readers of change summaries, for every object. */
  lemma ChangeReaders(ss: seq<Section>)
    ensures var t, kept := Delivered(false, ss), Kept(false, ss);
            && ConnectExt(t) == (if !kept || Heard(ss, ADD) in {None, Some("")} then 0 else 1)
            && SystemVm(t) == (if kept && Finds(ss, ADD, "vm") then 1 else 0) + (if kept && Finds(ss, MOD, "vm") then 1 else 0)
  {
    ReaderFinds(false, ss, ADD, "vm");
    ReaderFinds(false, ss, MOD, "vm");
    TagDelivered(false, ss, ADD);
  }

  /** A summary of more than 1023 characters is lost to all six readers, whatever it says. */
  lemma LongSummaryLost(process: bool, ss: seq<Section>)
    requires !Kept(process, ss)
    ensures var t := Delivered(process, ss);
            && ConnectExt(t) == 0 && SystemVm(t) == 0
            && ProcessAccess(t) == -1 && ProcessWhite(t) == 0 && ProcessBlack(t) == 0 && ProcessBlock(t) == 0
  {
    NothingLeft("", ADD);
    NothingLeft("", MOD);
    NothingLeft("", ACCESS);
    NothingLeft("", WHITE);
    NothingLeft("", BLACK);
    NothingLeft("", BLOCK);
  }

  /** One added virtual machine under a name of 1100 characters: the printed summary reports it, what the
      caller gets does not. */
  lemma LongNameLost() returns (ss: seq<Section>)
    ensures AllWellFormed(ss) && AllClean(ss) && 1023 < |SummaryText(false, ss)| < 2048
    ensures ConnectExt(SummaryText(false, ss)) == 1 && ConnectExt(Delivered(false, ss)) == 0
  {
    var v := seq(1100, _ => 'v');
    var m := Member("1", v);
    ss := [Section(ADD, [m])];
    assert forall i :: 0 <= i < |v| ==> v[i] == 'v';
    assert ss[1..] == [] && [m][1..] == [] && Values([m]) == [v] && [v][1..] == [];
    var body := "'" + (v + "'") + "";
    assert Body([m]) == Quoted([v]) == body && |body| == 1102;
    SectionPrints(false, ss[0]);
    assert SummaryText(false, ss) == Bracketed(ADD, body) + "" && |Bracketed(ADD, body)| == 1107;
    PlainUnmasked(false, ss, ADD);
    TagExact(false, ss, ADD);
    LongSummaryLost(false, ss);
  }

  /** A section with one value. */
  lemma OneValue(process: bool, key: string, v: string) returns (s: Section)
    requires IsTag(process, key) && '\0' !in v && |v| < 1000
    ensures s == Section(key, [Member("1", v)])
    ensures Values(s.members) == [v] && Body(s.members) == "'" + (v + "'")
    ensures AllClean([s]) && Kept(process, [s])
  {
    var m := Member("1", v);
    s := Section(key, [m]);
    assert [m][1..] == [] && Values([m]) == [v] && [v][1..] == [];
    assert Body([m]) == Quoted([v]) == "'" + (v + "'") + "";
    SectionPrints(process, s);
    assert [s][1..] == [] && SummaryText(process, [s]) == Bracketed(key, "'" + (v + "'")) + "";
  }

  lemma ContainsInFront(word: string, b: string)
    ensures Contains(word + b, word)
  {
    assert (word + b)[0..|word|] == word;
  }

  lemma ContainsBehind(a: string, b: string, word: string)
    ensures Contains(a + (b + word), word)
  {
    var v, k := a + (b + word), |a| + |b|;
    assert v[k..k + |word|] == word && OccursAt(v, k, word);
    ContainsSomewhere(v, word);
  }

  lemma FrontBefore(a: string, b: string)
    requires ')' !in a
    ensures Front(a + (")" + b)) == a
  {
    var v := a + (")" + b);
    assert v[..|a|] == a && v[|a|] == ')';
    FrontIs(v, |a|);
  }

  lemma OneInFront(v: string, word: string)
    ensures AnyInFront([v], word) <==> Contains(Front(v), word)
  {
  }

  lemma NothingInFront(a: string, b: string, word: string)
    requires ')' !in a && |a| < |word|
    ensures !AnyInFront([a + (")" + b)], word)
  {
    FrontBefore(a, b);
    OneInFront(a + (")" + b), word);
    ShortTextFree(a, word);
  }

  /** One section with one value: what it says and what stands in front of the first closing bracket. */
  lemma OneSays(s: Section, v: string, word: string)
    requires s.members != [] && Values(s.members) == [v]
    ensures Says([s], s.key, word) <==> Contains(v, word)
    ensures Finds([s], s.key, word) <==> AnyInFront([v], word)
  {
    assert [v][1..] == [] && [s][0] == s;
    assert !AnyContains([], word);
    assert Mask([s], s.key) == None;
  }

  /** A value that contains a word, but not in front of its first closing bracket, hides it from the reader. */
  lemma ValueHides(v: string, word: string) returns (ss: seq<Section>)
    requires '\0' !in v && |v| < 1000 && '\'' !in word && |word| > 1
    requires Contains(v, word) && !AnyInFront([v], word)
    ensures AllClean(ss) && Kept(true, ss) && Says(ss, WHITE, word)
    ensures !Contains(Cut(TagValue(Delivered(true, ss), WHITE + "(", ")")), word)
  {
    var s := OneValue(true, WHITE, v);
    ss := [s];
    OneSays(s, v, word);
    ReaderFinds(true, ss, WHITE, word);
  }

  /** A value with a closing bracket hides what stands behind it: the white list says off, its reader does
      not find it. */
  lemma ClosingBracketHides() returns (ss: seq<Section>)
    ensures AllClean(ss) && Kept(true, ss) && Says(ss, WHITE, "[off]") && ProcessWhite(Delivered(true, ss)) == 0
  {
    var v := "a" + (")" + "[off]");
    ContainsBehind("a", ")", "[off]");
    NothingInFront("a", "[off]", "[off]");
    ss := ValueHides(v, "[off]");
  }

  /** A tag and its bracket inside a value: what the reader takes for the text of the tag. */
  lemma MaskText(before: string, tag: string, t: string)
    requires |before| == 1 && before[0] !in tag && tag != "" && ')' !in t
    ensures Behind(before + ((tag + "(") + t), tag + "(") == Some(t)
  {
    var p := tag + "(";
    var body := before + (p + t);
    assert body[1..1 + |p|] == p && body[1 + |p|..] == t;
    assert body[0..|p|][0] == before[0] && p[0] == tag[0];
    FindUnique(body, p, 0, 1);
    FrontWhole(t);
  }

  lemma OneMask(s: Section, tag: string, t: string, word: string)
    requires s.members != [] && s.key != tag && Behind(Body(s.members), tag + "(") == Some(t)
    ensures Mask([s], tag) == Some(t) && !Says([s], tag, word)
  {
    assert [s][1..] == [];
  }

  /** A value that holds another tag with its bracket answers for that tag: no section says off for the white
      list, its reader finds it all the same. */
  lemma OpeningBracketMasks() returns (ss: seq<Section>)
    ensures AllClean(ss) && Kept(true, ss) && !Says(ss, WHITE, "[off]") && ProcessWhite(Delivered(true, ss)) == 1
  {
    var s := OneValue(true, BLACK, "white([off]");
    ss := [s];
    MaskedWhite(Body(s.members));
    OneMask(s, WHITE, "[off]'", "[off]");
    ContainsInFront("[off]", "'");
    assert "[off]" + "'" == "[off]'";
    ReaderFinds(true, ss, WHITE, "[off]");
  }

  lemma MaskedWhite(body: string)
    requires body == "'" + ("white([off]" + "'")
    ensures Behind(body, WHITE + "(") == Some("[off]'")
  {
    MaskText("'", WHITE, "[off]'");
    assert body == "'" + ((WHITE + "(") + "[off]'");
  }
}
