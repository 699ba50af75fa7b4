/** Writing a configuration table as text and reading it back: headings `*NAME` and items `name option`,
    with comment lines, empty lines, trailing comments and blanks interleaved, are recovered exactly. */
module ConfigRender {
  import opened CStrings
  import opened ConfigText

  /** One line of a written table. */
  datatype Source =
    | Noise(text: string)
    | Heading(indent: string, name: string, tail: string)
    | Setting(name: string, sep: string, opt: string, tail: string)

  function Raw(l: Source): string {
    match l
    case Noise(text) => text
    case Heading(indent, name, tail) => indent + "*" + name + tail
    case Setting(name, sep, opt, tail) => name + sep + opt + tail
  }

  predicate Solid(s: string) {
    forall i :: 0 <= i < |s| ==> !IsBlank(s[i]) && s[i] != '#'
  }

  /** Blanks, then nothing or a comment. */
  predicate IsTail(s: string) {
    SolidFrom(s, 0) == |s| || s[SolidFrom(s, 0)] == '#'
  }

  /** An option keeps its inner blanks but has none at its ends, and no comment sign. */
  predicate IsOption(s: string) {
    '#' !in s && (s != "" ==> !IsBlank(s[0]) && !IsBlank(s[|s| - 1]))
  }

  predicate Good(l: Source) {
    match l
    case Noise(text) => IsComment(text)
    case Heading(indent, name, tail) => Blank(indent) && Solid(name) && IsTail(tail)
    case Setting(name, sep, opt, tail) =>
      && name != "" && name[0] != '*' && Solid(name)
      && Blank(sep) && IsOption(opt) && (opt != "" ==> sep != "") && IsTail(tail)
  }

  /** The entry keeps the name: a heading has 31 characters for it, an item 30 and a terminator. A longer item
      name is cut to 31 characters with the option read on behind them, which gives the name back when the
      option is its remainder. */
  predicate NameFits(l: Source) {
    match l
    case Noise(_) => true
    case Heading(_, name, _) => |name| <= ITEM_SIZE
    case Setting(name, _, opt, _) => |name| < ITEM_SIZE || opt == name[ITEM_SIZE..]
  }

  predicate AllFit(ls: seq<Source>) {
    ls != [] ==> NameFits(ls[0]) && AllFit(ls[1..])
  }

  /** Cutting keeps a body that ends solid and holds no comment sign, and drops the tail. */
  lemma CutKeepsBody(body: string, tail: string)
    requires body != "" && '#' !in body && !IsBlank(body[|body| - 1]) && IsTail(tail)
    ensures CutText(body + tail) == body
  {
    var t := body + tail;
    var h := |body| + SolidFrom(tail, 0);
    forall j | 0 <= j < h
      ensures t[j] != '#' && (j >= |body| ==> IsBlank(t[j]))
    {
      if j >= |body| {
        assert t[j] == tail[j - |body|];
      } else {
        assert t[j] == body[j];
      }
    }
    assert h < |t| ==> t[h] == tail[h - |body|];
    HashAtIs(t, h);
    assert t[..h][|body| - 1] == body[|body| - 1];
    SolidLengthIs(t[..h], h, |body|);
    assert t[..h][..|body|] == body;
  }

  lemma HeadingBody(indent: string, name: string)
    requires Blank(indent) && Solid(name)
    ensures var body := indent + "*" + name;
            && IsGroup(body) && GroupName(body) == name
            && '#' !in body && !IsBlank(body[|body| - 1])
  {
    var body := indent + "*" + name;
    forall j | 0 <= j < |body|
      ensures if j < |indent| then IsBlank(body[j]) else !IsBlank(body[j])
      ensures body[j] != '#'
    {
      if j < |indent| {
        assert body[j] == indent[j];
      } else if j > |indent| {
        assert body[j] == name[j - |indent| - 1];
      }
    }
    assert body[|indent|] == '*';
    SolidFromIs(body, 0, |indent|);
    WordEndIs(body, |indent| + 1, |body|);
    assert body[|indent| + 1..|body|] == name;
  }

  /** A line that starts with a body is a comment when the body is. */
  lemma StartDecides(body: string, tail: string)
    requires SolidFrom(body, 0) < |body|
    ensures IsComment(body + tail) == IsComment(body)
  {
    var t, k := body + tail, SolidFrom(body, 0);
    forall j | 0 <= j < k
      ensures IsBlank(t[j])
    {
      assert t[j] == body[j];
    }
    SolidFromIs(t, 0, k);
  }

  lemma HeadingReads(indent: string, name: string, tail: string)
    requires Good(Heading(indent, name, tail))
    ensures var t := Raw(Heading(indent, name, tail));
            !IsComment(t) && IsGroup(CutText(t)) && GroupName(CutText(t)) == name
  {
    var body := indent + "*" + name;
    HeadingBody(indent, name);
    CutKeepsBody(body, tail);
    StartDecides(body, tail);
  }

  /** The kinds of characters in the text of an item. */
  lemma SettingChars(name: string, sep: string, opt: string)
    requires Solid(name) && Blank(sep) && IsOption(opt)
    ensures var body, k := name + sep + opt, |name| + |sep|;
            && (forall j :: 0 <= j < |body| ==> body[j] != '#')
            && (forall j :: 0 <= j < |name| ==> body[j] == name[j] && !IsBlank(body[j]))
            && (forall j :: |name| <= j < k ==> IsBlank(body[j]))
            && (forall j :: k <= j < |body| ==> body[j] == opt[j - k])
  {
    var body, k := name + sep + opt, |name| + |sep|;
    forall j | 0 <= j < |body|
      ensures body[j] == if j < |name| then name[j] else if j < k then sep[j - |name|] else opt[j - k]
    {
    }
  }

  lemma SettingBody(name: string, sep: string, opt: string)
    requires name != "" && name[0] != '*' && Solid(name) && Blank(sep) && IsOption(opt) && opt != "" && sep != ""
    ensures var body := name + sep + opt;
            && SolidFrom(body, 0) == 0 && !IsGroup(body) && !IsComment(body) && ItemName(body) == name && ItemOpt(body) == opt
            && '#' !in body && !IsBlank(body[|body| - 1])
  {
    var body, k := name + sep + opt, |name| + |sep|;
    SettingChars(name, sep, opt);
    SolidFromIs(body, 0, 0);
    WordEndIs(body, 0, |name|);
    SolidFromIs(body, |name|, k);
    assert body[..|name|] == name && body[k..] == opt;
  }

  lemma BareName(name: string)
    requires name != "" && name[0] != '*' && Solid(name)
    ensures SolidFrom(name, 0) == 0 && !IsGroup(name) && !IsComment(name) && ItemName(name) == name && ItemOpt(name) == ""
  {
    SolidFromIs(name, 0, 0);
    WordEndIs(name, 0, |name|);
  }

  /** Reading an item body with its tail. */
  lemma ItemReads(body: string, tail: string)
    requires SolidFrom(body, 0) < |body| && !IsGroup(body) && !IsComment(body) && IsTail(tail)
    requires '#' !in body && !IsBlank(body[|body| - 1])
    ensures !IsComment(body + tail) && CutText(body + tail) == body
  {
    CutKeepsBody(body, tail);
    StartDecides(body, tail);
  }

  lemma SettingReads(name: string, sep: string, opt: string, tail: string)
    requires Good(Setting(name, sep, opt, tail))
    ensures var t := Raw(Setting(name, sep, opt, tail));
            !IsComment(t) && !IsGroup(CutText(t)) && ItemName(CutText(t)) == name && ItemOpt(CutText(t)) == opt
  {
    if opt == "" {
      BareName(name);
      BlankTail(sep, tail);
      assert Raw(Setting(name, sep, opt, tail)) == name + (sep + tail);
      ItemReads(name, sep + tail);
    } else {
      SettingBody(name, sep, opt);
      ItemReads(name + sep + opt, tail);
    }
  }

  lemma BlankTail(sep: string, tail: string)
    requires Blank(sep) && IsTail(tail)
    ensures IsTail(sep + tail)
  {
    var s, k := sep + tail, |sep| + SolidFrom(tail, 0);
    forall j | 0 <= j < k
      ensures IsBlank(s[j])
    {
      if j < |sep| {
        assert s[j] == sep[j];
      } else {
        assert s[j] == tail[j - |sep|];
      }
    }
    assert k < |s| ==> s[k] == tail[k - |sep|];
    SolidFromIs(s, 0, k);
  }

  // ---------------------------------------------------------------- whole tables

  function Headings(ls: seq<Source>): nat {
    if ls == [] then 0 else (if ls[0].Heading? then 1 else 0) + Headings(ls[1..])
  }

  /** The entries that the written lines mean, the first being line `num`. */
  function Meaning(ls: seq<Source>, groups: nat, num: int): seq<Entry> {
    if ls == [] then []
    else
      var group := if ls[0].Heading? then groups + 1 else groups;
      (if ls[0].Noise? then [] else [MeantEntry(ls[0], group, num)]) + Meaning(ls[1..], group, num + 1)
  }

  /** The entry that one written line means. */
  function MeantEntry(l: Source, group: nat, num: int): Entry
    requires !l.Noise?
  {
    match l
    case Heading(_, name, _) => Entry(GROUP, group, name, "", num)
    case Setting(name, _, opt, _) => Entry(ITEM, group, name, opt, num)
  }

  function Raws(ls: seq<Source>): seq<string> {
    if ls == [] then [] else [Raw(ls[0])] + Raws(ls[1..])
  }

  ghost predicate AllGood(ls: seq<Source>) {
    ls != [] ==> Good(ls[0]) && AllGood(ls[1..])
  }

  /** What one good line adds to the counted lines. */
  lemma LineCounts(l: Source, rest: seq<string>, num: int)
    requires Good(l)
    ensures CountedLines([Raw(l)] + rest, num)
         == (if l.Noise? then [] else [Line(num, CutText(Raw(l)))]) + CountedLines(rest, num + 1)
  {
    assert ([Raw(l)] + rest)[1..] == rest;
    match l
    case Noise(_) =>
    case Heading(indent, name, tail) => HeadingReads(indent, name, tail);
    case Setting(name, sep, opt, tail) => SettingReads(name, sep, opt, tail);
  }

  /** The entry that the loader makes of the text of a written line. */
  function LoadedEntry(l: Source, group: nat, num: int): Entry
    requires !l.Noise?
  {
    var line := Line(num, CutText(Raw(l)));
    if l.Heading? then GroupEntry(line, group) else ItemEntry(line, group)
  }

  /** The entry that the loader keeps of a written line: a name is cut to 31 characters, and an item's name
      that reaches them reads on into its option. */
  function KeptEntry(l: Source, group: nat, num: int): Entry
    requires !l.Noise?
  {
    match l
    case Heading(_, name, _) => Entry(GROUP, group, if |name| <= ITEM_SIZE then name else name[..ITEM_SIZE], "", num)
    case Setting(name, _, opt, _) => Entry(ITEM, group, if |name| < ITEM_SIZE then name else name[..ITEM_SIZE] + opt, opt, num)
  }

  /** The entries that are kept of the written lines. */
  function Kept(ls: seq<Source>, groups: nat, num: int): seq<Entry> {
    if ls == [] then []
    else
      var group := if ls[0].Heading? then groups + 1 else groups;
      (if ls[0].Noise? then [] else [KeptEntry(ls[0], group, num)]) + Kept(ls[1..], group, num + 1)
  }

  lemma EntryLoads(l: Source, group: nat, num: int)
    requires Good(l) && !l.Noise?
    ensures LoadedEntry(l, group, num) == KeptEntry(l, group, num)
    ensures IsGroup(CutText(Raw(l))) <==> l.Heading?
  {
    match l
    case Heading(indent, name, tail) => HeadingReads(indent, name, tail);
    case Setting(name, sep, opt, tail) => SettingReads(name, sep, opt, tail);
  }

  /** A written line comes back exactly when its name fits. */
  lemma EntryReadsBack(l: Source, group: nat, num: int)
    requires Good(l) && !l.Noise?
    ensures LoadedEntry(l, group, num) == MeantEntry(l, group, num) <==> NameFits(l)
    ensures KeptEntry(l, group, num) == MeantEntry(l, group, num) <==> NameFits(l)
  {
    EntryLoads(l, group, num);
    if l.Setting? && |l.name| >= ITEM_SIZE {
      var name, opt := l.name, l.opt;
      assert name == name[..ITEM_SIZE] + name[ITEM_SIZE..];
      if name[..ITEM_SIZE] + opt == name {
        assert (name[..ITEM_SIZE] + opt)[ITEM_SIZE..] == opt;
      }
    }
  }

  /** Any table, written with any noise between and behind its lines, is loaded as the entries kept of it. */
  lemma {:induction false} TableLoads(ls: seq<Source>, groups: nat, num: int)
    requires AllGood(ls) && groups + Headings(ls) <= MAX_GROUPS
    ensures Entries(CountedLines(Raws(ls), num), groups) == Kept(ls, groups, num)
    decreases |ls|
  {
    if ls != [] {
      var l, rest, later := ls[0], ls[1..], CountedLines(Raws(ls[1..]), num + 1);
      var group := if l.Heading? then groups + 1 else groups;
      LineCounts(l, Raws(rest), num);
      TableLoads(rest, group, num + 1);
      if l.Noise? {
        assert [] + later == later && [] + Kept(rest, group, num + 1) == Kept(rest, group, num + 1);
      } else {
        EntryLoads(l, group, num);
        FirstEntry(Line(num, CutText(Raw(l))), later, groups);
      }
    }
  }

  /** What is kept is what was meant exactly when all names fit; headings are kept as headings in any case. */
  lemma {:induction false} KeptIsMeant(ls: seq<Source>, groups: nat, num: int)
    requires AllGood(ls)
    ensures Kept(ls, groups, num) == Meaning(ls, groups, num) <==> AllFit(ls)
    ensures |Kept(ls, groups, num)| == |Meaning(ls, groups, num)|
    ensures Kept(ls, groups, num) != [] ==> Kept(ls, groups, num)[0].flag == Meaning(ls, groups, num)[0].flag
    decreases |ls|
  {
    if ls != [] {
      var l, rest := ls[0], ls[1..];
      var group := if l.Heading? then groups + 1 else groups;
      var kept, meant := Kept(rest, group, num + 1), Meaning(rest, group, num + 1);
      KeptIsMeant(rest, group, num + 1);
      if l.Noise? {
        assert [] + kept == kept && [] + meant == meant;
      } else {
        EntryReadsBack(l, group, num);
        SameSplit(KeptEntry(l, group, num), kept, MeantEntry(l, group, num), meant);
      }
    }
  }

  /** Any table is recovered exactly when all its names fit: the same names, options, order, group membership
      and line numbers. */
  lemma TableReadsBack(ls: seq<Source>, groups: nat, num: int)
    requires AllGood(ls) && groups + Headings(ls) <= MAX_GROUPS
    ensures Entries(CountedLines(Raws(ls), num), groups) == Meaning(ls, groups, num) <==> AllFit(ls)
    ensures |Entries(CountedLines(Raws(ls), num), groups)| == |Meaning(ls, groups, num)|
  {
    TableLoads(ls, groups, num);
    KeptIsMeant(ls, groups, num);
  }

  lemma FirstEntry(l: Line, rest: seq<Line>, groups: nat)
    requires IsGroup(l.text) ==> groups < MAX_GROUPS
    ensures Entries([l] + rest, groups)
         == if IsGroup(l.text) then [GroupEntry(l, groups + 1)] + Entries(rest, groups + 1) else [ItemEntry(l, groups)] + Entries(rest, groups)
  {
    assert ([l] + rest)[0] == l && ([l] + rest)[1..] == rest;
  }

  /** What the first line adds to the counted lines of a table. */
  lemma FirstCounts(ls: seq<Source>, num: int)
    requires ls != [] && AllGood(ls)
    ensures var later, line := CountedLines(Raws(ls[1..]), num + 1), Line(num, CutText(Raw(ls[0])));
            && CountedLines(Raws(ls), num) == (if ls[0].Noise? then later else [line] + later)
            && (!ls[0].Noise? ==> (IsGroup(line.text) <==> ls[0].Heading?))
  {
    var later := CountedLines(Raws(ls[1..]), num + 1);
    LineCounts(ls[0], Raws(ls[1..]), num);
    assert [] + later == later;
    if !ls[0].Noise? {
      EntryLoads(ls[0], 0, num);
    }
  }

  lemma CountHeading(l: Line, rest: seq<Line>)
    ensures GroupCount([l] + rest) == (if IsGroup(l.text) then 1 else 0) + GroupCount(rest)
  {
    assert ([l] + rest)[0] == l && ([l] + rest)[1..] == rest;
  }

  /** The counted lines of a written table are headings where the table has headings. */
  lemma {:induction false} LinesMatch(ls: seq<Source>, groups: nat, num: int)
    requires AllGood(ls)
    ensures var lines, es := CountedLines(Raws(ls), num), Meaning(ls, groups, num);
            && |lines| == |es| && GroupCount(lines) == Headings(ls)
            && (lines != [] ==> (IsGroup(lines[0].text) <==> es[0].flag == GROUP))
    decreases |ls|
  {
    if ls != [] {
      var l, rest := ls[0], ls[1..];
      var group := if l.Heading? then groups + 1 else groups;
      FirstCounts(ls, num);
      LinesMatch(rest, group, num + 1);
      if !l.Noise? {
        CountHeading(Line(num, CutText(Raw(l))), CountedLines(Raws(rest), num + 1));
      }
    }
  }

  /** A line of blanks only is not noise: it becomes an item without a name. */
  lemma BlankLineIsItem(t: string, num: int, group: nat)
    requires t != "" && Blank(t)
    ensures CountedLines([t], num) == [Line(num, t)] && !IsGroup(t)
    ensures ItemEntry(Line(num, t), group) == Entry(ITEM, group, "", "", num)
  {
    assert SolidFrom(t, 0) == |t| && HashAt(t, 0) == |t| && t[..|t|] == t;
    assert WordEnd(t, 0) == 0;
    assert CountedLines([t], num) == [Line(num, t)] + CountedLines([t][1..], num + 1);
  }

  lemma IndentedBody(indent: string, rest: string)
    requires indent != "" && Blank(indent) && rest != "" && !IsBlank(rest[0])
    ensures ItemName(indent + rest) == "" && ItemOpt(indent + rest) == rest
  {
    var body := indent + rest;
    assert body[0] == indent[0] && body[|indent|] == rest[0];
    assert forall j :: 0 <= j < |indent| ==> body[j] == indent[j];
    SolidFromIs(body, 0, |indent|);
    assert body[|indent|..] == rest;
  }

  /** What stands in front of the tail of an item, and the tail with the separator of an empty option. */
  lemma SettingParts(name: string, sep: string, opt: string, tail: string)
    requires Good(Setting(name, sep, opt, tail))
    ensures var rest, behind := name + (if opt == "" then "" else sep + opt), if opt == "" then sep + tail else tail;
            && Raw(Setting(name, sep, opt, tail)) == rest + behind && IsTail(behind)
            && rest != "" && '#' !in rest && !IsBlank(rest[0]) && !IsBlank(rest[|rest| - 1])
  {
    BlankTail(sep, tail);
  }

  lemma IndentedReads(indent: string, rest: string, behind: string)
    requires indent != "" && Blank(indent) && IsTail(behind)
    requires rest != "" && '#' !in rest && !IsBlank(rest[0]) && !IsBlank(rest[|rest| - 1])
    ensures ItemName(CutText(indent + (rest + behind))) == "" && ItemOpt(CutText(indent + (rest + behind))) == rest
  {
    assert indent + (rest + behind) == (indent + rest) + behind;
    CutKeepsBody(indent + rest, behind);
    IndentedBody(indent, rest);
  }

  /** An item line keeps its name exactly when it is not indented; an indented one loses its name and
      turns it into the start of its option. */
  lemma IndentLosesName(indent: string, name: string, sep: string, opt: string, tail: string)
    requires Good(Setting(name, sep, opt, tail)) && Blank(indent)
    ensures var t := CutText(indent + Raw(Setting(name, sep, opt, tail)));
            && (ItemName(t) == name <==> indent == "")
            && (indent != "" ==> ItemName(t) == "" && ItemOpt(t) == name + (if opt == "" then "" else sep + opt))
  {
    var raw := Raw(Setting(name, sep, opt, tail));
    if indent == "" {
      SettingReads(name, sep, opt, tail);
      assert indent + raw == raw;
    } else {
      SettingParts(name, sep, opt, tail);
      IndentedReads(indent, name + (if opt == "" then "" else sep + opt), if opt == "" then sep + tail else tail);
    }
  }
}
