/** The lookup of an option in terms of the lines a table was written with, lib_src/com/dap_update_cfg.c: which
    tables are refused, and which line's option is found. */
module ConfigSays {
  import opened CStrings
  import opened ConfigText
  import opened ConfigRender
  import opened ConfigFile
  import opened ConfigApart
  import opened ConfigLoad
  import T = ConfigTable

  /** The name that is kept of a line. */
  function KeptName(l: Source): string {
    match l
    case Noise(_) => ""
    case Heading(_, name, _) => if |name| <= 31 then name else name[..31]
    case Setting(name, _, opt, _) => if |name| < 31 then name else name[..31] + opt
  }

  /** The entry says what the line says. */
  ghost predicate Matches(e: Entry, l: Source) {
    && !l.Noise? && e.item == KeptName(l)
    && (e.flag == GROUP <==> l.Heading?) && (e.flag == ITEM <==> l.Setting?) && (l.Setting? ==> e.opt == l.opt)
  }

  /** The entries stand for the lines other than noise, in order. */
  ghost predicate Stand(es: seq<Entry>, ls: seq<Source>)
    decreases |ls|
  {
    if ls == [] then es == []
    else if ls[0].Noise? then Stand(es, ls[1..])
    else es != [] && Matches(es[0], ls[0]) && Stand(es[1..], ls[1..])
  }

  lemma {:induction false} KeptStand(ls: seq<Source>, groups: nat, num: int)
    ensures Stand(Kept(ls, groups, num), ls)
    decreases |ls|
  {
    if ls != [] {
      var l, rest := ls[0], ls[1..];
      var group := if l.Heading? then groups + 1 else groups;
      var later := Kept(rest, group, num + 1);
      KeptStand(rest, group, num + 1);
      if l.Noise? {
        assert [] + later == later;
      } else {
        assert ([KeptEntry(l, group, num)] + later)[1..] == later;
      }
    }
  }

  /** How many lines other than noise come before line `i`. */
  function Rank(ls: seq<Source>, i: nat): nat
    requires i <= |ls|
    decreases |ls|
  {
    if i == 0 then 0 else (if ls[0].Noise? then 0 else 1) + Rank(ls[1..], i - 1)
  }

  /** Entry `k` is that of line `i`. */
  ghost predicate Of(es: seq<Entry>, ls: seq<Source>, k: nat, i: nat) {
    i < |ls| && k < |es| && !ls[i].Noise? && Rank(ls, i) == k && Matches(es[k], ls[i])
  }

  lemma {:induction false} EntryOf(es: seq<Entry>, ls: seq<Source>, i: nat) returns (k: nat)
    requires Stand(es, ls) && i < |ls| && !ls[i].Noise?
    ensures Of(es, ls, k, i)
    decreases |ls|
  {
    if i == 0 {
      k := 0;
    } else if ls[0].Noise? {
      k := EntryOf(es, ls[1..], i - 1);
    } else {
      var m := EntryOf(es[1..], ls[1..], i - 1);
      k := m + 1;
    }
  }

  lemma {:induction false} LineOf(es: seq<Entry>, ls: seq<Source>, k: nat) returns (i: nat)
    requires Stand(es, ls) && k < |es|
    ensures Of(es, ls, k, i)
    decreases |ls|
  {
    if ls[0].Noise? {
      var j := LineOf(es, ls[1..], k);
      i := j + 1;
    } else if k == 0 {
      i := 0;
    } else {
      var j := LineOf(es[1..], ls[1..], k - 1);
      i := j + 1;
    }
  }

  lemma {:induction false} RankGrows(ls: seq<Source>, i: nat, j: nat)
    requires i < j <= |ls| && !ls[i].Noise?
    ensures Rank(ls, i) < Rank(ls, j)
    decreases |ls|
  {
    if i > 0 {
      RankGrows(ls[1..], i - 1, j - 1);
    }
  }

  lemma InOrder(es: seq<Entry>, ls: seq<Source>, a: nat, i: nat, b: nat, j: nat)
    requires Of(es, ls, a, i) && Of(es, ls, b, j)
    ensures a < b <==> i < j
  {
    if i < j {
      RankGrows(ls, i, j);
    } else if j < i {
      RankGrows(ls, j, i);
    }
  }

  // ---------------------------------------------------------------- the characters of lines and files

  /** Blanks and tabs, then nothing or a comment sign. */
  lemma TailSpelled(t: string)
    ensures IsTail(t) <==>
              || (forall j :: 0 <= j < |t| ==> t[j] == ' ' || t[j] == '\t')
              || (exists k :: 0 <= k < |t| && t[k] == '#' && forall j :: 0 <= j < k ==> t[j] == ' ' || t[j] == '\t')
  {
    NoiseSpelled(t);
    if forall j :: 0 <= j < |t| ==> t[j] == ' ' || t[j] == '\t' {
      SolidFromIs(t, 0, |t|);
    }
    if IsTail(t) && SolidFrom(t, 0) == |t| {
      assert forall j :: 0 <= j < |t| ==> t[j] == ' ' || t[j] == '\t';
    }
  }

  lemma NoiseSpelled(t: string)
    ensures IsComment(t) <==> t == "" || exists k :: 0 <= k < |t| && t[k] == '#' && forall j :: 0 <= j < k ==> t[j] == ' ' || t[j] == '\t'
  {
    if exists k :: 0 <= k < |t| && t[k] == '#' && forall j :: 0 <= j < k ==> t[j] == ' ' || t[j] == '\t' {
      var k :| 0 <= k < |t| && t[k] == '#' && forall j :: 0 <= j < k ==> t[j] == ' ' || t[j] == '\t';
      SolidFromIs(t, 0, k);
    }
    if IsComment(t) && t != "" {
      var k := SolidFrom(t, 0);
      assert t[k] == '#' && forall j :: 0 <= j < k ==> t[j] == ' ' || t[j] == '\t';
    }
  }

  lemma OptionSpelled(opt: string)
    ensures IsOption(opt) <==>
              && (opt != "" ==> opt[0] != ' ' && opt[0] != '\t' && opt[|opt| - 1] != ' ' && opt[|opt| - 1] != '\t')
              && (forall j :: 0 <= j < |opt| ==> opt[j] != '#')
  {
  }

  /** The lines that a table can be written with, character by character. */
  lemma GoodSpelled(l: Source)
    ensures Good(l) <==>
      match l
      case Noise(t) => t == "" || exists k :: 0 <= k < |t| && t[k] == '#' && forall j :: 0 <= j < k ==> t[j] == ' ' || t[j] == '\t'
      case Heading(indent, name, tail) =>
        && (forall j :: 0 <= j < |indent| ==> indent[j] == ' ' || indent[j] == '\t')
        && (forall j :: 0 <= j < |name| ==> name[j] != ' ' && name[j] != '\t' && name[j] != '#')
        && ((forall j :: 0 <= j < |tail| ==> tail[j] == ' ' || tail[j] == '\t')
            || exists k :: 0 <= k < |tail| && tail[k] == '#' && forall j :: 0 <= j < k ==> tail[j] == ' ' || tail[j] == '\t')
      case Setting(name, sep, opt, tail) =>
        && name != "" && name[0] != '*'
        && (forall j :: 0 <= j < |name| ==> name[j] != ' ' && name[j] != '\t' && name[j] != '#')
        && (forall j :: 0 <= j < |sep| ==> sep[j] == ' ' || sep[j] == '\t')
        && (opt != "" ==> sep != "" && opt[0] != ' ' && opt[0] != '\t' && opt[|opt| - 1] != ' ' && opt[|opt| - 1] != '\t')
        && (forall j :: 0 <= j < |opt| ==> opt[j] != '#')
        && ((forall j :: 0 <= j < |tail| ==> tail[j] == ' ' || tail[j] == '\t')
            || exists k :: 0 <= k < |tail| && tail[k] == '#' && forall j :: 0 <= j < k ==> tail[j] == ' ' || tail[j] == '\t')
  {
    match l
    case Noise(t) => NoiseSpelled(t);
    case Heading(indent, name, tail) => TailSpelled(tail);
    case Setting(name, sep, opt, tail) =>
      TailSpelled(tail);
      OptionSpelled(opt);
  }

  /** A file is read up to its first byte 255, and its lines are separated by newlines. */
  lemma {:induction false} ReadableSpelled(f: string, k: nat)
    requires k <= |f| && (k < |f| ==> f[k] as int == 255) && forall i :: 0 <= i < k ==> f[i] as int != 255
    ensures Readable(f) == f[..k]
    decreases k
  {
    if k > 0 {
      ReadableSpelled(f[1..], k - 1);
      assert f[..k] == [f[0]] + f[1..][..k - 1];
    }
  }

  function NewlineSet(t: string): set<int> {
    set i | 0 <= i < |t| && t[i] == '\n'
  }

  lemma {:induction false} NewlinesCounted(t: string)
    ensures Newlines(t) == |NewlineSet(t)|
    decreases |t|
  {
    if t == "" {
      assert NewlineSet(t) == {};
    } else {
      var n := |t| - 1;
      NewlinesCounted(t[..n]);
      NewlinesSnoc(t[..n], t[n]);
      assert t == t[..n] + [t[n]];
      assert NewlineSet(t) == if t[n] == '\n' then NewlineSet(t[..n]) + {n} else NewlineSet(t[..n]);
    }
  }

  lemma NewlinesSpelled(t: string)
    ensures Newlines(t) == |set i | 0 <= i < |t| && t[i] == '\n'|
  {
    NewlinesCounted(t);
    assert NewlineSet(t) == set i | 0 <= i < |t| && t[i] == '\n';
  }

  lemma {:induction false} NewlinesSnoc(t: string, c: char)
    ensures Newlines(t + [c]) == Newlines(t) + (if c == '\n' then 1 else 0)
    decreases |t|
  {
    if t == "" {
      assert t + [c] == [c] && [c][1..] == "";
    } else {
      assert (t + [c])[0] == t[0] && (t + [c])[1..] == t[1..] + [c];
      NewlinesSnoc(t[1..], c);
    }
  }

  // ---------------------------------------------------------------- tables that are accepted

  /** Some heading comes before every item, and there is one. */
  ghost predicate Headed(ls: seq<Source>) {
    exists i :: 0 <= i < |ls| && ls[i].Heading? && forall j :: 0 <= j < i ==> ls[j].Noise?
  }

  lemma {:induction false} HeadedEntries(es: seq<Entry>, ls: seq<Source>)
    requires Stand(es, ls)
    ensures Headed(ls) <==> es != [] && es[0].flag == GROUP
    decreases |ls|
  {
    if ls != [] && ls[0].Noise? {
      var rest := ls[1..];
      HeadedEntries(es, rest);
      if Headed(ls) {
        var i :| 0 <= i < |ls| && ls[i].Heading? && forall j :: 0 <= j < i ==> ls[j].Noise?;
        assert rest[i - 1].Heading? && forall j :: 0 <= j < i - 1 ==> rest[j] == ls[j + 1];
      }
      if Headed(rest) {
        var i :| 0 <= i < |rest| && rest[i].Heading? && forall j :: 0 <= j < i ==> rest[j].Noise?;
        assert ls[i + 1].Heading? && forall j :: 0 < j < i + 1 ==> ls[j] == rest[j - 1];
      }
    } else if ls != [] {
      assert Headed(ls) ==> ls[0].Heading?;
      assert ls[0].Heading? ==> Headed(ls);
    }
  }

  /** A heading stands between two entries exactly when one stands between their lines. */
  lemma BetweenLines(es: seq<Entry>, ls: seq<Source>, a: nat, i: nat, b: nat, j: nat)
    requires Stand(es, ls) && Of(es, ls, a, i) && Of(es, ls, b, j)
    ensures (exists h :: a < h < b && es[h].flag == GROUP) <==> exists h :: i < h < j && ls[h].Heading?
  {
    if exists h :: a < h < b && es[h].flag == GROUP {
      var h :| a < h < b && es[h].flag == GROUP;
      var l := LineOf(es, ls, h);
      InOrder(es, ls, a, i, h, l);
      InOrder(es, ls, h, l, b, j);
    }
    if exists h :: i < h < j && ls[h].Heading? {
      var h :| i < h < j && ls[h].Heading?;
      var k := EntryOf(es, ls, h);
      InOrder(es, ls, a, i, k, h);
      InOrder(es, ls, k, h, b, j);
    }
  }

  ghost predicate GroupsOnce(es: seq<Entry>) {
    forall i, j :: 0 <= i < j < |es| && es[i].flag == GROUP ==> es[i].item != es[j].item
  }

  ghost predicate ItemsOnce(es: seq<Entry>) {
    forall i, j :: 0 <= i < j < |es| && es[i].flag == ITEM && es[j].flag == ITEM && es[i].item == es[j].item ==>
      exists h :: i < h < j && es[h].flag == GROUP
  }

  /** No heading's kept name recurs in a later line. */
  ghost predicate HeadingsOnce(ls: seq<Source>) {
    forall i, j :: 0 <= i < j < |ls| && ls[i].Heading? && !ls[j].Noise? ==> KeptName(ls[i]) != KeptName(ls[j])
  }

  /** Two items of one kept name have a heading between them. */
  ghost predicate SettingsOnce(ls: seq<Source>) {
    forall i, j :: 0 <= i < j < |ls| && ls[i].Setting? && ls[j].Setting? && KeptName(ls[i]) == KeptName(ls[j]) ==>
      exists h :: i < h < j && ls[h].Heading?
  }

  lemma GroupsUnique(es: seq<Entry>, ls: seq<Source>)
    requires Stand(es, ls)
    ensures GroupsOnce(es) <==> HeadingsOnce(ls)
  {
    if GroupsOnce(es) {
      forall i, j | 0 <= i < j < |ls| && ls[i].Heading? && !ls[j].Noise?
        ensures KeptName(ls[i]) != KeptName(ls[j])
      {
        var a := EntryOf(es, ls, i);
        var b := EntryOf(es, ls, j);
        InOrder(es, ls, a, i, b, j);
      }
    }
    if HeadingsOnce(ls) {
      forall a, b | 0 <= a < b < |es| && es[a].flag == GROUP
        ensures es[a].item != es[b].item
      {
        var i := LineOf(es, ls, a);
        var j := LineOf(es, ls, b);
        InOrder(es, ls, a, i, b, j);
      }
    }
  }

  lemma ItemsUnique(es: seq<Entry>, ls: seq<Source>)
    requires Stand(es, ls)
    ensures ItemsOnce(es) <==> SettingsOnce(ls)
  {
    if ItemsOnce(es) {
      forall i, j | 0 <= i < j < |ls| && ls[i].Setting? && ls[j].Setting? && KeptName(ls[i]) == KeptName(ls[j])
        ensures exists h :: i < h < j && ls[h].Heading?
      {
        var a := EntryOf(es, ls, i);
        var b := EntryOf(es, ls, j);
        InOrder(es, ls, a, i, b, j);
        BetweenLines(es, ls, a, i, b, j);
      }
    }
    if SettingsOnce(ls) {
      forall a, b | 0 <= a < b < |es| && es[a].flag == ITEM && es[b].flag == ITEM && es[a].item == es[b].item
        ensures exists h :: a < h < b && es[h].flag == GROUP
      {
        var i := LineOf(es, ls, a);
        var j := LineOf(es, ls, b);
        InOrder(es, ls, a, i, b, j);
        BetweenLines(es, ls, a, i, b, j);
      }
    }
  }

  lemma AcceptedLines(es: seq<Entry>, ls: seq<Source>)
    requires Stand(es, ls) && Numbered(es, 0)
    ensures T.NoDuplicates(es) <==> HeadingsOnce(ls) && SettingsOnce(ls)
  {
    T.AcceptedExactly(es);
    GroupsUnique(es, ls);
    ItemsUnique(es, ls);
  }

  // ---------------------------------------------------------------- what is found

  /** Line `i` is an item of the kept name `item` in the section of line `h`, a heading of the kept name `group`. */
  ghost predicate InSection(ls: seq<Source>, h: nat, i: nat, group: string, item: string)
    requires h < i < |ls|
  {
    && ls[h].Heading? && KeptName(ls[h]) == group && ls[i].Setting? && KeptName(ls[i]) == item
    && forall j :: h < j < i ==> !ls[j].Heading?
  }

  lemma SectionOfLines(es: seq<Entry>, ls: seq<Source>, a: nat, h: nat, b: nat, i: nat, group: string, item: string)
    requires Stand(es, ls) && Of(es, ls, a, h) && Of(es, ls, b, i) && a < b && h < i
    ensures T.Under(es, a, b, group, item) <==> InSection(ls, h, i, group, item)
  {
    BetweenLines(es, ls, a, h, b, i);
  }

  /** The lookup by the lines. */
  lemma LookupMissing(es: seq<Entry>, ls: seq<Source>, group: string, item: string)
    requires Stand(es, ls) && Numbered(es, 0) && T.NoDuplicates(es)
    requires forall h :: 0 <= h < |ls| && ls[h].Heading? ==> KeptName(ls[h]) != group
    ensures T.Lookup(es, group, item) == (-1, "")
  {
    T.LookupSays(es, group, item);
    forall a | 0 <= a < |es| && es[a].flag == GROUP
      ensures es[a].item != group
    {
      var h := LineOf(es, ls, a);
    }
  }

  lemma LookupFinds(es: seq<Entry>, ls: seq<Source>, h: nat, i: nat, group: string, item: string)
    requires Stand(es, ls) && Numbered(es, 0) && T.NoDuplicates(es)
    requires h < i < |ls| && InSection(ls, h, i, group, item)
    ensures T.Lookup(es, group, item) == (0, ls[i].opt)
  {
    T.LookupSays(es, group, item);
    var a := EntryOf(es, ls, h);
    var b := EntryOf(es, ls, i);
    InOrder(es, ls, a, h, b, i);
    SectionOfLines(es, ls, a, h, b, i, group, item);
  }

  lemma LookupLacks(es: seq<Entry>, ls: seq<Source>, h: nat, group: string, item: string)
    requires Stand(es, ls) && Numbered(es, 0) && T.NoDuplicates(es)
    requires h < |ls| && ls[h].Heading? && KeptName(ls[h]) == group && forall i :: h < i < |ls| ==> !InSection(ls, h, i, group, item)
    ensures T.Lookup(es, group, item) == (-2, "")
  {
    T.LookupSays(es, group, item);
    var a := EntryOf(es, ls, h);
    forall b | a < b < |es|
      ensures !T.Under(es, a, b, group, item)
    {
      var i := LineOf(es, ls, b);
      InOrder(es, ls, a, h, b, i);
      SectionOfLines(es, ls, a, h, b, i, group, item);
    }
  }

  // ---------------------------------------------------------------- from the bytes of the file

  lemma {:induction false} KeptNumbered(ls: seq<Source>, groups: nat, num: int)
    requires groups > 0 || Kept(ls, groups, num) == [] || Kept(ls, groups, num)[0].flag == GROUP
    ensures Numbered(Kept(ls, groups, num), groups)
    decreases |ls|
  {
    if ls != [] {
      var l, rest := ls[0], ls[1..];
      var group := if l.Heading? then groups + 1 else groups;
      var later := Kept(rest, group, num + 1);
      if l.Noise? {
        assert [] + later == later;
        KeptNumbered(rest, group, num + 1);
      } else {
        assert Kept(ls, groups, num)[0] == KeptEntry(l, group, num);
        KeptNumbered(rest, group, num + 1);
        NumberedCons(KeptEntry(l, group, num), later, groups);
      }
    }
  }

  /** The lines that are headings. */
  function HeadingLines(ls: seq<Source>): set<int> {
    set i | 0 <= i < |ls| && ls[i].Heading?
  }

  lemma {:induction false} HeadingsSnoc(ls: seq<Source>, l: Source)
    ensures Headings(ls + [l]) == Headings(ls) + (if l.Heading? then 1 else 0)
    decreases |ls|
  {
    if ls == [] {
      assert [] + [l] == [l] && [l][1..] == [];
    } else {
      assert (ls + [l])[0] == ls[0] && (ls + [l])[1..] == ls[1..] + [l];
      HeadingsSnoc(ls[1..], l);
    }
  }

  lemma {:induction false} HeadingsAreLines(ls: seq<Source>)
    ensures Headings(ls) == |HeadingLines(ls)|
    decreases |ls|
  {
    if ls == [] {
      assert HeadingLines(ls) == {};
    } else {
      var n := |ls| - 1;
      HeadingsAreLines(ls[..n]);
      HeadingsSnoc(ls[..n], ls[n]);
      assert ls == ls[..n] + [ls[n]];
      assert HeadingLines(ls) == if ls[n].Heading? then HeadingLines(ls[..n]) + {n} else HeadingLines(ls[..n]);
    }
  }

  /** What TableValue gives for a table in terms of its lines. */
  lemma ValueOfTable(ls: seq<Source>, group: string, item: string)
    ensures |ls| > 3000 || !Headed(ls) ==> TableValue(ls, group, item) == (-1, "")
    ensures |ls| <= 3000 && Headed(ls) && (|HeadingLines(ls)| > 255 || !HeadingsOnce(ls) || !SettingsOnce(ls)) ==>
              TableValue(ls, group, item) == (-2, "")
    ensures |ls| <= 3000 && Headed(ls) && |HeadingLines(ls)| <= 255 && HeadingsOnce(ls) && SettingsOnce(ls) ==>
              && Numbered(Kept(ls, 0, 1), 0) && T.NoDuplicates(Kept(ls, 0, 1)) && Stand(Kept(ls, 0, 1), ls)
              && TableValue(ls, group, item) == T.Lookup(Kept(ls, 0, 1), group, item)
  {
    var es := Kept(ls, 0, 1);
    KeptStand(ls, 0, 1);
    HeadedEntries(es, ls);
    HeadingsAreLines(ls);
    RawsCount(ls);
    if Headed(ls) {
      KeptNumbered(ls, 0, 1);
      AcceptedLines(es, ls);
      if T.NoDuplicates(es) {
        T.LookupIsNested(es, group, item);
      }
    }
  }

  lemma {:induction false} RawsCount(ls: seq<Source>)
    ensures |Raws(ls)| == |ls|
  {
    if ls != [] {
      RawsCount(ls[1..]);
    }
  }

  /** The answers for a table that is not refused. */
  lemma AnswersOfTable(ls: seq<Source>, group: string, item: string)
    requires |ls| <= 3000 && Headed(ls) && |HeadingLines(ls)| <= 255 && HeadingsOnce(ls) && SettingsOnce(ls)
    ensures (forall h :: 0 <= h < |ls| && ls[h].Heading? ==> KeptName(ls[h]) != group) ==> TableValue(ls, group, item) == (-1, "")
    ensures forall h, i :: 0 <= h < i < |ls| && InSection(ls, h, i, group, item) ==> TableValue(ls, group, item) == (0, ls[i].opt)
    ensures forall h :: 0 <= h < |ls| && ls[h].Heading? && KeptName(ls[h]) == group ==>
              (forall i :: h < i < |ls| ==> !InSection(ls, h, i, group, item)) ==> TableValue(ls, group, item) == (-2, "")
  {
    ValueOfTable(ls, group, item);
    var es := Kept(ls, 0, 1);
    if forall h :: 0 <= h < |ls| && ls[h].Heading? ==> KeptName(ls[h]) != group {
      LookupMissing(es, ls, group, item);
    }
    forall h, i | 0 <= h < i < |ls| && InSection(ls, h, i, group, item)
      ensures T.Lookup(es, group, item) == (0, ls[i].opt)
    {
      LookupFinds(es, ls, h, i, group, item);
    }
    forall h | 0 <= h < |ls| && ls[h].Heading? && KeptName(ls[h]) == group && forall i :: h < i < |ls| ==> !InSection(ls, h, i, group, item)
      ensures T.Lookup(es, group, item) == (-2, "")
    {
      LookupLacks(es, ls, h, group, item);
    }
  }

  /** The lookup in a file that a table was written to, by its lines. A heading keeps 31 characters of its name, an
      item 30, or else 31 with its option behind them. There is no result for more than 3000 lines or an item
      before every heading (-1), nor for more than 255 headings, a heading whose kept name recurs in a later line,
      or two items of one kept name without a heading between them (-2). */
  method LookUpTable(f: string, group: string, item: string, ghost ls: seq<Source>) returns (rc: int, opt: string)
    requires AllGood(ls) && IsTextOf(f, Raws(ls)) && Storable(Raws(ls)) && Clear(Raws(ls))
    ensures (rc, opt) == TableValue(ls, group, item)
    ensures |ls| > 3000 || !(exists i :: 0 <= i < |ls| && ls[i].Heading? && forall j :: 0 <= j < i ==> ls[j].Noise?) ==>
              (rc, opt) == (-1, "")
  {
    ValueOfTable(ls, group, item);
    rc, opt := LookUpWritten(f, group, item, ls);
  }

  /** Which tables are refused with -2; `kept` are the names that are kept of the lines. */
  lemma TableRefused(ls: seq<Source>, kept: seq<string>, group: string, item: string)
    requires |kept| == |ls| && forall i :: 0 <= i < |ls| ==>
               kept[i] == if ls[i].Noise? then "" else if ls[i].Heading? then (if |ls[i].name| <= 31 then ls[i].name else ls[i].name[..31])
                          else if |ls[i].name| < 31 then ls[i].name else ls[i].name[..31] + ls[i].opt
    requires |ls| <= 3000 && exists i :: 0 <= i < |ls| && ls[i].Heading? && forall j :: 0 <= j < i ==> ls[j].Noise?
    ensures |(set i | 0 <= i < |ls| && ls[i].Heading?)| > 255
            || (exists i, j :: 0 <= i < j < |ls| && ls[i].Heading? && !ls[j].Noise? && kept[i] == kept[j])
            || (exists i, j :: 0 <= i < j < |ls| && ls[i].Setting? && ls[j].Setting? && kept[i] == kept[j]
                            && forall h :: i < h < j ==> !ls[h].Heading?)
            ==> TableValue(ls, group, item) == (-2, "")
  {
    assert forall i :: 0 <= i < |ls| ==> kept[i] == KeptName(ls[i]);
    ValueOfTable(ls, group, item);
  }

  /** What is found in every other table: the option of the item of the kept name in the section of the heading of
      the kept name; -2 when the section has no such item, -1 when there is no such heading. */
  lemma TableAccepted(ls: seq<Source>, kept: seq<string>, group: string, item: string)
    requires |kept| == |ls| && forall i :: 0 <= i < |ls| ==>
               kept[i] == if ls[i].Noise? then "" else if ls[i].Heading? then (if |ls[i].name| <= 31 then ls[i].name else ls[i].name[..31])
                          else if |ls[i].name| < 31 then ls[i].name else ls[i].name[..31] + ls[i].opt
    requires |ls| <= 3000 && exists i :: 0 <= i < |ls| && ls[i].Heading? && forall j :: 0 <= j < i ==> ls[j].Noise?
    requires |(set i | 0 <= i < |ls| && ls[i].Heading?)| <= 255
    requires forall i, j :: 0 <= i < j < |ls| && ls[i].Heading? && !ls[j].Noise? ==> kept[i] != kept[j]
    requires forall i, j :: 0 <= i < j < |ls| && ls[i].Setting? && ls[j].Setting? && kept[i] == kept[j] ==>
               exists h :: i < h < j && ls[h].Heading?
    ensures (forall h :: 0 <= h < |ls| && ls[h].Heading? ==> kept[h] != group) ==> TableValue(ls, group, item) == (-1, "")
    ensures forall h, i :: 0 <= h < i < |ls| && ls[h].Heading? && kept[h] == group && ls[i].Setting? && kept[i] == item ==>
              (forall j :: h < j < i ==> !ls[j].Heading?) ==> TableValue(ls, group, item) == (0, ls[i].opt)
    ensures forall h :: 0 <= h < |ls| && ls[h].Heading? && kept[h] == group ==>
              (forall i :: h < i < |ls| && ls[i].Setting? && kept[i] == item ==> exists j :: h < j < i && ls[j].Heading?) ==>
              TableValue(ls, group, item) == (-2, "")
  {
    assert forall i :: 0 <= i < |ls| ==> kept[i] == KeptName(ls[i]);
    AnswersOfTable(ls, group, item);
    forall h, i | 0 <= h < i < |ls| && ls[h].Heading? && kept[h] == group && ls[i].Setting? && kept[i] == item
                  && forall j :: h < j < i ==> !ls[j].Heading?
      ensures TableValue(ls, group, item) == (0, ls[i].opt)
    {
      assert InSection(ls, h, i, group, item);
    }
    forall h | 0 <= h < |ls| && ls[h].Heading? && kept[h] == group
               && forall i :: h < i < |ls| && ls[i].Setting? && kept[i] == item ==> exists j :: h < j < i && ls[j].Heading?
      ensures TableValue(ls, group, item) == (-2, "")
    {
      assert forall i :: h < i < |ls| ==> !InSection(ls, h, i, group, item);
    }
  }
}
