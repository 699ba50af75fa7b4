/** What the configuration loader of lib_src/com/dap_update_cfg.c makes of one line of text, and of a
    list of lines: comments, group headings `*NAME`, and items `name option`. */
module ConfigText {
  predicate IsBlank(c: char) {
    c == ' ' || c == '\t'
  }

  predicate Blank(s: string) {
    forall i :: 0 <= i < |s| ==> IsBlank(s[i])
  }

  /** The first offset from `i` on that is not blank; the length when there is none. */
  function SolidFrom(t: string, i: nat): (k: nat)
    requires i <= |t|
    ensures i <= k <= |t| && (k < |t| ==> !IsBlank(t[k])) && forall j :: i <= j < k ==> IsBlank(t[j])
    decreases |t| - i
  {
    if i == |t| || !IsBlank(t[i]) then i else SolidFrom(t, i + 1)
  }

  /** The first blank from `i` on; the length when there is none. */
  function WordEnd(t: string, i: nat): (k: nat)
    requires i <= |t|
    ensures i <= k <= |t| && (k < |t| ==> IsBlank(t[k])) && forall j :: i <= j < k ==> !IsBlank(t[j])
    decreases |t| - i
  {
    if i == |t| || IsBlank(t[i]) then i else WordEnd(t, i + 1)
  }

  /** The offset of the first '#'; the length when there is none. */
  function HashAt(t: string, i: nat): (k: nat)
    requires i <= |t|
    ensures i <= k <= |t| && (k < |t| ==> t[k] == '#') && forall j :: i <= j < k ==> t[j] != '#'
    decreases |t| - i
  {
    if i == |t| || t[i] == '#' then i else HashAt(t, i + 1)
  }

  /** The length of t[..n] without the blanks at its end. */
  function SolidLength(t: string, n: nat): (k: nat)
    requires n <= |t|
    ensures k <= n && (k > 0 ==> !IsBlank(t[k - 1])) && forall j :: k <= j < n ==> IsBlank(t[j])
  {
    if n == 0 || !IsBlank(t[n - 1]) then n else SolidLength(t, n - 1)
  }

  lemma SolidFromIs(t: string, i: nat, k: nat)
    requires i <= k <= |t| && (k < |t| ==> !IsBlank(t[k])) && forall j :: i <= j < k ==> IsBlank(t[j])
    ensures SolidFrom(t, i) == k
  {
  }

  lemma WordEndIs(t: string, i: nat, k: nat)
    requires i <= k <= |t| && (k < |t| ==> IsBlank(t[k])) && forall j :: i <= j < k ==> !IsBlank(t[j])
    ensures WordEnd(t, i) == k
  {
  }

  lemma HashAtIs(t: string, k: nat)
    requires k <= |t| && (k < |t| ==> t[k] == '#') && forall j :: 0 <= j < k ==> t[j] != '#'
    ensures HashAt(t, 0) == k
  {
  }

  lemma SolidLengthIs(t: string, n: nat, k: nat)
    requires k <= n <= |t| && (k > 0 ==> !IsBlank(t[k - 1])) && forall j :: k <= j < n ==> IsBlank(t[j])
    ensures SolidLength(t, n) == k
  {
  }

  /** func_conf_lib_Get_Comment: an empty line, or one whose first solid character is '#'. A line of
      blanks only is not a comment. */
  predicate IsComment(t: string) {
    t == "" || (SolidFrom(t, 0) < |t| && t[SolidFrom(t, 0)] == '#')
  }

  /** func_conf_lib_Cut_Comment: drop the trailing comment, then the blanks at the end. A line of blanks
      only keeps them. */
  function CutText(t: string): string {
    var t1 := t[..HashAt(t, 0)];
    var k := SolidLength(t1, |t1|);
    if k == 0 then t1 else t1[..k]
  }

  /** func_conf_lib_Chk_Item: 1 for a group heading. */
  predicate IsGroup(t: string) {
    t == "" || (SolidFrom(t, 0) < |t| && t[SolidFrom(t, 0)] == '*')
  }

  /** Where the name of a group heading starts: past the blanks and one star. */
  function NameStart(t: string): (k: nat)
    ensures k <= |t|
  {
    var s := SolidFrom(t, 0);
    if s < |t| && t[s] == '*' then s + 1 else s
  }

  function GroupName(t: string): string {
    t[NameStart(t)..WordEnd(t, NameStart(t))]
  }

  function ItemName(t: string): string {
    t[..WordEnd(t, 0)]
  }

  function ItemOpt(t: string): string {
    t[SolidFrom(t, WordEnd(t, 0))..]
  }

  // ---------------------------------------------------------------- entries

  const GROUP := 1
  const ITEM := 2

  /** `func_conf_lib_config_struct`; `item` and `opt` as C strings. */
  datatype Entry = Entry(flag: int, group: int, item: string, opt: string, num: int)

  /** A line that counts: its number and its text after cutting. */
  datatype Line = Line(num: int, text: string)

  const ITEM_SIZE: nat := 31
  const OPT_SIZE: nat := 257

  /** A name that overflows its 31 bytes runs into the option field, which is then emptied. */
  function GroupEntry(l: Line, group: int): Entry {
    var name := GroupName(l.text);
    Entry(GROUP, group, if |name| <= ITEM_SIZE then name else name[..ITEM_SIZE], "", l.num)
  }

  /** A name that fills its 31 bytes has no terminator and reads on into the option. */
  function ItemEntry(l: Line, group: int): Entry {
    var name, opt := ItemName(l.text), ItemOpt(l.text);
    Entry(ITEM, group, if |name| < ITEM_SIZE then name else name[..ITEM_SIZE] + opt, opt, l.num)
  }

  const MAX_GROUPS := 255

  /** The entries of the lines, `groups` headings having been read; filling stops at the heading that
      would be number 256. */
  function Entries(ls: seq<Line>, groups: nat): seq<Entry>
    decreases |ls|
  {
    if ls == [] then []
    else if IsGroup(ls[0].text) then
      if groups >= MAX_GROUPS then [] else [GroupEntry(ls[0], groups + 1)] + Entries(ls[1..], groups + 1)
    else [ItemEntry(ls[0], groups)] + Entries(ls[1..], groups)
  }

  function GroupCount(ls: seq<Line>): nat {
    if ls == [] then 0 else (if IsGroup(ls[0].text) then 1 else 0) + GroupCount(ls[1..])
  }

  /** func_conf_lib_Test_Parser on the lines: their number, or -6 when the first is no heading. */
  function TestResult(ls: seq<Line>): int {
    if ls == [] then 0 else if IsGroup(ls[0].text) then |ls| else -6
  }

  /** func_conf_lib_Load_Parser on the lines. */
  function LoadResult(ls: seq<Line>): int {
    if ls == [] then 0 else if !IsGroup(ls[0].text) then -7 else if GroupCount(ls) > MAX_GROUPS then -6 else 0
  }

  function HeadingCount(es: seq<Entry>): nat {
    if es == [] then 0 else HeadingCount(es[..|es| - 1]) + (if es[|es| - 1].flag == GROUP then 1 else 0)
  }

  lemma {:induction false} HeadingFirst(e: Entry, es: seq<Entry>)
    ensures HeadingCount([e] + es) == (if e.flag == GROUP then 1 else 0) + HeadingCount(es)
  {
    if es == [] {
      assert [e] + es == [e] && [e][..0] == [];
    } else {
      assert ([e] + es)[..|es|] == [e] + es[..|es| - 1];
      HeadingFirst(e, es[..|es| - 1]);
    }
  }

  /** The shape of a filled table: entries of the two kinds, each carrying the number of headings up to
      it, `groups` having come before, so that group numbers rise by one at each heading. */
  ghost predicate Numbered(es: seq<Entry>, groups: nat) {
    forall k :: 0 <= k < |es| ==>
      (es[k].flag == GROUP || es[k].flag == ITEM) && 1 <= es[k].group == groups + HeadingCount(es[..k + 1])
  }

  lemma NumberedCons(e: Entry, es: seq<Entry>, groups: nat)
    requires e.flag == GROUP || e.flag == ITEM
    requires var g := groups + (if e.flag == GROUP then 1 else 0);
             1 <= g == e.group && Numbered(es, g)
    ensures Numbered([e] + es, groups)
  {
    var xs := [e] + es;
    forall k | 0 <= k < |xs|
      ensures (xs[k].flag == GROUP || xs[k].flag == ITEM) && 1 <= xs[k].group == groups + HeadingCount(xs[..k + 1])
    {
      assert xs[..k + 1] == [e] + es[..k];
      HeadingFirst(e, es[..k]);
      if k > 0 {
        assert es[..k - 1 + 1] == es[..k];
      }
    }
  }

  lemma {:induction false} EntriesNumbered(ls: seq<Line>, groups: nat)
    requires groups > 0 || ls == [] || IsGroup(ls[0].text)
    ensures Numbered(Entries(ls, groups), groups)
    decreases |ls|
  {
    if ls != [] {
      if !IsGroup(ls[0].text) {
        EntriesNumbered(ls[1..], groups);
        NumberedCons(ItemEntry(ls[0], groups), Entries(ls[1..], groups), groups);
      } else if groups < MAX_GROUPS {
        EntriesNumbered(ls[1..], groups + 1);
        NumberedCons(GroupEntry(ls[0], groups + 1), Entries(ls[1..], groups + 1), groups);
      }
    }
  }

  lemma {:induction false} EntriesCount(ls: seq<Line>, groups: nat)
    ensures |Entries(ls, groups)| <= |ls|
    ensures |Entries(ls, groups)| == |ls| <==> groups + GroupCount(ls) <= MAX_GROUPS || GroupCount(ls) == 0
    decreases |ls|
  {
    if ls != [] {
      EntriesCount(ls[1..], if IsGroup(ls[0].text) then groups + 1 else groups);
    }
  }

  /** On a file that the counting pass accepts, loading succeeds exactly when there are at most 255 groups,
      and exactly then fills as many entries as were counted. */
  lemma PassesAgree(ls: seq<Line>)
    requires TestResult(ls) > 0
    ensures LoadResult(ls) == 0 <==> GroupCount(ls) <= MAX_GROUPS
    ensures LoadResult(ls) == 0 <==> |Entries(ls, 0)| == TestResult(ls)
    ensures Numbered(Entries(ls, 0), 0) && Entries(ls, 0) != [] && Entries(ls, 0)[0].flag == GROUP
  {
    EntriesNumbered(ls, 0);
    EntriesCount(ls, 0);
  }

  /** The lines that count among `rows`, numbered from `num`: no comments, and each one cut. */
  function CountedLines(rows: seq<string>, num: int): seq<Line> {
    if rows == [] then []
    else (if IsComment(rows[0]) then [] else [Line(num, CutText(rows[0]))]) + CountedLines(rows[1..], num + 1)
  }
}
