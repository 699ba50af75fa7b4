/** The loaded configuration table of lib_src/com/dap_update_cfg.c: the quadratic duplicate check and the
    lookup of one option, against the nested map group -> item -> option. */
module ConfigTable {
  import opened CStrings
  import opened ConfigText

  // ---------------------------------------------------------------- the duplicate check

  /** A group name recurs in a later entry of either kind. */
  predicate Clash1(a: Entry, b: Entry) {
    a.flag == GROUP && a.item == b.item
  }

  /** An item name recurs within its group. */
  predicate Clash2(a: Entry, b: Entry) {
    a.flag == ITEM && a.item == b.item && a.group == b.group
  }

  ghost predicate NoClash1(es: seq<Entry>) {
    forall i, j {:trigger es[i], es[j]} :: 0 <= i < j < |es| ==> !Clash1(es[i], es[j])
  }

  ghost predicate NoClash2(es: seq<Entry>) {
    forall i, j {:trigger es[i], es[j]} :: 0 <= i < j < |es| ==> !Clash2(es[i], es[j])
  }

  /** The first loop pair of func_conf_lib_Duplication_Check. */
  method CheckGroups(es: array<Entry>, n: nat) returns (rc: int)
    requires n <= es.Length
    ensures rc == if NoClash1(es[..n]) then 0 else -1
  {
    rc := 0;
    var count := 0;
    while count < n
      invariant count <= n && forall i, j :: 0 <= i < count && i < j < n ==> !Clash1(es[i], es[j])
    {
      if es[count].flag == GROUP {
        var sub := count + 1;
        while sub < n
          invariant count < sub <= n && forall j :: count < j < sub ==> !Clash1(es[count], es[j])
        {
          if es[count].flag == GROUP && es[count].item == es[sub].item {
            assert Clash1(es[..n][count], es[..n][sub]);
            return -1;
          }
          sub := sub + 1;
        }
      }
      count := count + 1;
    }
  }

  /** The second loop pair. */
  method CheckItems(es: array<Entry>, n: nat) returns (rc: int)
    requires n <= es.Length
    ensures rc == if NoClash2(es[..n]) then 0 else -1
  {
    rc := 0;
    var count := 0;
    while count < n
      invariant count <= n && forall i, j :: 0 <= i < count && i < j < n ==> !Clash2(es[i], es[j])
    {
      if es[count].flag == ITEM {
        var sub := count + 1;
        while sub < n
          invariant count < sub <= n && forall j :: count < j < sub ==> !Clash2(es[count], es[j])
        {
          if es[count].flag == ITEM && es[count].item == es[sub].item && es[count].group == es[sub].group {
            assert Clash2(es[..n][count], es[..n][sub]);
            return -1;
          }
          sub := sub + 1;
        }
      }
      count := count + 1;
    }
  }

  ghost predicate NoDuplicates(es: seq<Entry>) {
    NoClash1(es) && NoClash2(es)
  }

  lemma {:induction false} HeadingsBetween(es: seq<Entry>, i: nat, j: nat)
    requires i <= j <= |es|
    ensures HeadingCount(es[..i]) <= HeadingCount(es[..j])
    ensures HeadingCount(es[..i]) == HeadingCount(es[..j]) <==> forall h :: i <= h < j ==> es[h].flag != GROUP
    decreases j
  {
    if i < j {
      assert es[..j][..j - 1] == es[..j - 1];
      HeadingsBetween(es, i, j - 1);
    }
  }

  /** Two entries carry the same group number exactly when no heading comes after the first up to the second. */
  lemma SameGroup(es: seq<Entry>, i: nat, j: nat)
    requires Numbered(es, 0) && i < j < |es|
    ensures es[i].group == es[j].group <==> forall h :: i < h <= j ==> es[h].flag != GROUP
  {
    HeadingsBetween(es, i + 1, j + 1);
  }

  /** Two items are in different groups exactly when a heading stands between them. */
  lemma ItemsApart(es: seq<Entry>, i: nat, j: nat)
    requires Numbered(es, 0) && i < j < |es| && es[j].flag == ITEM
    ensures es[i].group != es[j].group <==> exists h :: i < h < j && es[h].flag == GROUP
  {
    SameGroup(es, i, j);
  }

  lemma ItemsAccepted(es: seq<Entry>)
    requires Numbered(es, 0)
    ensures NoClash2(es) <==>
              forall i, j :: 0 <= i < j < |es| && es[i].flag == ITEM && es[j].flag == ITEM && es[i].item == es[j].item ==>
                exists h :: i < h < j && es[h].flag == GROUP
  {
    forall i, j | 0 <= i < j < |es|
      ensures Clash2(es[i], es[j]) <==>
                && es[i].flag == ITEM && es[j].flag == ITEM && es[i].item == es[j].item
                && !exists h :: i < h < j && es[h].flag == GROUP
    {
      if es[j].flag == ITEM {
        ItemsApart(es, i, j);
      } else {
        SameGroup(es, i, j);
      }
    }
  }

  /** The filled tables that the duplicate check accepts: no heading's name recurs in any later entry, and two
      items of one name have a heading between them. */
  lemma AcceptedExactly(es: seq<Entry>)
    requires Numbered(es, 0)
    ensures NoDuplicates(es) <==>
              && (forall i, j :: 0 <= i < j < |es| && es[i].flag == GROUP ==> es[i].item != es[j].item)
              && (forall i, j :: 0 <= i < j < |es| && es[i].flag == ITEM && es[j].flag == ITEM && es[i].item == es[j].item ==>
                    exists h :: i < h < j && es[h].flag == GROUP)
  {
    ItemsAccepted(es);
    assert NoClash1(es) <==> forall i, j :: 0 <= i < j < |es| && es[i].flag == GROUP ==> es[i].item != es[j].item;
  }

  /** func_conf_lib_Duplication_Check accepts exactly the tables in which no group name recurs in any
      later entry and no item name recurs within its group. */
  method DuplicationCheck(es: array<Entry>, n: nat) returns (rc: int)
    requires n <= es.Length
    ensures rc == if NoDuplicates(es[..n]) then 0 else -1
    ensures var t := es[..n];
            Numbered(t, 0) ==>
              (rc == 0 <==>
                && (forall i, j :: 0 <= i < j < |t| && t[i].flag == GROUP ==> t[i].item != t[j].item)
                && (forall i, j :: 0 <= i < j < |t| && t[i].flag == ITEM && t[j].flag == ITEM && t[i].item == t[j].item ==>
                      exists h :: i < h < j && t[h].flag == GROUP))
  {
    if Numbered(es[..n], 0) {
      AcceptedExactly(es[..n]);
    }
    rc := CheckGroups(es, n);
    if rc < 0 {
      return;
    }
    rc := CheckItems(es, n);
  }

  // ---------------------------------------------------------------- the nested map

  /** The name of the last group heading in the table. */
  function LastName(es: seq<Entry>): Option<string> {
    if es == [] then None
    else if es[|es| - 1].flag == GROUP then Some(es[|es| - 1].item)
    else LastName(es[..|es| - 1])
  }

  /** The table read as a map from group to item to option: a heading opens a group, an item belongs to
      the group opened last. */
  function Nested(es: seq<Entry>): map<string, map<string, string>> {
    if es == [] then map[]
    else
      var e, m := es[|es| - 1], Nested(es[..|es| - 1]);
      if e.flag == GROUP then m[e.item := map[]]
      else match LastName(es[..|es| - 1])
        case None => m
        case Some(g) => m[g := (if g in m then m[g] else map[])[e.item := e.opt]]
  }

  /** The first heading named `name`, from `i` on. */
  function FindGroup(es: seq<Entry>, name: string, i: nat): (r: Option<nat>)
    requires i <= |es|
    ensures r.Some? ==> i <= r.value < |es| && es[r.value].flag == GROUP && es[r.value].item == name
    decreases |es| - i
  {
    if i == |es| then None
    else if es[i].flag == GROUP && es[i].item == name then Some(i)
    else FindGroup(es, name, i + 1)
  }

  function FindItem(es: seq<Entry>, name: string, group: int, i: nat): (r: Option<nat>)
    requires i <= |es|
    ensures r.Some? ==> i <= r.value < |es| && es[r.value].flag == ITEM && es[r.value].item == name && es[r.value].group == group
    decreases |es| - i
  {
    if i == |es| then None
    else if es[i].flag == ITEM && es[i].item == name && es[i].group == group then Some(i)
    else FindItem(es, name, group, i + 1)
  }

  /** The lookup of ConfigGetValue on a loaded table: a result code and the option. */
  function Lookup(es: seq<Entry>, group: string, item: string): (int, string) {
    match FindGroup(es, group, 0)
    case None => (-1, "")
    case Some(g) =>
      if es[g].group <= 0 then (-1, "")
      else match FindItem(es, item, es[g].group, 0)
        case None => (-2, "")
        case Some(k) => (0, es[k].opt)
  }

  function NestedLookup(m: map<string, map<string, string>>, group: string, item: string): (int, string) {
    if group !in m then (-1, "") else if item !in m[group] then (-2, "") else (0, m[group][item])
  }

  /** The two search loops of ConfigGetValue. */
  method LookupLoops(es: array<Entry>, n: nat, group: string, item: string) returns (rc: int, opt: string)
    requires n <= es.Length
    ensures (rc, opt) == Lookup(es[..n], group, item)
  {
    var c, id := 0, 0;
    while c < n
      invariant c <= n && id == 0 && FindGroup(es[..n], group, 0) == FindGroup(es[..n], group, c)
    {
      if es[c].flag == GROUP && es[c].item == group {
        id := es[c].group;
        break;
      }
      c := c + 1;
    }
    if id <= 0 {
      return -1, "";
    }
    ghost var g := id;
    c := 0;
    while c < n
      invariant c <= n && FindItem(es[..n], item, g, 0) == FindItem(es[..n], item, g, c)
    {
      if es[c].flag == ITEM && es[c].item == item && es[c].group == id {
        return 0, es[c].opt;
      }
      c := c + 1;
    }
    return -2, "";
  }

  // ---------------------------------------------------------------- the lookup is the nested map

  lemma {:induction false} FindGroupSnoc(es: seq<Entry>, e: Entry, name: string, i: nat)
    requires i <= |es|
    ensures FindGroup(es + [e], name, i)
         == if FindGroup(es, name, i).Some? then FindGroup(es, name, i)
            else if e.flag == GROUP && e.item == name then Some(|es|) else None
    decreases |es| - i
  {
    if i < |es| {
      FindGroupSnoc(es, e, name, i + 1);
    }
  }

  lemma {:induction false} FindItemSnoc(es: seq<Entry>, e: Entry, name: string, group: int, i: nat)
    requires i <= |es|
    ensures FindItem(es + [e], name, group, i)
         == if FindItem(es, name, group, i).Some? then FindItem(es, name, group, i)
            else if e.flag == ITEM && e.item == name && e.group == group then Some(|es|) else None
    decreases |es| - i
  {
    if i < |es| {
      FindItemSnoc(es, e, name, group, i + 1);
    }
  }

  lemma {:induction false} HeadingsGrow(es: seq<Entry>, k: nat)
    requires k <= |es|
    ensures HeadingCount(es[..k]) <= HeadingCount(es)
    decreases |es| - k
  {
    if k == |es| {
      assert es[..k] == es;
    } else {
      HeadingsGrow(es, k + 1);
      assert es[..k + 1][..k] == es[..k];
    }
  }

  lemma GroupsBounded(es: seq<Entry>, k: nat)
    requires Numbered(es, 0) && k < |es|
    ensures es[k].group <= HeadingCount(es)
  {
    HeadingsGrow(es, k + 1);
  }

  /** The last heading carries the highest group number, and no other heading does. */
  lemma {:induction false} LastHeading(es: seq<Entry>) returns (g: nat)
    requires Numbered(es, 0) && es != []
    ensures g < |es| && es[g].flag == GROUP && LastName(es) == Some(es[g].item) && es[g].group == HeadingCount(es)
    ensures forall k :: 0 <= k < |es| && k != g && es[k].flag == GROUP ==> es[k].group < HeadingCount(es)
  {
    var n := |es| - 1;
    assert es[..n + 1] == es;
    NumberedPrefix(es, n);
    if es[n].flag == GROUP {
      g := n;
      forall k | 0 <= k < n
        ensures es[k].group < HeadingCount(es)
      {
        GroupsBounded(es[..n], k);
      }
    } else {
      assert 1 <= es[n].group == HeadingCount(es) == HeadingCount(es[..n]);
      assert es[..n] != [];
      g := LastHeading(es[..n]);
    }
  }

  lemma NumberedPrefix(es: seq<Entry>, n: nat)
    requires Numbered(es, 0) && n <= |es|
    ensures Numbered(es[..n], 0)
  {
    forall k | 0 <= k < n
      ensures 1 <= es[..n][k].group == HeadingCount(es[..n][..k + 1])
    {
      assert es[..n][..k + 1] == es[..k + 1];
    }
  }

  lemma NoDuplicatesPrefix(es: seq<Entry>, e: Entry)
    requires NoDuplicates(es + [e])
    ensures NoDuplicates(es)
    ensures forall k :: 0 <= k < |es| ==> !Clash1(es[k], e) && !Clash2(es[k], e)
  {
    var xs := es + [e];
    forall i, j | 0 <= i < j < |es|
      ensures !Clash1(es[i], es[j]) && !Clash2(es[i], es[j])
    {
      assert xs[i] == es[i] && xs[j] == es[j];
    }
    forall k | 0 <= k < |es|
      ensures !Clash1(es[k], e) && !Clash2(es[k], e)
    {
      assert xs[k] == es[k] && xs[|es|] == e;
    }
  }

  /** A new heading: no earlier one has its name, and no item belongs to it yet. */
  lemma LookupHeading(es: seq<Entry>, e: Entry, group: string, item: string)
    requires Numbered(es + [e], 0) && NoDuplicates(es + [e]) && e.flag == GROUP
    ensures Lookup(es + [e], group, item) == if e.item == group then (-2, "") else Lookup(es, group, item)
  {
    var xs := es + [e];
    assert xs[..|es| + 1] == xs && xs[..|es|] == es;
    NoDuplicatesPrefix(es, e);
    NumberedPrefix(xs, |es|);
    FindGroupSnoc(es, e, group, 0);
    var g := if e.item == group then e.group else if FindGroup(es, group, 0).Some? then es[FindGroup(es, group, 0).value].group else 0;
    FindItemSnoc(es, e, item, g, 0);
    if e.item == group && FindItem(es, item, e.group, 0).Some? {
      GroupsBounded(es, FindItem(es, item, e.group, 0).value);
    }
  }

  lemma ItemHasHeading(es: seq<Entry>, e: Entry)
    requires Numbered(es + [e], 0) && e.flag == ITEM
    ensures Numbered(es, 0) && es != [] && e.group == HeadingCount(es)
  {
    var xs := es + [e];
    assert xs[..|es| + 1] == xs && xs[..|es|] == es;
    NumberedPrefix(xs, |es|);
    assert xs[|es|] == e && HeadingCount(xs) == HeadingCount(es);
    assert xs[|es|].group == HeadingCount(xs[..|es| + 1]);
  }

  lemma SameHeading(es: seq<Entry>, g: nat, h: nat)
    requires NoDuplicates(es) && g < |es| && h < |es|
    requires es[g].flag == GROUP && es[h].flag == GROUP && es[g].item == es[h].item
    ensures g == h
  {
  }

  lemma {:induction false} ItemIsNew(es: seq<Entry>, e: Entry, i: nat)
    requires i <= |es| && e.flag == ITEM && forall k :: 0 <= k < |es| ==> !Clash2(es[k], e)
    ensures FindItem(es, e.item, e.group, i) == None
    decreases |es| - i
  {
    if i < |es| {
      assert !Clash2(es[i], e);
      ItemIsNew(es, e, i + 1);
    }
  }

  /** In an accepted table the heading found by name carries the highest group number exactly when it is
      the one opened last. */
  lemma FoundIsLast(es: seq<Entry>, group: string)
    requires Numbered(es, 0) && NoDuplicates(es) && es != []
    ensures LastName(es).Some?
    ensures FindGroup(es, group, 0).Some? ==>
              (es[FindGroup(es, group, 0).value].group == HeadingCount(es) <==> LastName(es).value == group)
    ensures FindGroup(es, group, 0).None? ==> LastName(es).value != group
  {
    var last := LastHeading(es);
    FindGroupIs(es, group, 0);
    if FindGroup(es, group, 0).Some? {
      var g := FindGroup(es, group, 0).value;
      if es[last].item == group {
        SameHeading(es, g, last);
      }
    }
  }

  /** A new item: it is found under the heading opened last, and nowhere else. */
  lemma LookupItem(es: seq<Entry>, e: Entry, group: string, item: string)
    requires Numbered(es + [e], 0) && NoDuplicates(es + [e]) && e.flag == ITEM
    ensures es != [] && LastName(es).Some?
    ensures Lookup(es + [e], group, item)
         == if LastName(es).value == group && e.item == item then (0, e.opt) else Lookup(es, group, item)
  {
    ItemHasHeading(es, e);
    NoDuplicatesPrefix(es, e);
    FoundIsLast(es, group);
    FindGroupSnoc(es, e, group, 0);
    if FindGroup(es, group, 0).Some? {
      var id := es[FindGroup(es, group, 0).value].group;
      assert 1 <= id;
      FindItemSnoc(es, e, item, id, 0);
      ItemIsNew(es, e, 0);
    }
  }

  lemma {:induction false} FindGroupIs(es: seq<Entry>, name: string, i: nat)
    requires i <= |es|
    ensures FindGroup(es, name, i).None? ==> forall g :: i <= g < |es| && es[g].flag == GROUP ==> es[g].item != name
    decreases |es| - i
  {
    if i < |es| {
      FindGroupIs(es, name, i + 1);
    }
  }

  /** On every accepted table the two search loops are lookup in the nested map: -1 for a missing group,
      -2 for a missing item, else the option. */
  lemma {:induction false} LookupIsNested(es: seq<Entry>, group: string, item: string)
    requires Numbered(es, 0) && NoDuplicates(es)
    ensures Lookup(es, group, item) == NestedLookup(Nested(es), group, item)
  {
    if es != [] {
      var n := |es| - 1;
      var e, fs := es[n], es[..n];
      assert es == fs + [e];
      NumberedPrefix(es, n);
      NoDuplicatesPrefix(fs, e);
      LookupIsNested(fs, group, item);
      if e.flag == GROUP {
        LookupHeading(fs, e, group, item);
        NestedHeading(fs, e, group, item);
      } else {
        LookupItem(fs, e, group, item);
        LastIsNested(fs);
        NestedItem(fs, e, group, item);
      }
    }
  }

  lemma NestedHeading(es: seq<Entry>, e: Entry, group: string, item: string)
    requires e.flag == GROUP
    ensures NestedLookup(Nested(es + [e]), group, item)
         == if e.item == group then (-2, "") else NestedLookup(Nested(es), group, item)
  {
    assert (es + [e])[..|es|] == es;
  }

  lemma NestedItem(es: seq<Entry>, e: Entry, group: string, item: string)
    requires e.flag != GROUP && LastName(es).Some? && LastName(es).value in Nested(es)
    ensures NestedLookup(Nested(es + [e]), group, item)
         == if LastName(es).value == group && e.item == item then (0, e.opt) else NestedLookup(Nested(es), group, item)
  {
    assert (es + [e])[..|es|] == es;
  }

  /** The group opened last is in the map. */
  lemma {:induction false} LastIsNested(es: seq<Entry>)
    ensures LastName(es).Some? ==> LastName(es).value in Nested(es)
  {
    if es != [] {
      LastIsNested(es[..|es| - 1]);
    }
  }

  // ---------------------------------------------------------------- what the lookup finds

  lemma {:induction false} FindItemIs(es: seq<Entry>, name: string, group: int, i: nat)
    requires i <= |es|
    ensures FindItem(es, name, group, i).None? ==>
              forall k :: i <= k < |es| && es[k].flag == ITEM && es[k].item == name ==> es[k].group != group
    decreases |es| - i
  {
    if i < |es| {
      FindItemIs(es, name, group, i + 1);
    }
  }

  lemma GroupIsSection(es: seq<Entry>, h: nat, k: nat)
    requires Numbered(es, 0) && h < |es| && k < |es| && es[h].flag == GROUP && es[k].flag == ITEM
    ensures es[k].group == es[h].group <==> h < k && forall j :: h < j < k ==> es[j].flag != GROUP
  {
    if h < k {
      SameGroup(es, h, k);
    } else if k < h {
      SameGroup(es, k, h);
    }
  }

  /** Entry `k` is an item named `item` in the section of heading `h`, which is named `group`. */
  ghost predicate Under(es: seq<Entry>, h: nat, k: nat, group: string, item: string)
    requires h < k < |es|
  {
    && es[h].flag == GROUP && es[h].item == group && es[k].flag == ITEM && es[k].item == item
    && forall j :: h < j < k ==> es[j].flag != GROUP
  }

  /** What looking up gives in an accepted table: the option of the item of that name in the section of the heading
      of that name; -2 when the section has no such item, -1 when there is no such heading. */
  lemma LookupSays(es: seq<Entry>, group: string, item: string)
    requires Numbered(es, 0) && NoDuplicates(es)
    ensures (forall h :: 0 <= h < |es| && es[h].flag == GROUP ==> es[h].item != group) ==> Lookup(es, group, item) == (-1, "")
    ensures forall h, k :: 0 <= h < k < |es| && Under(es, h, k, group, item) ==> Lookup(es, group, item) == (0, es[k].opt)
    ensures forall h :: 0 <= h < |es| && es[h].flag == GROUP && es[h].item == group ==>
              (forall k :: h < k < |es| ==> !Under(es, h, k, group, item)) ==> Lookup(es, group, item) == (-2, "")
  {
    FindGroupIs(es, group, 0);
    if FindGroup(es, group, 0).Some? {
      var g := FindGroup(es, group, 0).value;
      var id := es[g].group;
      forall h | 0 <= h < |es| && es[h].flag == GROUP && es[h].item == group
        ensures h == g
      {
        SameHeading(es, h, g);
      }
      forall k | 0 <= k < |es| && es[k].flag == ITEM
        ensures es[k].group == id <==> g < k && forall j :: g < j < k ==> es[j].flag != GROUP
      {
        GroupIsSection(es, g, k);
      }
      FindItemIs(es, item, id, 0);
      ItemsOnce(es, item, id);
      if FindItem(es, item, id, 0).Some? {
        assert Under(es, g, FindItem(es, item, id, 0).value, group, item);
      }
    }
  }

  lemma ItemsOnce(es: seq<Entry>, item: string, id: int)
    requires NoDuplicates(es)
    ensures forall k :: 0 <= k < |es| && es[k].flag == ITEM && es[k].item == item && es[k].group == id ==> FindItem(es, item, id, 0) == Some(k)
  {
    FindItemIs(es, item, id, 0);
    forall k | 0 <= k < |es| && es[k].flag == ITEM && es[k].item == item && es[k].group == id
      ensures FindItem(es, item, id, 0) == Some(k)
    {
      var m := FindItem(es, item, id, 0).value;
      if m < k {
        assert Clash2(es[m], es[k]);
      } else if k < m {
        assert Clash2(es[k], es[m]);
      }
    }
  }
}
