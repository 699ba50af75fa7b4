/** The change summaries of lib_src/json/dap_json_parse.c by their characters: what is printed for an object, and
    what the readers of lib_src/json/dap_json.c answer. */
module SummaryText {
  import opened CStrings
  import S = Summary

  /** The texts of the members, one after the other. */
  lemma {:induction false} MembersSay(ms: seq<S.Member>, loop: nat, us: seq<string>)
    requires |us| == |ms| && forall j :: 0 <= j < |ms| ==> us[j] == S.MemberText(ms[j], loop + j)
    ensures S.MembersText(ms, loop) == Concat(us)
    decreases |ms|
  {
    if ms != [] {
      assert us[0] == S.MemberText(ms[0], loop + 0);
      forall j | 0 <= j < |ms[1..]|
        ensures us[1..][j] == S.MemberText(ms[1..][j], loop + 1 + j)
      {
        assert us[j + 1] == S.MemberText(ms[j + 1], loop + (j + 1));
      }
      MembersSay(ms[1..], loop + 1, us[1..]);
    }
  }

  lemma {:induction false} SectionsSay(process: bool, ss: seq<S.Section>, ts: seq<string>)
    requires |ts| == |ss| && forall k :: 0 <= k < |ss| ==> ts[k] == S.SectionText(process, ss[k])
    ensures S.SummaryText(process, ss) == Concat(ts)
    decreases |ss|
  {
    if ss != [] {
      SectionsSay(process, ss[1..], ts[1..]);
    }
  }

  lemma LabelSays(process: bool, key: string)
    ensures S.Label(process, key) ==
              if key in (if process then {"black", "access", "white", "block"} else {"add", "del", "mod", "block"}) then key else ""
  {
  }

  lemma MemberSays(m: S.Member, j: nat, u: string)
    requires u == if m.key == "size" then (if j == 0 then "(" else "") else (if j == 0 then "(" else ",") + "'" + m.value + "'"
    ensures u == S.MemberText(m, j)
  {
  }

  lemma AllMembersSay(ms: seq<S.Member>, us: seq<string>)
    requires |us| == |ms| && forall j :: 0 <= j < |us| ==>
               us[j] == if ms[j].key == "size" then (if j == 0 then "(" else "")
                        else (if j == 0 then "(" else ",") + "'" + ms[j].value + "'"
    ensures S.MembersText(ms, 0) == Concat(us)
  {
    forall j | 0 <= j < |us|
      ensures us[j] == S.MemberText(ms[j], 0 + j)
    {
      MemberSays(ms[j], j, us[j]);
    }
    MembersSay(ms, 0, us);
  }

  lemma SectionSays(process: bool, s: S.Section, us: seq<string>)
    requires S.MembersText(s.members, 0) == Concat(us)
    ensures S.SectionText(process, s) == S.Label(process, s.key) + Concat(us) + ")"
  {
    Assoc(S.Label(process, s.key), Concat(us), ")");
  }

  /** What is printed: for each section its key, when that is one of the four tags, and in brackets the quoted values
      with commas between them; a `size` counts as a member but prints nothing of its own. The caller gets this text
      when it has at most 1023 characters, else nothing. */
  method StoredText(process: bool, ss: seq<S.Section>, ghost uss: seq<seq<string>>, ghost ts: seq<string>) returns (summary: string)
    requires |uss| == |ts| == |ss| && |Concat(ts)| < 2048
    requires forall k :: 0 <= k < |ss| ==> forall j :: 0 <= j < |ss[k].members| ==> IsCString(ss[k].members[j].value)
    requires forall k :: 0 <= k < |ss| ==>
               |uss[k]| == |ss[k].members| && forall j :: 0 <= j < |uss[k]| ==>
                 uss[k][j] == if ss[k].members[j].key == "size" then (if j == 0 then "(" else "")
                              else (if j == 0 then "(" else ",") + "'" + ss[k].members[j].value + "'"
    requires forall k :: 0 <= k < |ss| ==>
               ts[k] == (if ss[k].key in (if process then {"black", "access", "white", "block"} else {"add", "del", "mod", "block"})
                         then ss[k].key else "") + Concat(uss[k]) + ")"
    ensures summary == if |Concat(ts)| <= 1023 then Concat(ts) else ""
  {
    forall k | 0 <= k < |ss|
      ensures ts[k] == S.SectionText(process, ss[k])
    {
      LabelSays(process, ss[k].key);
      AllMembersSay(ss[k].members, uss[k]);
      SectionSays(process, ss[k], uss[k]);
    }
    SectionsSay(process, ss, ts);
    assert S.AllClean(ss);
    summary := S.StoreSummary(process, ss);
  }

  // ---------------------------------------------------------------- the answers

  /** Member `j` says the word: it is not a `size`, and the word stands somewhere in its value. */
  lemma {:induction false} AnySpelled(ms: seq<S.Member>, word: string)
    ensures S.AnyContains(S.Values(ms), word) <==>
              exists j :: 0 <= j < |ms| && ms[j].key != "size" && exists i :: 0 <= i <= |ms[j].value| && OccursAt(ms[j].value, i, word)
    decreases |ms|
  {
    if ms != [] {
      var rest := ms[1..];
      AnySpelled(rest, word);
      S.ContainsSomewhere(ms[0].value, word);
      assert forall j :: 0 <= j < |rest| ==> rest[j] == ms[j + 1];
      assert forall j :: 0 < j < |ms| ==> ms[j] == rest[j - 1];
      FirstValue(ms, word);
    }
  }

  lemma FirstValue(ms: seq<S.Member>, word: string)
    requires ms != []
    ensures S.AnyContains(S.Values(ms), word) <==>
              (ms[0].key != "size" && Contains(ms[0].value, word)) || S.AnyContains(S.Values(ms[1..]), word)
  {
    var rest := S.Values(ms[1..]);
    if ms[0].key != "size" {
      assert S.Values(ms) == [ms[0].value] + rest && ([ms[0].value] + rest)[1..] == rest;
    } else {
      assert [] + rest == rest;
    }
  }

  /** What a section says: the first one of the key that has members, in some member other than a `size`. */
  lemma {:induction false} SaysSpelled(ss: seq<S.Section>, tag: string, word: string)
    ensures S.Says(ss, tag, word) <==>
              exists k, j :: 0 <= k < |ss| && 0 <= j < |ss[k].members| && ss[k].key == tag
                          && (forall m :: 0 <= m < k ==> ss[m].key != tag || ss[m].members == [])
                          && ss[k].members[j].key != "size"
                          && exists i :: 0 <= i <= |ss[k].members[j].value| && OccursAt(ss[k].members[j].value, i, word)
    decreases |ss|
  {
    if ss != [] {
      var rest := ss[1..];
      if ss[0].key == tag && ss[0].members != [] {
        AnySpelled(ss[0].members, word);
      } else {
        SaysSpelled(rest, tag, word);
        assert forall k :: 0 <= k < |rest| ==> rest[k] == ss[k + 1];
        assert forall k :: 0 < k < |ss| ==> ss[k] == rest[k - 1];
      }
    }
  }

  /** Something was said at all. */
  lemma {:induction false} SaysAnything(ss: seq<S.Section>, tag: string)
    ensures S.Lookup(ss, tag) in {None, Some("")} <==> !S.Says(ss, tag, "")
  {
    if ss != [] {
      if ss[0].key == tag && ss[0].members != [] {
        NothingPrinted(ss[0].members);
      } else {
        SaysAnything(ss[1..], tag);
      }
    }
  }

  lemma NothingPrinted(ms: seq<S.Member>)
    requires ms != []
    ensures S.Body(ms) == "" <==> !S.AnyContains(S.Values(ms), "")
  {
    var vs := S.Values(ms);
    if vs != [] {
      S.ContainsSomewhere(vs[0], "");
      assert OccursAt(vs[0], 0, "");
    }
  }

  lemma PlainHeard(process: bool, ss: seq<S.Section>, tag: string)
    requires S.AllWellFormed(ss) && S.IsTag(process, tag)
    ensures S.Mask(ss, tag) == None && S.Heard(ss, tag) == S.Lookup(ss, tag)
  {
    S.PlainUnmasked(process, ss, tag);
    if S.Lookup(ss, tag).Some? {
      S.FrontWhole(S.Lookup(ss, tag).value);
    }
  }

  lemma {:induction false} WellFormedFrom(ss: seq<S.Section>)
    requires forall k :: 0 <= k < |ss| ==> forall j :: 0 <= j < |ss[k].members| ==>
               '(' !in ss[k].members[j].value && ')' !in ss[k].members[j].value
    ensures S.AllWellFormed(ss)
  {
    if ss != [] {
      assert forall k :: 0 <= k < |ss[1..]| ==> ss[1..][k] == ss[k + 1];
      WellFormedFrom(ss[1..]);
    }
  }

  lemma PlainFinds(process: bool, ss: seq<S.Section>, tag: string, word: string)
    requires S.AllWellFormed(ss) && S.IsTag(process, tag) && '\'' !in word && |word| > 1
    ensures S.Finds(ss, tag, word) <==> S.Says(ss, tag, word)
  {
    S.PlainUnmasked(process, ss, tag);
    S.FrontIsSaid(ss, tag, word);
  }

  /** The answers of the four process readers to an object with values without brackets and a summary that is not too
      long, by what its sections say. */
  lemma ProcessAnswers(ss: seq<S.Section>)
    requires |S.SummaryText(true, ss)| <= 1023
    requires forall k :: 0 <= k < |ss| ==> forall j :: 0 <= j < |ss[k].members| ==>
               '(' !in ss[k].members[j].value && ')' !in ss[k].members[j].value
    ensures var t := S.SummaryText(true, ss);
            && S.ProcessWhite(t) == (if S.Says(ss, "white", "[off]") then 1 else 0)
            && S.ProcessBlack(t) == (if S.Says(ss, "black", "[on]") then 1 else if S.Says(ss, "black", "[kill]") then -1 else 0)
            && S.ProcessBlock(t) == (if S.Says(ss, "block", "[off]") then 1 else if S.Says(ss, "block", "[kill]") then 2 else 0)
            && S.ProcessAccess(t) == (if !S.Says(ss, "access", "") then -1 else if S.Says(ss, "access", "[off]") then 0 else 1)
  {
    WellFormedFrom(ss);
    S.ProcessReaders(ss);
    PlainFinds(true, ss, "white", "[off]");
    PlainFinds(true, ss, "black", "[on]");
    PlainFinds(true, ss, "black", "[kill]");
    PlainFinds(true, ss, "block", "[off]");
    PlainFinds(true, ss, "block", "[kill]");
    PlainFinds(true, ss, "access", "[off]");
    PlainHeard(true, ss, "access");
    SaysAnything(ss, "access");
  }

  /** The answers of the two readers of change summaries. */
  lemma ChangeAnswers(ss: seq<S.Section>)
    requires |S.SummaryText(false, ss)| <= 1023
    requires forall k :: 0 <= k < |ss| ==> forall j :: 0 <= j < |ss[k].members| ==>
               '(' !in ss[k].members[j].value && ')' !in ss[k].members[j].value
    ensures var t := S.SummaryText(false, ss);
            && S.ConnectExt(t) == (if S.Says(ss, "add", "") then 1 else 0)
            && S.SystemVm(t) == (if S.Says(ss, "add", "vm") then 1 else 0) + (if S.Says(ss, "mod", "vm") then 1 else 0)
  {
    WellFormedFrom(ss);
    S.ChangeReaders(ss);
    PlainFinds(false, ss, "add", "vm");
    PlainFinds(false, ss, "mod", "vm");
    PlainHeard(false, ss, "add");
    SaysAnything(ss, "add");
  }
}
