/** Replacing and splitting in lib_src/com/dap_string.c: fcom_ReplaceAll, fcom_ParseStringByToken and
    fcom_TokenCnt. All three look for a pattern from the left; the reference is the split of a string at
    the leftmost non-overlapping occurrences. */
module TextPieces {
  import opened CStrings

  // ---------------------------------------------------------------- the leftmost split

  /** The pieces of s[i..] between the leftmost non-overlapping occurrences of `p`. */
  function SplitFrom(s: string, p: string, i: nat): (parts: seq<string>)
    requires p != "" && i <= |s|
    ensures parts != []
    decreases |s| - i
  {
    match Find(s, p, i)
    case None => [s[i..]]
    case Some(k) => [s[i..k]] + SplitFrom(s, p, k + |p|)
  }

  lemma SplitStep(s: string, p: string, i: nat, k: nat)
    requires p != "" && i <= |s| && Find(s, p, i) == Some(k)
    ensures SplitFrom(s, p, i) == [s[i..k]] + SplitFrom(s, p, k + |p|)
    ensures |SplitFrom(s, p, i)| == 1 + |SplitFrom(s, p, k + |p|)|
  {
  }

  function Split(s: string, p: string): seq<string>
    requires p != ""
  {
    SplitFrom(s, p, 0)
  }

  function Join(parts: seq<string>, sep: string): string
    requires parts != []
  {
    if |parts| == 1 then parts[0] else parts[0] + (sep + Join(parts[1..], sep))
  }

  /** In the text `c` followed by the pattern, the pattern does not occur earlier. */
  ghost predicate EndsAtFirst(c: string, p: string) {
    forall k :: 0 <= k < |c| ==> !OccursAt(c + p, k, p)
  }

  ghost predicate Free(c: string, p: string) {
    forall k :: 0 <= k <= |c| ==> !OccursAt(c, k, p)
  }

  /** Each piece but the last ends where the pattern first occurs, and the last one is free of it. */
  ghost predicate Leftmost(parts: seq<string>, p: string)
    requires parts != []
  {
    if |parts| == 1 then Free(parts[0], p) else EndsAtFirst(parts[0], p) && Leftmost(parts[1..], p)
  }

  /** Splitting loses nothing. */
  lemma {:induction false} SplitJoins(s: string, p: string, i: nat)
    requires p != "" && i <= |s|
    ensures Join(SplitFrom(s, p, i), p) == s[i..]
    decreases |s| - i
  {
    if Find(s, p, i).Some? {
      var k := Find(s, p, i).value;
      SplitJoins(s, p, k + |p|);
      assert SplitFrom(s, p, i)[1..] == SplitFrom(s, p, k + |p|);
      Reassemble(s, p, i, k);
    }
  }

  lemma Reassemble(s: string, p: string, i: nat, k: nat)
    requires i <= k && OccursAt(s, k, p)
    ensures s[i..k] + (p + s[k + |p|..]) == s[i..]
  {
  }

  lemma PieceEndsAtFirst(s: string, p: string, i: nat, k: nat)
    requires i <= |s| && Find(s, p, i) == Some(k)
    ensures EndsAtFirst(s[i..k], p)
  {
    FindIsFirst(s, p, i);
    assert s[i..k] + p == s[i..k + |p|];
    forall j | 0 <= j < k - i
      ensures !OccursAt(s[i..k] + p, j, p)
    {
      OccursInSlice(s, i, k + |p|, j, p);
    }
  }

  lemma RestFree(s: string, p: string, i: nat)
    requires i <= |s| && Find(s, p, i) == None
    ensures Free(s[i..], p)
  {
    FindIsFirst(s, p, i);
    assert s[i..] == s[i..|s|];
    forall j | 0 <= j <= |s| - i
      ensures !OccursAt(s[i..], j, p)
    {
      OccursInSlice(s, i, |s|, j, p);
    }
  }

  /** Splitting cuts at the leftmost occurrences. */
  lemma {:induction false} SplitLeftmost(s: string, p: string, i: nat)
    requires p != "" && i <= |s|
    ensures Leftmost(SplitFrom(s, p, i), p)
    decreases |s| - i
  {
    if Find(s, p, i).None? {
      RestFree(s, p, i);
    } else {
      var k := Find(s, p, i).value;
      PieceEndsAtFirst(s, p, i, k);
      SplitLeftmost(s, p, k + |p|);
      SplitStep(s, p, i, k);
      LeftmostCons(s[i..k], SplitFrom(s, p, k + |p|), p);
    }
  }

  lemma LeftmostCons(c: string, rest: seq<string>, p: string)
    requires rest != [] && EndsAtFirst(c, p) && Leftmost(rest, p)
    ensures Leftmost([c] + rest, p)
  {
    assert ([c] + rest)[1..] == rest;
  }

  /** The end of a piece that the pattern follows is an occurrence. */
  lemma OccursAfter(c: string, p: string, rest: string, k: nat, t: string)
    requires t == c + (p + rest) && |c| + |p| <= k <= |t|
    ensures OccursAt(t[..k], |c|, p)
  {
    assert t[..k][|c|..|c| + |p|] == p;
  }

  /** Two texts cut at the first occurrence of the pattern are cut at the same place. */
  lemma SameCut(c: string, cs: string, d: string, ds: string, p: string)
    requires EndsAtFirst(c, p) && EndsAtFirst(d, p) && c + (p + cs) == d + (p + ds)
    ensures c == d && cs == ds
  {
    var t := c + (p + cs);
    assert t[..|c| + |p|] == c + p && t[..|d| + |p|] == d + p;
    if |c| < |d| {
      OccursAfter(c, p, cs, |d| + |p|, t);
    } else if |d| < |c| {
      OccursAfter(d, p, ds, |c| + |p|, t);
    }
    assert c == t[..|c|] && d == t[..|d|];
    assert cs == t[|c| + |p|..] && ds == t[|d| + |p|..];
  }

  lemma NotFree(c: string, cs: string, p: string)
    ensures !Free(c + (p + cs), p)
  {
    var t := c + (p + cs);
    OccursAfter(c, p, cs, |t|, t);
    assert t[..|t|] == t;
  }

  /** A text has only one division into pieces at leftmost occurrences. */
  lemma {:induction false} OneDivision(a: seq<string>, b: seq<string>, p: string)
    requires a != [] && b != [] && Leftmost(a, p) && Leftmost(b, p) && Join(a, p) == Join(b, p)
    ensures a == b
  {
    if |a| > 1 && |b| > 1 {
      SameCut(a[0], Join(a[1..], p), b[0], Join(b[1..], p), p);
      OneDivision(a[1..], b[1..], p);
      assert a == [a[0]] + a[1..] && b == [b[0]] + b[1..];
    } else if |a| > 1 {
      NotFree(a[0], Join(a[1..], p), p);
    } else if |b| > 1 {
      NotFree(b[0], Join(b[1..], p), p);
    }
  }

  /** The leftmost split is the only one: any such pieces are what splitting their join gives back. */
  lemma SplitOfJoin(parts: seq<string>, p: string)
    requires p != "" && parts != [] && Leftmost(parts, p)
    ensures Split(Join(parts, p), p) == parts
  {
    var s := Join(parts, p);
    SplitJoins(s, p, 0);
    SplitLeftmost(s, p, 0);
    OneDivision(Split(s, p), parts, p);
  }

  // ---------------------------------------------------------------- fcom_ReplaceAll

  /** What the writing loop produces for s[i..]. */
  function Replaced(s: string, olds: string, news: string, i: nat): string
    requires olds != "" && i <= |s|
    decreases |s| - i
  {
    if i == |s| then ""
    else if OccursAt(s, i, olds) then news + Replaced(s, olds, news, i + |olds|)
    else [s[i]] + Replaced(s, olds, news, i + 1)
  }

  /** The number of replacements the counting loop finds in s[i..]. */
  function Matches(s: string, olds: string, i: nat): nat
    requires olds != "" && i <= |s|
    decreases |s| - i
  {
    if i == |s| then 0
    else if OccursAt(s, i, olds) then 1 + Matches(s, olds, i + |olds|)
    else Matches(s, olds, i + 1)
  }

  lemma {:induction false} PrependPiece(c: string, parts: seq<string>, sep: string)
    requires parts != []
    ensures Join([c + parts[0]] + parts[1..], sep) == c + Join(parts, sep)
  {
    assert ([c + parts[0]] + parts[1..])[1..] == parts[1..];
  }

  /** Replacing is splitting at the leftmost occurrences and joining with the new text. */
  lemma {:induction false} ReplacedJoins(s: string, olds: string, news: string, i: nat)
    requires olds != "" && i <= |s|
    ensures Replaced(s, olds, news, i) == Join(SplitFrom(s, olds, i), news)
    ensures Matches(s, olds, i) == |SplitFrom(s, olds, i)| - 1
    decreases |s| - i
  {
    if i < |s| {
      var next := if OccursAt(s, i, olds) then i + |olds| else i + 1;
      JoinNext(s, olds, news, i, next);
      ReplacedJoins(s, olds, news, next);
    }
  }

  /** What one turn of the writing loop adds to the joined pieces. */
  lemma JoinNext(s: string, p: string, news: string, i: nat, next: nat)
    requires p != "" && i < |s| && next == if OccursAt(s, i, p) then i + |p| else i + 1
    ensures next <= |s|
    ensures Join(SplitFrom(s, p, i), news) == (if OccursAt(s, i, p) then news else [s[i]]) + Join(SplitFrom(s, p, next), news)
    ensures |SplitFrom(s, p, i)| == |SplitFrom(s, p, next)| + (if OccursAt(s, i, p) then 1 else 0)
  {
    var rest := SplitFrom(s, p, next);
    if OccursAt(s, i, p) {
      SplitStep(s, p, i, i);
      assert s[i..i] == "" && ([""] + rest)[1..] == rest;
      assert "" + (news + Join(rest, news)) == news + Join(rest, news);
    } else {
      SplitChar(s, p, i);
      PrependPiece([s[i]], rest, news);
    }
  }

  /** Where no pattern starts, the first piece starts one character earlier. */
  lemma SplitChar(s: string, p: string, i: nat)
    requires p != "" && i < |s| && !OccursAt(s, i, p)
    ensures var rest := SplitFrom(s, p, i + 1);
            SplitFrom(s, p, i) == [[s[i]] + rest[0]] + rest[1..]
  {
    match Find(s, p, i + 1)
    case None => assert s[i..] == [s[i]] + s[i + 1..];
    case Some(k) =>
      SplitStep(s, p, i, k);
      SplitStep(s, p, i + 1, k);
      assert s[i..k] == [s[i]] + s[i + 1..k];
  }

  lemma {:induction false} ReplacedLength(s: string, olds: string, news: string, i: nat)
    requires olds != "" && i <= |s|
    ensures |Replaced(s, olds, news, i)| == |s| - i + Matches(s, olds, i) * (|news| - |olds|)
    decreases |s| - i
  {
    if i < |s| {
      if OccursAt(s, i, olds) {
        ReplacedLength(s, olds, news, i + |olds|);
        OneMore(Matches(s, olds, i + |olds|), |news| - |olds|);
      } else {
        ReplacedLength(s, olds, news, i + 1);
      }
    }
  }

  lemma OneMore(n: nat, d: int)
    ensures (1 + n) * d == d + n * d
  {
  }

  /** The size computed by the counting pass, in size_t arithmetic. */
  function BufferSize(end: nat, count: nat, oldlen: nat, newlen: nat): nat {
    (end + 1 + count * ((newlen - oldlen) % 0x1_0000_0000_0000_0000)) % 0x1_0000_0000_0000_0000
  }

  /** A shrinking replacement wraps twice and still comes out right. */
  lemma SizeExact(end: nat, count: nat, oldlen: nat, newlen: nat)
    requires 0 <= end + 1 + count * (newlen - oldlen) < 0x1_0000_0000_0000_0000 && oldlen < 0x1_0000_0000_0000_0000 && newlen < 0x1_0000_0000_0000_0000
    ensures BufferSize(end, count, oldlen, newlen) == end + 1 + count * (newlen - oldlen)
  {
    if newlen < oldlen {
      Spread(count, newlen - oldlen);
      WrapAround(end + 1 + count * (newlen - oldlen), count);
    }
  }

  lemma WrapAround(size: nat, count: nat)
    requires size < 0x1_0000_0000_0000_0000
    ensures (size + count * 0x1_0000_0000_0000_0000) % 0x1_0000_0000_0000_0000 == size
  {
  }

  lemma Spread(count: nat, d: int)
    ensures count * (d + 0x1_0000_0000_0000_0000) == count * d + count * 0x1_0000_0000_0000_0000
  {
  }

  /** The counting pass: where it ends and how many matches it saw; nothing to count when the lengths
      are equal. */
  method CountPass(inBuf: string, olds: string, news: string) returns (offset: nat, count: nat)
    requires olds != ""
    ensures offset == |inBuf| && (|news| != |olds| ==> count == Matches(inBuf, olds, 0)) && (|news| == |olds| ==> count == 0)
  {
    offset, count := 0, 0;
    if |news| != |olds| {
      while offset < |inBuf|
        invariant offset <= |inBuf| && count + Matches(inBuf, olds, offset) == Matches(inBuf, olds, 0)
      {
        if OccursAt(inBuf, offset, olds) {
          count := count + 1;
          offset := offset + |olds|;
        } else {
          offset := offset + 1;
        }
      }
    } else {
      offset := |inBuf|;
    }
  }

  /** The buffer the counting pass asks for holds exactly the result and its terminator, whether the text
      grows, shrinks or keeps its length. */
  lemma SizeIsResult(s: string, olds: string, news: string, count: nat)
    requires olds != "" && |olds| < 0x1_0000_0000_0000_0000 && |news| < 0x1_0000_0000_0000_0000 && |Replaced(s, olds, news, 0)| + 1 < 0x1_0000_0000_0000_0000
    requires count == if |news| != |olds| then Matches(s, olds, 0) else 0
    ensures BufferSize(|s|, count, |olds|, |news|) == |Replaced(s, olds, news, 0)| + 1
  {
    ReplacedLength(s, olds, news, 0);
    var n, d := Matches(s, olds, 0), |news| - |olds|;
    assert count * d == n * d by {
      if d == 0 {
        assert count * 0 == n * 0;
      }
    }
    SizeExact(|s|, count, |olds|, |news|);
  }

  /** fcom_ReplaceAll. None leaves the result buffer untouched: an empty pattern or no memory. */
  method ReplaceAll(inBuf: string, olds: string, news: string, gotMemory: bool) returns (res: Option<string>)
    requires |olds| < 0x1_0000_0000_0000_0000 && |news| < 0x1_0000_0000_0000_0000
    requires olds != "" ==> |Replaced(inBuf, olds, news, 0)| + 1 < 0x1_0000_0000_0000_0000
    ensures res == if olds == "" || !gotMemory then None else Some(Join(Split(inBuf, olds), news))
  {
    if |olds| < 1 {
      return None;
    }
    var offset, count := CountPass(inBuf, olds, news);
    if !gotMemory {
      return None;
    }
    var size := BufferSize(offset, count, |olds|, |news|);
    SizeIsResult(inBuf, olds, news, count);
    var result := new char[size](_ => '\0');
    var sr := WriteReplaced(inBuf, olds, news, result);
    ReplacedJoins(inBuf, olds, news, 0);
    res := Some(result[..sr]);
  }

  /** strncpy of `text` to offset `at`, without a terminator. */
  method Copy(buf: array<char>, at: nat, text: string)
    requires at + |text| <= buf.Length
    modifies buf
    ensures buf[..at + |text|] == old(buf[..at]) + text
  {
    for k := 0 to |text|
      invariant buf[..at + k] == old(buf[..at]) + text[..k]
    {
      buf[at + k] := text[k];
    }
  }

  /** The writing pass: the text and its terminator fill the buffer exactly. */
  method WriteReplaced(inBuf: string, olds: string, news: string, result: array<char>) returns (sr: nat)
    requires olds != "" && result.Length == |Replaced(inBuf, olds, news, 0)| + 1
    modifies result
    ensures sr == result.Length - 1 && result[sr] == '\0'
    ensures result[..sr] == Replaced(inBuf, olds, news, 0)
  {
    sr := 0;
    var i := 0;
    ghost var goal := Replaced(inBuf, olds, news, 0);
    while i < |inBuf|
      invariant i <= |inBuf| && sr <= |goal| && goal == result[..sr] + Replaced(inBuf, olds, news, i)
    {
      var piece := if OccursAt(inBuf, i, olds) then news else [inBuf[i]];
      var step := if OccursAt(inBuf, i, olds) then |olds| else 1;
      NextPiece(goal, result[..sr], piece, Replaced(inBuf, olds, news, i + step));
      Copy(result, sr, piece);
      sr := sr + |piece|;
      i := i + step;
    }
    assert goal == result[..sr];
    result[sr] := '\0';
  }

  lemma NextPiece(goal: string, done: string, piece: string, rest: string)
    requires goal == done + (piece + rest)
    ensures goal == (done + piece) + rest && |done| + |piece| <= |goal|
  {
  }

  // ---------------------------------------------------------------- fcom_ParseStringByToken and fcom_TokenCnt

  /** fcom_ParseStringByToken: piece number `order`, or None when there are too few. Every piece up to it
      passes through a 1024-byte buffer. */
  method ParseStringByToken(s: string, tok: string, order: nat) returns (piece: Option<string>)
    requires tok != "" ==> forall k :: 0 <= k < |Split(s, tok)| && k <= order ==> |Split(s, tok)[k]| < 1024
    ensures tok == "" ==> piece == Some("")
    ensures tok != "" ==> piece == if order < |Split(s, tok)| then Some(Split(s, tok)[order]) else None
  {
    if tok == "" {
      return Some("");
    }
    var old_, count := Some(0), 0;
    ghost var parts := Split(s, tok);
    while old_.Some?
      invariant count <= order && count <= |parts|
      invariant old_.Some? ==> old_.value <= |s| && count < |parts| && SplitFrom(s, tok, old_.value) == parts[count..]
      invariant old_.None? ==> count == |parts|
      decreases if old_.Some? then |s| + 1 - old_.value else 0
    {
      var new_ := Find(s, tok, old_.value);
      var tmp;
      assert parts[count..][0] == parts[count] && parts[count..][1..] == parts[count + 1..];
      if new_.Some? {
        tmp := s[old_.value..new_.value];
        old_ := Some(new_.value + |tok|);
      } else {
        tmp := s[old_.value..];
        old_ := None;
      }
      if count == order {
        return Some(tmp);
      }
      count := count + 1;
    }
    return None;
  }

  /** The offsets from `i` on at which `mark` occurs, overlapping ones included. */
  function Occurrences(s: string, mark: string, i: nat): nat
    requires i <= |s|
    decreases |s| - i
  {
    if i == |s| then 0 else (if OccursAt(s, i, mark) then 1 else 0) + Occurrences(s, mark, i + 1)
  }

  /** fcom_TokenCnt. */
  method TokenCnt(s: string, mark: string) returns (n: nat)
    ensures n == Occurrences(s, mark, 0)
  {
    n := 0;
    for i := 0 to |s|
      invariant n + Occurrences(s, mark, i) == Occurrences(s, mark, 0)
    {
      if OccursAt(s, i, mark) {
        n := n + 1;
      }
    }
  }

  /** No two occurrences from `i` on overlap. */
  ghost predicate Clear(s: string, p: string, i: nat) {
    forall a, b :: i <= a < b < a + |p| && OccursAt(s, a, p) ==> !OccursAt(s, b, p)
  }

  lemma {:induction false} OccurrencesBetween(s: string, p: string, i: nat, k: nat)
    requires i <= k <= |s|
    ensures Occurrences(s, p, i) >= Occurrences(s, p, k)
    ensures Occurrences(s, p, i) == Occurrences(s, p, k) <==> forall a :: i <= a < k ==> !OccursAt(s, a, p)
    decreases k - i
  {
    if i < k {
      OccurrencesBetween(s, p, i + 1, k);
    }
  }

  /** Counting marks and splitting agree exactly when no two marks overlap; otherwise the count is too
      high. */
  lemma {:induction false} CountMatchesPieces(s: string, p: string, i: nat)
    requires p != "" && i <= |s|
    ensures Occurrences(s, p, i) + 1 >= |SplitFrom(s, p, i)|
    ensures Occurrences(s, p, i) + 1 == |SplitFrom(s, p, i)| <==> Clear(s, p, i)
    decreases |s| - i
  {
    match Find(s, p, i)
    case None => ClearWhenNone(s, p, i);
    case Some(k) =>
      CountAfterFirst(s, p, i, k);
      CountMatchesPieces(s, p, k + |p|);
  }

  /** The first mark adds one piece, and one occurrence for itself and for each one overlapping it. */
  lemma CountAfterFirst(s: string, p: string, i: nat, k: nat)
    requires p != "" && i <= |s| && Find(s, p, i) == Some(k)
    ensures k + |p| <= |s| && i <= k
    ensures var next := k + |p|;
            && Occurrences(s, p, next) + 1 >= |SplitFrom(s, p, next)|
            && (Occurrences(s, p, next) + 1 == |SplitFrom(s, p, next)| <==> Clear(s, p, next))
            ==>
            && Occurrences(s, p, i) + 1 >= |SplitFrom(s, p, i)|
            && (Occurrences(s, p, i) + 1 == |SplitFrom(s, p, i)| <==> Clear(s, p, i))
  {
    OccurrencesFrom(s, p, i, k);
    ClearAfterFirst(s, p, i, k);
    SplitStep(s, p, i, k);
  }

  lemma ClearWhenNone(s: string, p: string, i: nat)
    requires i <= |s| && Find(s, p, i) == None
    ensures Occurrences(s, p, i) == 0 && Clear(s, p, i) && |SplitFrom(s, p, i)| == 1
  {
    FindIsFirst(s, p, i);
    OccurrencesBetween(s, p, i, |s|);
  }

  lemma OccurrencesFrom(s: string, p: string, i: nat, k: nat)
    requires p != "" && i <= |s| && Find(s, p, i) == Some(k)
    ensures k + |p| <= |s| && Occurrences(s, p, i) == 1 + Occurrences(s, p, k + 1)
    ensures Occurrences(s, p, k + 1) >= Occurrences(s, p, k + |p|)
  {
    FindIsFirst(s, p, i);
    OccurrencesBetween(s, p, i, k);
    OccurrencesBetween(s, p, k + 1, k + |p|);
  }

  /** The callers' protocol: for a one-character mark the count is the number of the last piece. */
  lemma CountIsLastPiece(s: string, mark: string)
    requires |mark| == 1
    ensures Occurrences(s, mark, 0) == |Split(s, mark)| - 1
  {
    CountMatchesPieces(s, mark, 0);
  }

  lemma ClearAfterFirst(s: string, p: string, i: nat, k: nat)
    requires p != "" && i <= |s| && Find(s, p, i) == Some(k)
    ensures k + |p| <= |s|
    ensures Clear(s, p, i) <==> Clear(s, p, k + |p|) && Occurrences(s, p, k + 1) == Occurrences(s, p, k + |p|)
  {
    FindIsFirst(s, p, i);
    OccurrencesBetween(s, p, k + 1, k + |p|);
    if Clear(s, p, k + |p|) && forall a :: k < a < k + |p| ==> !OccursAt(s, a, p) {
      forall a, b | i <= a < b < a + |p| && OccursAt(s, a, p)
        ensures !OccursAt(s, b, p)
      {
        assert a >= k;
      }
    }
  }
}
