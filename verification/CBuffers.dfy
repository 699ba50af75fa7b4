/** C strings in character buffers: strlen, strcpy and strcat as several sources use them. */
module CBuffers {
  import opened CStrings

  /** The buffer `buf` holds the C string `s`. */
  ghost predicate HoldsC(buf: seq<char>, s: string) {
    |s| < |buf| && buf[..|s|] == s && buf[|s|] == '\0' && IsCString(s)
  }

  method StrLen(buf: array<char>, ghost s: string) returns (n: nat)
    requires HoldsC(buf[..], s)
    ensures n == |s|
  {
    assert forall k :: 0 <= k < |s| ==> buf[k] == s[k];
    n := 0;
    while buf[n] != '\0'
      invariant n <= |s|
      decreases |s| - n
    {
      n := n + 1;
    }
  }

  method StrCpy(buf: array<char>, at: nat, text: string)
    requires at + |text| < buf.Length && IsCString(text)
    modifies buf
    ensures buf[..at + |text|] == old(buf[..at]) + text && buf[at + |text|] == '\0'
    ensures buf[at + |text| + 1..] == old(buf[at + |text| + 1..])
  {
    for k := 0 to |text|
      invariant buf[..at + k] == old(buf[..at]) + text[..k]
      invariant buf[at + |text|..] == old(buf[at + |text|..])
    {
      buf[at + k] := text[k];
    }
    assert buf[at + |text| + 1..] == buf[at + |text|..][1..];
    buf[at + |text|] := '\0';
  }

  /** The buffer `buf` holds `s` and zeros behind it. */
  ghost predicate Zeroed(buf: seq<char>, s: string) {
    HoldsC(buf, s) && forall k :: |s| <= k < |buf| ==> buf[k] == '\0'
  }

  method StrCat(buf: array<char>, text: string, ghost s: string)
    requires Zeroed(buf[..], s) && |s| + |text| < buf.Length && IsCString(text)
    modifies buf
    ensures Zeroed(buf[..], s + text)
  {
    var n := StrLen(buf, s);
    StrCpy(buf, n, text);
    ghost var m := |s| + |text|;
    assert forall k :: m < k < buf.Length ==> buf[k] == buf[m + 1..][k - m - 1] == old(buf[m + 1..])[k - m - 1] == old(buf[k]);
  }

  method PutChar(buf: array<char>, j: nat, c: char, ghost s: string)
    requires Zeroed(buf[..], s) && j == |s| && |s| + 1 < buf.Length && c != '\0'
    modifies buf
    ensures Zeroed(buf[..], s + [c])
  {
    buf[j] := c;
  }
}
