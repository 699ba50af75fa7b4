/** C string and library behaviour that several sources rely on. */
module CStrings {
  datatype Option<+T> = None | Some(value: T)

  function Min(x: int, y: int): int {
    if x < y then x else y
  }

  /** C division, truncating toward zero. */
  function CDiv(a: int, b: int): int
    requires b != 0
  {
    if a >= 0 then a / b else -(-a / b)
  }

  /** C remainder, with the sign of the dividend. */
  function CMod(a: int, b: int): int
    requires b != 0
  {
    if a >= 0 then a % b else -(-a % b)
  }

  /** A string that a C program can hold: no terminator inside. */
  predicate IsCString(s: string) {
    '\0' !in s
  }

  lemma Assoc<T>(a: seq<T>, b: seq<T>, c: seq<T>)
    ensures a + (b + c) == (a + b) + c
  {
  }

  lemma SameSplit<T>(a: T, s: seq<T>, b: T, t: seq<T>)
    ensures [a] + s == [b] + t <==> a == b && s == t
  {
    assert ([a] + s)[0] == a && ([b] + t)[0] == b;
    assert ([a] + s)[1..] == s && ([b] + t)[1..] == t;
  }

  /** The pieces one after the other. */
  function Concat(ps: seq<string>): string {
    if ps == [] then "" else ps[0] + Concat(ps[1..])
  }

  lemma ConcatFrom(ps: seq<string>, k: nat)
    requires k < |ps|
    ensures Concat(ps[k..]) == ps[k] + Concat(ps[k + 1..])
  {
    assert ps[k..][1..] == ps[k + 1..];
  }

  // ---------------------------------------------------------------- strncmp and strstr

  /** strncmp(&s[i], p, strlen(p)) == 0. */
  predicate OccursAt(s: string, i: nat, p: string) {
    i + |p| <= |s| && s[i..i + |p|] == p
  }

  /** The offset strstr(&s[i], p) finds, or None. */
  function Find(s: string, p: string, i: nat): (r: Option<nat>)
    requires i <= |s|
    ensures r.Some? ==> i <= r.value && OccursAt(s, r.value, p)
    decreases |s| - i
  {
    if OccursAt(s, i, p) then Some(i)
    else if i == |s| then None
    else Find(s, p, i + 1)
  }

  /** strstr finds the first occurrence. */
  lemma {:induction false} FindIsFirst(s: string, p: string, i: nat)
    requires i <= |s|
    ensures forall k :: i <= k && (Find(s, p, i).Some? ==> k < Find(s, p, i).value) ==> !OccursAt(s, k, p)
    decreases |s| - i
  {
    if !OccursAt(s, i, p) && i < |s| {
      FindIsFirst(s, p, i + 1);
    }
  }

  /** An occurrence with none before it is the one strstr finds. */
  lemma FindUnique(s: string, p: string, i: nat, k: nat)
    requires i <= k && OccursAt(s, k, p) && forall j :: i <= j < k ==> !OccursAt(s, j, p)
    ensures Find(s, p, i) == Some(k)
  {
    FindIsFirst(s, p, i);
  }

  /** Occurrences in a slice are occurrences in the whole. */
  lemma OccursInSlice(s: string, i: nat, j: nat, k: nat, p: string)
    requires i <= j <= |s|
    ensures OccursAt(s[i..j], k, p) <==> i + k + |p| <= j && OccursAt(s, i + k, p)
  {
    if i + k + |p| <= j {
      var a, b := s[i..j][k..k + |p|], s[i + k..i + k + |p|];
      assert |a| == |b| && forall m :: 0 <= m < |a| ==> a[m] == b[m];
    }
  }

  /** Offsets without an occurrence can be skipped. */
  lemma {:induction false} FindSkips(s: string, p: string, i: nat, k: nat)
    requires i <= k <= |s| && forall j :: i <= j < k ==> !OccursAt(s, j, p)
    ensures Find(s, p, i) == Find(s, p, k)
    decreases k - i
  {
    if i < k {
      FindSkips(s, p, i + 1, k);
    }
  }

  predicate Contains(s: string, p: string) {
    Find(s, p, 0).Some?
  }

  // ---------------------------------------------------------------- strtok

  function WordLength(s: string, mark: string): (n: nat)
    ensures n <= |s| && (s != "" && s[0] !in mark ==> n > 0)
  {
    if s == "" || s[0] in mark then 0 else 1 + WordLength(s[1..], mark)
  }

  /** The successive results of strtok: maximal runs of characters outside `mark`. */
  function Tokens(s: string, mark: string): seq<string>
    decreases |s|
  {
    if s == "" then []
    else if s[0] in mark then Tokens(s[1..], mark)
    else
      var n := WordLength(s, mark);
      [s[..n]] + Tokens(s[n..], mark)
  }

  lemma {:induction false} WordLengthOf(w: string, rest: string, mark: string)
    requires forall i :: 0 <= i < |w| ==> w[i] !in mark
    requires rest == "" || rest[0] in mark
    ensures WordLength(w + rest, mark) == |w|
  {
    if w == "" {
      assert w + rest == rest;
    } else {
      assert (w + rest)[0] == w[0] && (w + rest)[1..] == w[1..] + rest;
      WordLengthOf(w[1..], rest, mark);
    }
  }

  /** A word followed by the end of the string or by a mark is the first token. */
  lemma TokensHead(w: string, rest: string, mark: string)
    requires w != "" && forall i :: 0 <= i < |w| ==> w[i] !in mark
    requires rest == "" || rest[0] in mark
    ensures Tokens(w + rest, mark) == [w] + Tokens(rest, mark)
  {
    WordLengthOf(w, rest, mark);
    assert (w + rest)[0] == w[0];
    assert (w + rest)[..|w|] == w && (w + rest)[|w|..] == rest;
  }

  // ---------------------------------------------------------------- atoi

  predicate IsDigit(c: char) {
    '0' <= c <= '9'
  }

  predicate IsSpace(c: char) {
    c == ' ' || '\t' <= c <= '\r'
  }

  function Digits(s: string, acc: nat): nat
    decreases |s|
  {
    if s != "" && IsDigit(s[0]) then Digits(s[1..], 10 * acc + (s[0] as int - '0' as int)) else acc
  }

  function Atoi(s: string): int
    decreases |s|
  {
    if s == "" then 0
    else if IsSpace(s[0]) then Atoi(s[1..])
    else if s[0] == '-' then -(Digits(s[1..], 0) as int)
    else if s[0] == '+' then Digits(s[1..], 0)
    else Digits(s, 0)
  }

  function Digit(d: nat): char
    requires d < 10
  {
    ('0' as int + d) as char
  }

  /** `n` in decimal with exactly two and four digits. */
  function Pad2(n: nat): (s: string)
    requires n < 100
    ensures |s| == 2 && forall i :: 0 <= i < 2 ==> IsDigit(s[i])
  {
    [Digit(n / 10), Digit(n % 10)]
  }

  function Pad4(n: nat): (s: string)
    requires n < 10000
    ensures |s| == 4 && forall i :: 0 <= i < 4 ==> IsDigit(s[i])
  {
    Pad2(n / 100) + Pad2(n % 100)
  }

  lemma DigitsPad2(n: nat, rest: string, acc: nat)
    requires n < 100
    ensures Digits(Pad2(n) + rest, acc) == Digits(rest, 100 * acc + n)
  {
    var s := Pad2(n) + rest;
    assert s[0] == Digit(n / 10) && s[1..] == [Digit(n % 10)] + rest && s[1..][1..] == rest;
    assert Digits(s, acc) == Digits(s[1..], 10 * acc + n / 10);
  }

  lemma AtoiPad2(n: nat)
    requires n < 100
    ensures Atoi(Pad2(n)) == n
  {
    DigitsPad2(n, "", 0);
    assert Pad2(n) + "" == Pad2(n);
  }

  lemma AtoiPad4(n: nat)
    requires n < 10000
    ensures Atoi(Pad4(n)) == n
  {
    DigitsPad2(n / 100, Pad2(n % 100), 0);
    DigitsPad2(n % 100, "", n / 100);
    assert Pad2(n % 100) + "" == Pad2(n % 100);
    assert IsDigit(Pad4(n)[0]);
  }
}
