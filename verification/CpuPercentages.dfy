/** The rounding of CPU counters into tenths of a percent: Percentages of lib_src/linuxke/dap_linux.c. */
module CpuPercentages {
  import opened CStrings

  /** The cast to a signed 32-bit value. */
  function Int32(x: int): int {
    var low := x % 0x1_0000_0000;
    if low < 0x8000_0000 then low else low - 0x1_0000_0000
  }

  /** `change` of one counter: the plain difference, or for a counter that went back the 64-bit
      difference cut to a signed 32-bit value. */
  function Change(new_: int, old_: int): int {
    if new_ - old_ >= 0 then new_ - old_ else Int32(new_ - old_)
  }

  function Changes(new_: seq<int>, old_: seq<int>): (d: seq<int>)
    requires |new_| == |old_|
    ensures |d| == |new_|
  {
    seq(|new_|, i requires 0 <= i < |new_| => Change(new_[i], old_[i]))
  }

  function Sum(xs: seq<int>): int {
    if xs == [] then 0 else Sum(xs[..|xs| - 1]) + xs[|xs| - 1]
  }

  function Divisor(total: int): (t: int)
    ensures t != 0
  {
    if total == 0 then 1 else total
  }

  /** The rounded quotient. */
  function Quotient(d: int, t: int): int
    requires t != 0
  {
    CDiv(d * 1000 + CDiv(t, 2), t)
  }

  /** What is stored of it. */
  function Permille(d: int, t: int): int
    requires t != 0
  {
    Int32(Quotient(d, t))
  }

  function Permilles(d: seq<int>, t: int): (p: seq<int>)
    requires t != 0
    ensures |p| == |d|
  {
    seq(|d|, i requires 0 <= i < |d| => Permille(d[i], t))
  }

  /** The first loop of Percentages: difference each counter and move it into `old_`. */
  method MoveCounters(new_: array<int>, old_: array<int>, diffs: array<int>) returns (total: int)
    requires new_.Length == old_.Length == diffs.Length && new_ != old_ && new_ != diffs && old_ != diffs
    modifies old_, diffs
    ensures old_[..] == new_[..]
    ensures diffs[..] == Changes(new_[..], old(old_[..]))
    ensures total == Sum(diffs[..])
  {
    total := 0;
    for i := 0 to new_.Length
      invariant forall k :: 0 <= k < i ==> old_[k] == new_[k] && diffs[k] == Change(new_[k], old(old_[k]))
      invariant forall k :: i <= k < old_.Length ==> old_[k] == old(old_[k])
      invariant total == Sum(diffs[..i])
    {
      var change := new_[i] - old_[i];
      if change < 0 {
        change := Int32(new_[i] - old_[i]);
      }
      diffs[i] := change;
      assert diffs[..i + 1][..i] == diffs[..i];
      total := total + change;
      old_[i] := new_[i];
    }
    assert diffs[..diffs.Length] == diffs[..];
  }

  /** Percentages: fills `diffs` and `out`, and moves `new_` into `old_`. */
  method Percentages(out: array<int>, new_: array<int>, old_: array<int>, diffs: array<int>) returns (total: int)
    requires new_.Length == old_.Length == diffs.Length == out.Length
    requires out != new_ && out != old_ && out != diffs && new_ != old_ && new_ != diffs && old_ != diffs
    modifies out, old_, diffs
    ensures old_[..] == new_[..]
    ensures diffs[..] == Changes(new_[..], old(old_[..]))
    ensures total == Divisor(Sum(diffs[..]))
    ensures out[..] == Permilles(diffs[..], total)
    ensures total == if Sum(diffs[..]) == 0 then 1 else Sum(diffs[..])
  {
    total := MoveCounters(new_, old_, diffs);
    if total == 0 {
      total := 1;
    }
    var half := CDiv(total, 2);
    for i := 0 to new_.Length
      modifies out
      invariant forall k :: 0 <= k < i ==> out[k] == Permille(diffs[k], total)
    {
      out[i] := Int32(CDiv(diffs[i] * 1000 + half, total));
    }
  }

  /** A counter that goes back gives the 32-bit number that differs from the true difference by multiples of
      2 to the 32. */
  lemma ChangeSpelled(new_: int, old_: int)
    ensures new_ >= old_ ==> Change(new_, old_) == new_ - old_
    ensures new_ < old_ ==> -0x8000_0000 <= Change(new_, old_) < 0x8000_0000 && (Change(new_, old_) - (new_ - old_)) % 0x1_0000_0000 == 0
  {
    var x := new_ - old_;
    assert x == 0x1_0000_0000 * (x / 0x1_0000_0000) + x % 0x1_0000_0000;
    MultipleOf(x / 0x1_0000_0000);
    MultipleOf(x / 0x1_0000_0000 + 1);
  }

  lemma MultipleOf(k: int)
    ensures (-0x1_0000_0000 * k) % 0x1_0000_0000 == 0
  {
  }

  /** A figure that fits is the nearest tenth of a percent. */
  lemma FigureSpelled(d: int, t: int)
    requires t != 0
    ensures d >= 0 && t > 0 && 2000 * d + t < 0x1_0000_0000 * t ==> 2000 * d - t < 2 * t * Permille(d, t) <= 2000 * d + t
  {
    if d >= 0 && t > 0 && 2000 * d + t < 0x1_0000_0000 * t {
      Nearest(d, t);
      CastExact(d, t);
      assert CDiv(t, 2) == t / 2;
    }
  }

  /** The differences and figures that Percentages computes: plain differences for counters that do not go back and
      32-bit ones for those that do, the sum or 1 for the divisor, and the nearest tenths of a percent as long as
      these fit. */
  lemma FiguresSpelled(new_: seq<int>, old_: seq<int>)
    requires |new_| == |old_|
    ensures var d, t := Changes(new_, old_), Divisor(Sum(Changes(new_, old_)));
            && t == (if Sum(d) == 0 then 1 else Sum(d))
            && forall i :: 0 <= i < |new_| ==>
                 && (new_[i] >= old_[i] ==> d[i] == new_[i] - old_[i])
                 && (new_[i] < old_[i] ==>
                       -0x8000_0000 <= d[i] < 0x8000_0000 && (d[i] - (new_[i] - old_[i])) % 0x1_0000_0000 == 0)
                 && (d[i] >= 0 && t > 0 && 2000 * d[i] + t < 0x1_0000_0000 * t ==>
                       2000 * d[i] - t < 2 * t * Permilles(d, t)[i] <= 2000 * d[i] + t)
  {
    var d, t := Changes(new_, old_), Divisor(Sum(Changes(new_, old_)));
    forall i | 0 <= i < |new_|
      ensures d[i] == Change(new_[i], old_[i]) && Permilles(d, t)[i] == Permille(d[i], t)
      ensures new_[i] >= old_[i] ==> d[i] == new_[i] - old_[i]
      ensures new_[i] < old_[i] ==> -0x8000_0000 <= d[i] < 0x8000_0000 && (d[i] - (new_[i] - old_[i])) % 0x1_0000_0000 == 0
      ensures d[i] >= 0 && t > 0 && 2000 * d[i] + t < 0x1_0000_0000 * t ==> 2000 * d[i] - t < 2 * t * Permilles(d, t)[i] <= 2000 * d[i] + t
    {
      ChangeSpelled(new_[i], old_[i]);
      FigureSpelled(d[i], t);
    }
  }

  // ---------------------------------------------------------------- bounds

  ghost predicate NonDecreasing(old_: seq<int>, new_: seq<int>) {
    |old_| == |new_| && forall i :: 0 <= i < |old_| ==> old_[i] <= new_[i]
  }

  /** Rounding to the nearest: twice the error is at most the divisor. */
  lemma Nearest(d: int, t: int)
    requires 0 <= d && 0 < t
    ensures 2000 * d - t < 2 * t * Quotient(d, t) <= 2000 * d + t
  {
    QuotientBounds(d * 1000 + t / 2, t);
    TwiceProduct(t, (d * 1000 + t / 2) / t);
  }

  lemma TwiceProduct(t: int, p: int)
    ensures 2 * t * p == 2 * (t * p)
  {
  }

  lemma QuotientBounds(a: nat, t: int)
    requires 0 < t
    ensures t * (a / t) <= a < t * (a / t) + t
  {
  }

  /** A positive factor cancels from a comparison. */
  lemma Cancel(t: int, a: int, b: int)
    requires 0 < t && t * a < t * b
    ensures a < b
  {
    if b <= a {
      Scale(t, b, a);
    }
  }

  lemma Scale(t: int, a: int, b: int)
    requires 0 < t && a <= b
    ensures t * a <= t * b
  {
  }

  /** A part of a positive total is stored as it is. */
  lemma PermilleRange(d: int, t: int)
    requires 0 <= d <= t && 0 < t
    ensures 0 <= Permille(d, t) == Quotient(d, t) <= 1000
  {
    var p := Quotient(d, t);
    Nearest(d, t);
    assert 2 * t * p == t * (2 * p);
    Cancel(t, 2 * p, 2002);
    Cancel(t, -2, 2 * p);
  }

  lemma {:induction false} SumOfNat(xs: seq<int>, i: nat)
    requires i < |xs| && forall k :: 0 <= k < |xs| ==> 0 <= xs[k]
    ensures 0 <= xs[i] <= Sum(xs)
  {
    var n := |xs| - 1;
    if i < n {
      SumOfNat(xs[..n], i);
    } else if n > 0 {
      SumOfNat(xs[..n], 0);
    }
  }

  lemma AddError(t: int, s: int, p: int, n: nat)
    ensures 2 * t * (s + p) == 2 * t * s + 2 * t * p
    ensures (n + 1) * t == n * t + t
  {
  }

  function Quotients(d: seq<int>, t: int): (q: seq<int>)
    requires t != 0
    ensures |q| == |d|
  {
    seq(|d|, i requires 0 <= i < |d| => Quotient(d[i], t))
  }

  lemma {:induction false} RoundingError(d: seq<int>, t: int)
    requires 0 < t && forall k :: 0 <= k < |d| ==> 0 <= d[k]
    ensures d != [] ==> 2000 * Sum(d) - |d| * t < 2 * t * Sum(Quotients(d, t))
    ensures 2 * t * Sum(Quotients(d, t)) <= 2000 * Sum(d) + |d| * t
  {
    if d != [] {
      var n := |d| - 1;
      assert Quotients(d, t)[..n] == Quotients(d[..n], t);
      RoundingError(d[..n], t);
      Nearest(d[n], t);
      AddError(t, Sum(Quotients(d[..n], t)), Quotient(d[n], t), n);
    }
  }

  lemma BelowExact(a: nat, t: int, k: nat)
    requires 0 < t
    ensures a / t < k <==> a < k * t
  {
    QuotientBounds(a, t);
    if a / t < k {
      Scale(t, a / t + 1, k);
      assert t * (a / t + 1) == t * (a / t) + t;
    } else {
      Scale(t, k, a / t);
    }
  }

  /** Dividing by a negative divisor. */
  lemma NegativeDivisor(a: nat, t: int)
    requires t < 0
    ensures a / t == -(a / -t)
  {
  }

  function Abs(x: int): nat {
    if x >= 0 then x else -x
  }

  lemma SignedQuotient(a: int, t: int)
    requires t != 0
    ensures CDiv(a, t) == if (a >= 0) == (t > 0) then Abs(a) / Abs(t) else -(Abs(a) / Abs(t))
  {
    if t < 0 {
      NegativeDivisor(Abs(a), t);
    }
  }

  lemma CastKeeps(x: int)
    ensures Int32(x) == x <==> -0x8000_0000 <= x < 0x8000_0000
  {
  }

  lemma FitsExactly(a: int, t: int)
    requires t != 0
    ensures -0x8000_0000 <= CDiv(a, t) < 0x8000_0000 <==>
              if t > 0 then -0x8000_0001 * t < a < 0x8000_0000 * t else 0x8000_0000 * t < a < -0x8000_0001 * t
  {
    var q := Abs(a) / Abs(t);
    BelowExact(Abs(a), Abs(t), 0x8000_0000);
    BelowExact(Abs(a), Abs(t), 0x8000_0001);
    SignedQuotient(a, t);
    SignedBounds(a, t, q, CDiv(a, t));
  }

  lemma SignedBounds(a: int, t: int, q: int, x: int)
    requires t != 0 && x == if (a >= 0) == (t > 0) then q else -q
    requires q >= 0 && (q < 0x8000_0000 <==> Abs(a) < 0x8000_0000 * Abs(t))
    requires q < 0x8000_0001 <==> Abs(a) < 0x8000_0001 * Abs(t)
    ensures -0x8000_0000 <= x < 0x8000_0000 <==>
              if t > 0 then -0x8000_0001 * t < a < 0x8000_0000 * t else 0x8000_0000 * t < a < -0x8000_0001 * t
  {
  }

  /** A figure is stored as it is, for any difference and divisor of either sign, exactly when the dividend stays
      below 2147483648 divisors on the positive side and below 2147483649 on the negative one. */
  lemma CastExact(d: int, t: int)
    requires t != 0
    ensures var a := d * 1000 + CDiv(t, 2);
            Permille(d, t) == Quotient(d, t) <==>
              if t > 0 then -0x8000_0001 * t < a < 0x8000_0000 * t else 0x8000_0000 * t < a < -0x8000_0001 * t
  {
    var a := d * 1000 + CDiv(t, 2);
    CastKeeps(Quotient(d, t));
    FitsExactly(a, t);
  }

  /** When a counter goes back the cast can cut: one counter gains three million ticks, another loses one less,
      and the first figure comes out negative. */
  lemma CastCuts()
    ensures var d := Changes([3000000, 0], [0, 2999999]);
            Sum(d) == 1 && Permille(d[0], Divisor(Sum(d))) < 0
  {
    var d := Changes([3000000, 0], [0, 2999999]);
    assert d == [3000000, -2999999] && d[..1] == [3000000] && d[..1][..0] == [];
    assert Sum(d[..1]) == 3000000 && Sum(d) == 1;
    assert Quotient(3000000, 1) == 3000000000;
  }

  /** For counters that do not go back, every figure is between 0 and 1000, and their sum misses 1000 by
      at most half a unit a counter: 999 to 1002 for the four CPU states. With no change all are 0. */
  lemma PercentagesBounded(old_: seq<int>, new_: seq<int>)
    requires NonDecreasing(old_, new_)
    ensures var d := Changes(new_, old_);
            var p := Permilles(d, Divisor(Sum(d)));
            && (forall i :: 0 <= i < |p| ==> 0 <= p[i] <= 1000)
            && (Sum(d) == 0 ==> forall i :: 0 <= i < |p| ==> p[i] == 0)
            && (Sum(d) > 0 ==> 2000 - |p| < 2 * Sum(p) <= 2000 + |p|)
  {
    var d := Changes(new_, old_);
    var total := Sum(d);
    forall i | 0 <= i < |d|
      ensures 0 <= d[i] <= total
    {
      SumOfNat(d, i);
    }
    if total > 0 {
      forall i | 0 <= i < |d|
        ensures 0 <= Permille(d[i], total) == Quotient(d[i], total) <= 1000
      {
        PermilleRange(d[i], total);
      }
      assert Permilles(d, total) == Quotients(d, total);
      RoundingError(d, total);
      CancelFactor(total, Sum(Permilles(d, total)), |d|);
    }
  }

  lemma CancelFactor(t: int, s: int, n: nat)
    requires 0 < t && 2000 * t - n * t < 2 * t * s <= 2000 * t + n * t
    ensures 2000 - n < 2 * s <= 2000 + n
  {
    assert 2 * t * s == t * (2 * s);
    assert 2000 * t - n * t == t * (2000 - n);
    assert 2000 * t + n * t + t == t * (2001 + n);
    Cancel(t, 2000 - n, 2 * s);
    Cancel(t, 2 * s, 2001 + n);
  }

  lemma FourStates(old_: seq<int>, new_: seq<int>)
    requires NonDecreasing(old_, new_) && |new_| == 4 && Sum(Changes(new_, old_)) > 0
    ensures 999 <= Sum(Permilles(Changes(new_, old_), Divisor(Sum(Changes(new_, old_))))) <= 1002
  {
    PercentagesBounded(old_, new_);
  }

  // ---------------------------------------------------------------- over many calls

  /** The differences that successive calls compute for counter `i`, added up. */
  function Total(counters: seq<seq<int>>, i: nat): int
    requires forall k :: 0 <= k < |counters| ==> i < |counters[k]|
  {
    if |counters| <= 1 then 0
    else Total(counters[..|counters| - 1], i) + Change(counters[|counters| - 1][i], counters[|counters| - 2][i])
  }

  /** Over any sequence of calls the differences of a counter telescope: nothing is counted twice or lost. */
  lemma {:induction false} Telescopes(counters: seq<seq<int>>, i: nat)
    requires counters != [] && forall k :: 0 <= k < |counters| ==> i < |counters[k]|
    requires forall k :: 0 < k < |counters| ==> counters[k - 1][i] <= counters[k][i]
    ensures Total(counters, i) == counters[|counters| - 1][i] - counters[0][i]
  {
    if |counters| > 1 {
      Telescopes(counters[..|counters| - 1], i);
    }
  }
}
