/**
 * Decimal digit cells and the number they stand for: the arithmetic the big
 * integers are specified against.  Cell 0 is the most significant one.
 */
module Decimal {
  function Pow10(n: nat): (p: nat)
    ensures p >= 1
  {
    if n == 0 then 1 else 10 * Pow10(n - 1)
  }

  ghost predicate AreDigits(s: seq<int>) {
    forall k :: 0 <= k < |s| ==> 0 <= s[k] <= 9
  }

  /** The number the cells from index i on stand for. */
  function Tail(s: seq<int>, i: nat): int
    requires i <= |s|
    decreases |s| - i
  {
    if i == |s| then 0 else s[i] * Pow10(|s| - 1 - i) + Tail(s, i + 1)
  }

  function Magnitude(s: seq<int>): int {
    Tail(s, 0)
  }

  /** The number of decimal digits of v; zero has one. */
  function DigitCount(v: nat): (d: nat)
    ensures d >= 1
  {
    if v < 10 then 1 else 1 + DigitCount(v / 10)
  }

  /** How many cells at the front are zero. */
  function LeadingZeros(s: seq<int>, i: nat := 0): (z: nat)
    requires i <= |s|
    ensures i <= z <= |s|
    ensures forall k :: i <= k < z ==> s[k] == 0
    ensures z < |s| ==> s[z] != 0
    decreases |s| - i
  {
    if i == |s| || s[i] != 0 then i else LeadingZeros(s, i + 1)
  }

  lemma Pow10Sum(m: nat, n: nat)
    ensures Pow10(m + n) == Pow10(m) * Pow10(n)
  {
    if m > 0 {
      Pow10Sum(m - 1, n);
      assert Pow10(m + n) == 10 * Pow10(m - 1 + n);
    }
  }

  lemma {:induction false} Pow10Monotone(m: nat, n: nat)
    requires m <= n
    ensures Pow10(m) <= Pow10(n)
    decreases n
  {
    if m < n {
      Pow10Monotone(m, n - 1);
    }
  }

  lemma DigitTimes(d: int, p: nat)
    requires 0 <= d <= 9
    ensures 0 <= d * p <= 9 * p
  {
  }

  lemma {:induction false} TailBound(s: seq<int>, i: nat)
    requires i <= |s| && AreDigits(s)
    ensures 0 <= Tail(s, i) < Pow10(|s| - i)
    decreases |s| - i
  {
    if i < |s| {
      TailBound(s, i + 1);
      DigitTimes(s[i], Pow10(|s| - 1 - i));
    }
  }

  /** Cells to the left of i do not matter to Tail. */
  lemma {:induction false} TailFrame(s: seq<int>, t: seq<int>, i: nat)
    requires |s| == |t| && i <= |s|
    requires forall k :: i <= k < |s| ==> s[k] == t[k]
    ensures Tail(s, i) == Tail(t, i)
    decreases |s| - i
  {
    if i < |s| {
      TailFrame(s, t, i + 1);
    }
  }

  /** Zero cells contribute nothing. */
  lemma {:induction false} TailSkipZeros(s: seq<int>, i: nat, j: nat)
    requires i <= j <= |s|
    requires forall k :: i <= k < j ==> s[k] == 0
    ensures Tail(s, i) == Tail(s, j)
    decreases j - i
  {
    if i < j {
      TailSkipZeros(s, i + 1, j);
    }
  }

  /** A non-zero first cell puts the number between two powers of ten. */
  lemma LeadingCell(s: seq<int>, i: nat)
    requires i < |s| && AreDigits(s)
    ensures s[i] * Pow10(|s| - 1 - i) <= Tail(s, i) < (s[i] + 1) * Pow10(|s| - 1 - i)
  {
    TailBound(s, i + 1);
    var p := Pow10(|s| - 1 - i);
    assert (s[i] + 1) * p == s[i] * p + p;
  }

  /** DigitCount is pinned down by the surrounding powers of ten. */
  lemma {:induction false} DigitCountBounds(v: nat)
    ensures v < Pow10(DigitCount(v))
    ensures v > 0 ==> Pow10(DigitCount(v) - 1) <= v
  {
    if v >= 10 {
      DigitCountBounds(v / 10);
    }
  }

  lemma DigitCountUnique(v: nat, d: nat)
    requires v < Pow10(d)
    requires d >= 1 && (d == 1 || Pow10(d - 1) <= v)
    ensures DigitCount(v) == d
  {
    DigitCountBounds(v);
    var c := DigitCount(v);
    if c < d {
      Pow10Monotone(c, d - 1);
    } else if d < c {
      Pow10Monotone(d, c - 1);
    }
  }

  lemma {:induction false} DigitCountMonotone(v: nat, w: nat)
    requires v <= w
    ensures DigitCount(v) <= DigitCount(w)
    decreases v
  {
    if v >= 10 {
      DigitCountMonotone(v / 10, w / 10);
    }
  }

  lemma {:induction false} DigitCountAtMost(v: nat, n: nat)
    requires n >= 1 && v < Pow10(n)
    ensures DigitCount(v) <= n
  {
    if v >= 10 {
      assert n > 1;
      DigitCountAtMost(v / 10, n - 1);
    }
  }

  /** The leading zero cells and the digits of the number fill the cells. */
  lemma LeadingZerosCountDigits(s: seq<int>)
    requires AreDigits(s)
    ensures LeadingZeros(s) == |s| <==> Magnitude(s) == 0
    ensures Magnitude(s) > 0 ==> DigitCount(Magnitude(s)) == |s| - LeadingZeros(s)
    ensures Magnitude(s) >= 0
  {
    var z := LeadingZeros(s);
    TailSkipZeros(s, 0, z);
    if z < |s| {
      LeadingCell(s, z);
      TailBound(s, z);
      ProductMonotone(1, s[z], Pow10(|s| - 1 - z));
      DigitCountUnique(Magnitude(s), |s| - z);
    }
  }

  lemma ProductMonotone(a: int, b: int, p: nat)
    requires a <= b
    ensures a * p <= b * p
  {
  }

  /** Equal-width cells are determined by the number they stand for. */
  lemma {:induction false} TailInjective(s: seq<int>, t: seq<int>, i: nat)
    requires |s| == |t| && i <= |s| && AreDigits(s) && AreDigits(t)
    requires Tail(s, i) == Tail(t, i)
    ensures s[i..] == t[i..]
    decreases |s| - i
  {
    if i < |s| {
      LeadingCell(s, i);
      LeadingCell(t, i);
      if s[i] < t[i] {
        ProductMonotone(s[i] + 1, t[i], Pow10(|s| - 1 - i));
      } else if t[i] < s[i] {
        ProductMonotone(t[i] + 1, s[i], Pow10(|s| - 1 - i));
      }
      TailInjective(s, t, i + 1);
      assert s[i..] == [s[i]] + s[i + 1..] && t[i..] == [t[i]] + t[i + 1..];
    }
  }

  /** Dropping `count` zero cells at the front and adding them at the back multiplies by a power of ten. */
  lemma {:induction false} TailShift(s: seq<int>, t: seq<int>, count: nat, i: nat)
    requires |s| == |t| && count <= |s| && i <= |s| - count
    requires forall k :: 0 <= k < |s| - count ==> t[k] == s[k + count]
    requires forall k :: |s| - count <= k < |s| ==> t[k] == 0
    ensures Tail(t, i) == Tail(s, i + count) * Pow10(count)
    decreases |s| - i
  {
    if i == |s| - count {
      TailSkipZeros(t, i, |s|);
    } else {
      TailShift(s, t, count, i + 1);
      Pow10Sum(|s| - 1 - i - count, count);
      ShiftedCell(t[i], Pow10(|s| - 1 - i - count), Tail(s, i + count + 1), Pow10(count));
    }
  }

  lemma ShiftedCell(digit: int, p: int, rest: int, q: int)
    ensures digit * (p * q) + rest * q == (digit * p + rest) * q
  {
  }

  lemma TailUnfolds(s: seq<int>, i: nat)
    requires i < |s|
    ensures Tail(s, i) == s[i] * Pow10(|s| - 1 - i) + Tail(s, i + 1)
  {
  }

  lemma EmptyTail(s: seq<int>)
    ensures Tail(s, |s|) == 0 && Pow10(0) == 1
  {
  }
}
