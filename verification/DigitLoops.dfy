/** What the digit loops of the big integer operators keep, step by step, and what they end with. */
module DigitLoops {
  import opened Decimal
  import opened BigNumber

  function Max(a: int, b: int): int {
    if a >= b then a else b
  }

  // ----- Arithmetic -----

  lemma RegroupRow(a: int, d: int, q: int)
    ensures d * q * a == a * d * q
  {
  }

  lemma TimesTen(v: int, p: int)
    ensures v * (10 * p) == 10 * (v * p)
  {
  }

  lemma SignedProducts(m: int, n: int)
    ensures m * n == 0 <==> m == 0 || n == 0
    ensures (-m) * n == -(m * n) && m * (-n) == -(m * n) && (-m) * (-n) == m * n
  {
  }

  lemma DigitSplit(v: nat, p: nat)
    ensures v / 10 * (10 * p) + v % 10 * p == v * p
  {
    assert v == v / 10 * 10 + v % 10;
    assert (v / 10 * 10 + v % 10) * p == v / 10 * 10 * p + v % 10 * p;
  }

  lemma SumOfCells(x: int, y: int, carry: int, p: nat)
    ensures (x + y + carry) * p == x * p + y * p + carry * p
  {
  }

  lemma DifferenceOfCells(x: int, y: int, borrowed: int, dig: int, carry: int, p: nat)
    requires dig + 10 * carry == x + borrowed - y
    ensures dig * p + carry * (10 * p) == x * p + borrowed * p - y * p
  {
    assert (dig + 10 * carry) * p == dig * p + carry * (10 * p);
    assert (x + borrowed - y) * p == x * p + borrowed * p - y * p;
  }

  lemma ProductOfCell(digit: int, x: int, carry: int, p: nat, rest: int)
    ensures (digit * x + carry) * p + rest * digit == (x * p + rest) * digit + carry * p
  {
  }

  lemma DistributeRow(a: int, b: int, d: int, q: int, tail: int)
    ensures a * (b - (d * q + tail)) + a * d * q == a * (b - tail)
  {
  }

  // ----- Cells and lengths -----

  /** Storing the low digit of v at cell i leaves v / 10 as the carry. */
  lemma StoreDigit(s: seq<int>, i: nat, v: nat)
    requires i < |s|
    ensures Tail(s[i := v % 10], i) + v / 10 * Pow10(|s| - i) == v * Pow10(|s| - 1 - i) + Tail(s, i + 1)
  {
    TailFrame(s, s[i := v % 10], i + 1);
    DigitSplit(v, Pow10(|s| - 1 - i));
  }

  lemma {:induction false} TailsShrink(s: seq<int>, i: nat, p: nat)
    requires i <= p <= |s| && AreDigits(s)
    ensures Tail(s, p) <= Tail(s, i)
    decreases p - i
  {
    if i < p {
      TailsShrink(s, i + 1, p);
    }
  }

  /** One cell is at most the whole. */
  lemma TailSplit(s: seq<int>, p: nat)
    requires p < |s| && AreDigits(s)
    ensures Tail(s, p) == s[p] * Pow10(|s| - 1 - p) + Tail(s, p + 1)
    ensures s[p] * Pow10(|s| - 1 - p) + Tail(s, p + 1) <= Magnitude(s)
    ensures 0 <= Tail(s, p + 1) && 0 <= s[p] * Pow10(|s| - 1 - p)
  {
    TailBound(s, p + 1);
    TailsShrink(s, 0, p);
  }

  /** A well-formed number has no more digits than its length, and as many if its front cell is not zero. */
  lemma LengthOfDigits(x: Number)
    requires x.WellFormed()
    ensures 0 <= x.Mag()
    ensures x.len >= 1 ==> x.Digits() <= x.len
    ensures x.len >= 1 && x.cells[NR_DIGITS - x.len] != 0 ==> x.Digits() == x.len
  {
    MagnitudeOfLength(x);
    if x.len >= 1 {
      DigitCountAtMost(x.Mag(), x.len);
      if x.cells[NR_DIGITS - x.len] != 0 {
        LeadingZerosCountDigits(x.cells);
      }
    }
  }

  lemma {:induction false} DigitCountTimesPow10(v: nat, n: nat)
    ensures v * Pow10(n) >= 0
    ensures v > 0 ==> DigitCount(v * Pow10(n)) == DigitCount(v) + n
    ensures v == 0 ==> v * Pow10(n) == 0 && DigitCount(v) == 1
  {
    if n > 0 && v > 0 {
      DigitCountTimesPow10(v, n - 1);
      var w := v * Pow10(n - 1);
      TimesTen(v, Pow10(n - 1));
      ProductMonotone(1, v, Pow10(n - 1));
      assert v * Pow10(n) == 10 * w && w >= 1;
    }
  }

  lemma DigitCountOfPow10(n: nat)
    ensures DigitCount(Pow10(n)) == n + 1
  {
    DigitCountTimesPow10(1, n);
  }

  lemma TenDigitsAreEnough(v: nat, len: nat, total: nat)
    requires len <= 10 && total < 0x8000_0000
    requires len > 0 ==> v > 0
    requires v * Pow10(len) <= total
    ensures len < 10
  {
    if len == 10 {
      ProductMonotone(1, v, Pow10(len));
      assert Pow10(5) == 100000;
      Pow10Sum(5, 5);
    }
  }

  /** What the constructor from an int keeps: the cells hold the last digits of the total, v the rest. */
  ghost predicate IntSoFar(total: int, v: int, n: Number) {
    && n.WellFormed() && n.len <= 10 && v >= 0
    && total == v * Pow10(n.len) + Tail(n.cells, NR_DIGITS - n.len)
    && (n.len > 1 && v == 0 ==> n.cells[NR_DIGITS - n.len] != 0)
  }

  lemma IntStarts(total: nat, n: Number)
    requires n.WellFormed() && n.len == 0
    ensures IntSoFar(total, total, n)
  {
    EmptyTail(n.cells);
  }

  lemma IntStep(total: int, v: int, n: Number)
    requires IntSoFar(total, v, n) && total < 0x8000_0000 && (n.len > 0 ==> v > 0)
    ensures n.len < 10
    ensures IntSoFar(total, v / 10, n.(cells := n.cells[NR_DIGITS - 1 - n.len := v % 10], len := n.len + 1))
  {
    hide Tail, Pow10;
    TailBound(n.cells, NR_DIGITS - n.len);
    TenDigitsAreEnough(v, n.len, total);
    StoreDigit(n.cells, NR_DIGITS - 1 - n.len, v);
  }

  lemma IntEnds(total: int, n: Number)
    requires IntSoFar(total, 0, n) && n.len >= 1 && (total == 0 ==> n.isPositive)
    ensures n.Canonical() && n.Mag() == total
  {
    hide Tail, Pow10;
    TailSkipZeros(n.cells, 0, NR_DIGITS - n.len);
    if n.len == 1 && n.cells[NR_DIGITS - 1] == 0 {
      TailSkipZeros(n.cells, NR_DIGITS - 1, NR_DIGITS);
      EmptyTail(n.cells);
    }
  }

  // ----- Addition -----

  /** The cells of a sum from i on, and the carry into the next one, are the sum so far. */
  ghost predicate SumSoFar(a: seq<int>, b: seq<int>, r: seq<int>, i: nat, carry: int) {
    |a| == |b| == |r| && i <= |r| && Tail(r, i) + carry * Pow10(|r| - i) == Tail(a, i) + Tail(b, i)
  }

  lemma SumStarts(a: seq<int>, b: seq<int>, r: seq<int>)
    requires |a| == |b| == |r|
    ensures SumSoFar(a, b, r, |r|, 0)
  {
  }

  lemma SumStep(a: seq<int>, b: seq<int>, r: seq<int>, i: nat, carry: nat)
    requires |a| == |b| == |r| && i < |r| && a[i] >= 0 && b[i] >= 0
    requires SumSoFar(a, b, r, i + 1, carry)
    ensures var dig := a[i] + b[i] + carry; SumSoFar(a, b, r[i := dig % 10], i, dig / 10)
  {
    hide Tail, Pow10;
    TailUnfolds(a, i);
    TailUnfolds(b, i);
    StoreDigit(r, i, a[i] + b[i] + carry);
    SumOfCells(a[i], b[i], carry, Pow10(|r| - 1 - i));
  }

  /** No carry leaves the first cell of a sum that fits. */
  lemma SumKeepsCarry(a: Number, b: Number, r: seq<int>, carry: nat)
    requires |r| == NR_DIGITS && AreDigits(r) && carry <= 1
    requires a.Mag() + b.Mag() < Pow10(NR_DIGITS)
    requires SumSoFar(a.cells, b.cells, r, 0, carry)
    ensures carry == 0
  {
    hide Tail, Pow10;
    TailBound(r, 0);
  }

  lemma SumEnds(a: Number, b: Number, r: Number)
    requires a.WellFormed() && b.WellFormed() && r.WellFormed() && r.len >= Max(1, Max(a.len, b.len))
    requires SumSoFar(a.cells, b.cells, r.cells, NR_DIGITS - r.len, 0)
    requires r.len > Max(1, Max(a.len, b.len)) ==> r.cells[NR_DIGITS - r.len] != 0
    ensures r.Mag() == a.Mag() + b.Mag() >= 0
    ensures r.len == Max(r.Digits(), Max(a.len, b.len))
  {
    hide Tail, Pow10, DigitCount, LeadingZeros;
    var m := NR_DIGITS - r.len;
    TailSkipZeros(r.cells, 0, m);
    TailSkipZeros(a.cells, 0, m);
    TailSkipZeros(b.cells, 0, m);
    LengthOfDigits(r);
  }

  lemma SumIsShortest(a: Number, b: Number, r: Number)
    requires a.Canonical() && b.Canonical() && r.WellFormed() && r.isPositive
    requires r.Mag() == a.Mag() + b.Mag() && r.len == Max(r.Digits(), Max(a.len, b.len))
    ensures r.Canonical()
  {
    CanonicalMeansShortest(a);
    CanonicalMeansShortest(b);
    CanonicalMeansShortest(r);
    DigitCountMonotone(a.Mag(), r.Mag());
    DigitCountMonotone(b.Mag(), r.Mag());
  }

  // ----- Subtraction -----

  /** `shrink`, said of the number: the cells of v have this many zeros in front. */
  function ShrunkFor(len: int, v: nat): int {
    var zeros := if v == 0 then NR_DIGITS else NR_DIGITS - DigitCount(v);
    if len > zeros || v == 0 then (if len == zeros then 1 else len - zeros) else len
  }

  /** The length that is left of a shortest one when `shrink` runs n more times. */
  function LengthAfter(n: nat, v: nat): int {
    if n == 0 then DigitCount(v) else ShrunkFor(LengthAfter(n - 1, v), v)
  }

  function Abs(v: int): nat {
    if v < 0 then -v else v
  }

  /** How often a call shrinks what is shrunk already: once on the way out of every `-` but the innermost. */
  ghost function Repeats(c: Call): nat {
    var minusNegative := c.Minus? && !c.b.isPositive;
    if c.Meaning() >= 0 then (if minusNegative then 1 else 0)
    else if minusNegative || !c.Subtracts() then 2
    else 1
  }

  /** Calls whose canonical operands give a canonical result. */
  ghost predicate KeepsLength(c: Call) {
    Repeats(c) == 0 || (c.Meaning() != 0 && SurvivesShrink(DigitCount(Abs(c.Meaning()))))
  }

  /** Canonical operands always get the right value and sign, and a length with the repeated shrinking in it. */
  ghost predicate Shaped(c: Call, r: Number)
    requires c.Valid()
  {
    c.CanonicalOperands() ==>
      && c.Right()
      && (r.isPositive <==> c.Meaning() >= 0)
      && r.len == LengthAfter(Repeats(c), Abs(c.Meaning()))
  }

  /** The value is right exactly when the comparison is, if it was needed. */
  ghost predicate Computes(c: Call, r: Number)
    requires c.Valid()
  {
    r.HasDigits() && (r.Value() == c.Meaning() <==> c.Right()) && Shaped(c, r)
  }

  /** `shrink` on a shortest length keeps it or makes it too short, and it never recovers. */
  lemma {:induction false} LengthAfterKeeps(n: nat, v: nat)
    requires DigitCount(v) <= NR_DIGITS
    ensures LengthAfter(n, v) <= DigitCount(v)
    ensures LengthAfter(n, v) == DigitCount(v) <==> n == 0 || (v != 0 && SurvivesShrink(DigitCount(v)))
  {
    if n > 0 {
      LengthAfterKeeps(n - 1, v);
      assert v == 0 ==> DigitCount(v) == 1;
    }
  }

  /** Canonical operands give a canonical result exactly if nothing is shrunk twice or the length survives it. */
  lemma CanonicalIffKept(c: Call, r: Number)
    requires c.Valid() && c.CanonicalOperands() && Computes(c, r)
    ensures r.Canonical() <==> KeepsLength(c)
    ensures r.len <= r.Digits()
  {
    hide LengthAfter, Repeats, Call.Right, Call.Meaning, Magnitude, SurvivesShrink;
    CanonicalMeansShortest(r);
    LeadingZerosCountDigits(r.cells);
    LengthAfterKeeps(Repeats(c), Abs(c.Meaning()));
  }

  /** r is what `shrink` makes of the result of a digit loop or of a recursive call. */
  ghost predicate IsShrunk(before: Number, r: Number)
    requires before.HasDigits()
  {
    r == before.(len := ShrunkLength(before.len, before.cells))
  }

  lemma ShrunkByNumber(before: Number, r: Number)
    requires before.HasDigits() && IsShrunk(before, r)
    ensures r.Mag() >= 0 && r.len == ShrunkFor(before.len, r.Mag())
    ensures before.len == NR_DIGITS ==> r.len == r.Digits()
  {
    LeadingZerosCountDigits(before.cells);
    assert DigitCount(0) == 1;
  }

  /** A borrow out of the first cell is dropped. */
  ghost function WrappedDifference(a: Number, b: Number): int {
    if a.Mag() >= b.Mag() then a.Mag() - b.Mag() else a.Mag() - b.Mag() + Pow10(NR_DIGITS)
  }

  /** The cells of a difference from i on, less what was borrowed, are the difference so far. */
  ghost predicate DifferenceSoFar(a: seq<int>, b: seq<int>, r: seq<int>, i: nat, carry: int) {
    |a| == |b| == |r| && i <= |r| && Tail(r, i) + carry * Pow10(|r| - i) == Tail(a, i) - Tail(b, i)
  }

  lemma DifferenceStarts(a: seq<int>, b: seq<int>, r: seq<int>)
    requires |a| == |b| == |r|
    ensures DifferenceSoFar(a, b, r, |r|, 0)
  {
  }

  lemma DifferenceStep(a: seq<int>, b: seq<int>, r: seq<int>, i: nat, borrowed: int, dig: int, carry: int)
    requires |a| == |b| == |r| && i < |r|
    requires dig + 10 * carry == a[i] + borrowed - b[i]
    requires DifferenceSoFar(a, b, r, i + 1, borrowed)
    ensures DifferenceSoFar(a, b, r[i := dig], i, carry)
  {
    TailFrame(r, r[i := dig], i + 1);
    DifferenceOfCells(a[i], b[i], borrowed, dig, carry, Pow10(|r| - 1 - i));
  }

  lemma DifferenceEnds(a: Number, b: Number, r: Number, carry: int)
    requires a.HasDigits() && b.HasDigits() && r.HasDigits() && -1 <= carry <= 0
    requires DifferenceSoFar(a.cells, b.cells, r.cells, 0, carry)
    ensures r.Mag() == WrappedDifference(a, b)
  {
    hide Tail, Pow10;
    TailBound(a.cells, 0);
    TailBound(b.cells, 0);
    TailBound(r.cells, 0);
  }

  /** Without a swap, the comparison is right exactly when nothing is borrowed from outside. */
  lemma WrapsUnlessRight(a: Number, b: Number)
    requires Minus(a, b).Valid() && Separates(a, b)
    requires a.isPositive && b.isPositive && !a.Less(b)
    ensures Orders(a, b) <==> WrappedDifference(a, b) == a.Mag() - b.Mag()
  {
    if a.Mag() == b.Mag() {
      ValueInjective(a, b);
    }
  }

  /** `+` of a negative number, from the difference it called for. */
  lemma AfterMinus(c: Call, r: Number)
    requires c.Plus? && c.Runs() && !c.b.isPositive && Minus(c.a, c.b.Abs()).Valid()
    requires Computes(Minus(c.a, c.b.Abs()), r)
    ensures Computes(c, r)
  {
    hide Magnitude, LengthAfter;
    SignTest(c.b);
    NextCallDescends(c);
    if c.CanonicalOperands() {
      CanonicalMeansShortest(c.a);
      CanonicalMeansShortest(c.b);
      assert Repeats(c) == Repeats(Minus(c.a, c.b.Abs()));
    }
  }

  /** A negative number plus one that is not, from the opposite difference. */
  lemma AfterOppositeMinus(c: Call, r: Number)
    requires c.Plus? && c.Runs() && c.b.isPositive && !c.a.isPositive && Minus(c.b, c.a.Abs()).Valid()
    requires Computes(Minus(c.b, c.a.Abs()), r)
    ensures Computes(c, r)
  {
    hide Magnitude, LengthAfter;
    SignTest(c.a);
    SignTest(c.b);
    NextCallDescends(c);
    if c.CanonicalOperands() {
      CanonicalMeansShortest(c.a);
      CanonicalMeansShortest(c.b);
      assert Repeats(c) == Repeats(Minus(c.b, c.a.Abs()));
    }
  }

  /** `+` without a recursive call, from its digit loop. */
  lemma AfterSumLoop(c: Call, r: Number)
    requires c.Plus? && c.Runs() && c.a.isPositive && c.b.isPositive
    requires r.WellFormed() && r.isPositive && r.Mag() == c.a.Mag() + c.b.Mag() >= 0
    requires r.len == Max(r.Digits(), Max(c.a.len, c.b.len))
    ensures Computes(c, r)
  {
    hide Magnitude;
    if c.CanonicalOperands() {
      SumIsShortest(c.a, c.b, r);
      CanonicalMeansShortest(r);
    }
  }

  /** `-` of a negative number, from the sum it called for. */
  lemma AfterSum(c: Call, sum: Number, r: Number)
    requires c.Minus? && c.Runs() && !c.b.isPositive
    requires Computes(Plus(c.a, c.b.Abs()), sum) && IsShrunk(sum, r)
    ensures Computes(c, r)
  {
    hide Magnitude, ShrunkFor, ShrunkLength;
    SignTest(c.b);
    NextCallDescends(c);
    if c.CanonicalOperands() {
      CanonicalMeansShortest(c.a);
      CanonicalMeansShortest(c.b);
      CanonicalMeansShortest(sum);
      assert Repeats(c) == Repeats(Plus(c.a, c.b.Abs())) + 1;
      ShrunkByNumber(sum, r);
    }
  }

  /** `-` when its operands were swapped, from the opposite difference. */
  lemma AfterSwap(c: Call, opposite: Number, r: Number)
    requires c.Minus? && c.Runs() && c.b.isPositive && c.a.Less(c.b)
    requires Computes(Minus(c.b, c.a), opposite) && opposite.isPositive
    requires IsShrunk(opposite.(isPositive := false), r)
    ensures Computes(c, r)
  {
    hide Magnitude, ShrunkFor, ShrunkLength;
    SignTest(c.a);
    SignTest(c.b);
    NextCallDescends(c);
    if c.CanonicalOperands() {
      CanonicalMeansShortest(c.a);
      CanonicalMeansShortest(c.b);
      CanonicalMeansShortest(opposite);
      CanonicalIsRight(c);
      assert c.Meaning() < 0;
      ShrunkByNumber(opposite.(isPositive := false), r);
    }
  }

  /** `-` without a recursive call, from its digit loop. */
  lemma AfterLoop(c: Call, difference: Number, r: Number)
    requires c.Minus? && c.Runs() && c.a.isPositive && c.b.isPositive && !c.a.Less(c.b)
    requires difference.HasDigits() && difference.isPositive && difference.len == NR_DIGITS
    requires difference.Mag() == WrappedDifference(c.a, c.b) && IsShrunk(difference, r)
    ensures Computes(c, r) && r.len == r.Digits()
  {
    hide Magnitude, ShrunkFor, ShrunkLength;
    WrapsUnlessRight(c.a, c.b);
    ShrunkByNumber(difference, r);
    if c.CanonicalOperands() {
      CanonicalIsRight(c);
    }
  }

  /** `==` compares cells and signs, and that is comparing values. */
  lemma EqualsIffSameValue(a: Number, b: Number)
    requires a.Canonical() && b.Canonical()
    ensures a.Equals(b) <==> a.Value() == b.Value()
  {
    CanonicalMeansShortest(a);
    CanonicalMeansShortest(b);
    if a.Value() == b.Value() {
      ValueInjective(a, b);
    }
  }

  /** Subtracting one from a larger number never runs into the comparison's blind spot. */
  lemma OneIsSeparated(b: Number, one: Number)
    requires b.Canonical() && one.Canonical() && b.isPositive && one.Value() == 1 && b.Value() > 1
    ensures Minus(b, one).Runs() && Minus(b, one).Right()
  {
    CanonicalMeansShortest(one);
    ComparisonIsRightIffSeparated(b, one);
    assert one.len == 1;
    if b.len == 1 {
      TailSkipZeros(one.cells, 0, NR_DIGITS - 1);
      TailSkipZeros(b.cells, 0, NR_DIGITS - 1);
      EmptyTail(b.cells);
      EmptyTail(one.cells);
    }
  }

  // ----- Multiplication, row by row -----

  ghost predicate Multipliable(a: Number, b: Number) {
    && a.WellFormed()
    && b.WellFormed()
    && (b.len == 0 || a.len + b.len <= NR_DIGITS + 1)
    && a.Mag() * b.Mag() < Pow10(NR_DIGITS)
  }

  lemma FittingFactors(a: Number, b: Number)
    requires Multipliable(a, b)
    ensures a.WellFormed() && b.WellFormed()
  {
  }

  /** The row with the given digit and place stays inside the cells. */
  ghost predicate RowFits(a: Number, digit: int, place: nat) {
    && a.WellFormed() && 0 <= digit <= 9
    && place < NR_DIGITS && a.len + place <= NR_DIGITS
    && a.Mag() * digit < Pow10(NR_DIGITS - place)
  }

  /** The row that a digit at a place contributes to a product with a. */
  ghost predicate IsRow(a: Number, digit: int, place: nat, row: Number) {
    && row.WellFormed() && row.isPositive
    && a.Mag() * digit >= 0
    && row.Mag() == a.Mag() * digit * Pow10(place)
    && (a.len >= 1 ==> row.len == Max(a.len, DigitCount(a.Mag() * digit)) + place)
  }

  /** The sum of the rows of the cells of b before cell p. */
  ghost predicate IsRowSum(a: Number, b: Number, p: nat, sum: Number)
    requires a.WellFormed() && b.WellFormed() && p <= NR_DIGITS
  {
    && sum.WellFormed() && sum.isPositive
    && sum.Mag() == a.Mag() * (b.Mag() - Tail(b.cells, p))
    && (a.len >= 1 && p > NR_DIGITS - b.len ==> sum.len == Max(sum.Digits(), a.len + b.len - 1))
    && (p == NR_DIGITS - b.len ==> sum.len == 0)
  }

  lemma UnshiftedRowFits(a: nat, d: nat, q: nat, b: nat, limit: nat)
    requires d * q <= b && a * b < limit * q
    ensures a * d < limit
  {
    ProductMonotone(d * q, b, a);
    RegroupRow(a, d, q);
    if a * d >= limit {
      ProductMonotone(limit, a * d, q);
    }
  }

  lemma EveryRowFits(a: Number, b: Number, p: nat)
    requires Multipliable(a, b) && NR_DIGITS - b.len <= p < NR_DIGITS
    ensures RowFits(a, b.cells[p], NR_DIGITS - 1 - p)
  {
    hide Tail, Pow10;
    MagnitudeOfLength(a);
    TailSplit(b.cells, p);
    Pow10Sum(p + 1, NR_DIGITS - 1 - p);
    UnshiftedRowFits(a.Mag(), b.cells[p], Pow10(NR_DIGITS - 1 - p), b.Mag(), Pow10(p + 1));
  }

  /** The cells of a row from i on, and the carry into the next one, are the product so far. */
  ghost predicate RowSoFar(a: seq<int>, digit: int, r: seq<int>, i: nat, carry: int) {
    |a| == |r| && i <= |r| && Tail(r, i) + carry * Pow10(|r| - i) == Tail(a, i) * digit
  }

  lemma RowStarts(a: seq<int>, digit: int, r: seq<int>)
    requires |a| == |r|
    ensures RowSoFar(a, digit, r, |r|, 0)
  {
  }

  lemma DigitTimesCell(digit: nat, x: int, carry: nat)
    requires 0 <= x <= 9 && digit <= 9 && carry <= 8
    ensures 0 <= digit * x + carry <= 89
  {
    ProductMonotone(x, 9, digit);
  }

  lemma RowStep(a: seq<int>, digit: nat, r: seq<int>, i: nat, carry: nat)
    requires |a| == |r| && i < |r| && 0 <= a[i] <= 9 && digit <= 9 && carry <= 8
    requires RowSoFar(a, digit, r, i + 1, carry)
    ensures 0 <= digit * a[i] + carry <= 89
    ensures var dig := digit * a[i] + carry; RowSoFar(a, digit, r[i := dig % 10], i, dig / 10)
  {
    hide Tail, Pow10, RowSoFar;
    TailUnfolds(a, i);
    DigitTimesCell(digit, a[i], carry);
    StoreDigit(r, i, digit * a[i] + carry);
    RowSoFarUnfolds(a, digit, r, i + 1, carry);
    var dig := digit * a[i] + carry;
    var p, q := Pow10(|r| - 1 - i), Pow10(|r| - i);
    RowOfCell(Tail(r[i := dig % 10], i), dig / 10 * q, Tail(r, i + 1), digit, a[i], carry, p, Tail(a, i + 1));
    RowSoFarFolds(a, digit, r[i := dig % 10], i, dig / 10);
  }

  lemma RowSoFarUnfolds(a: seq<int>, digit: int, r: seq<int>, i: nat, carry: int)
    requires RowSoFar(a, digit, r, i, carry)
    ensures Tail(r, i) + carry * Pow10(|r| - i) == Tail(a, i) * digit
  {
  }

  lemma RowSoFarFolds(a: seq<int>, digit: int, r: seq<int>, i: nat, carry: int)
    requires |a| == |r| && i <= |r|
    requires Tail(r, i) + carry * Pow10(|r| - i) == Tail(a, i) * digit
    ensures RowSoFar(a, digit, r, i, carry)
  {
  }

  /** A new cell and carry in terms of the old ones. */
  lemma RowOfCell(now: int, carried: int, was: int, digit: int, x: int, carry: int, p: nat, rest: int)
    requires now + carried == (digit * x + carry) * p + was
    requires was + carry * p == rest * digit
    ensures now + carried == (x * p + rest) * digit
  {
    ProductOfCell(digit, x, carry, p, rest);
  }

  /** No carry leaves the first cell of a row that fits. */
  lemma NoCarryOut(a: Number, digit: int, place: nat, r: seq<int>, carry: nat)
    requires RowFits(a, digit, place) && |r| == NR_DIGITS && AreDigits(r)
    requires RowSoFar(a.cells, digit, r, 0, carry)
    ensures carry == 0
  {
    TailBound(r, 0);
    Pow10Monotone(NR_DIGITS - place, NR_DIGITS);
    if carry >= 1 {
      ProductMonotone(1, carry, Pow10(|r|));
    }
  }

  /** What the loop over a row keeps: the row so far, and no leading zero beyond the number's length. */
  ghost predicate RowGrows(a: Number, digit: int, row: Number, carry: int) {
    && row.WellFormed() && row.isPositive && 0 <= carry <= 8
    && RowSoFar(a.cells, digit, row.cells, NR_DIGITS - row.len, carry)
    && (row.len > Max(0, a.len) ==> carry == 0 && row.cells[NR_DIGITS - row.len] != 0)
  }

  lemma RowGrowsFromZero(a: Number, digit: int, row: Number)
    requires a.WellFormed() && IsBlank(row)
    ensures RowGrows(a, digit, row, 0)
  {
    RowStarts(a.cells, digit, row.cells);
  }

  /** There is a cell left for the next digit. */
  lemma RowHasRoom(a: Number, digit: int, place: nat, row: Number, carry: int)
    requires RowFits(a, digit, place) && RowGrows(a, digit, row, carry)
    requires row.len < a.len || carry != 0
    ensures |a.cells| == |row.cells| == NR_DIGITS && 0 <= row.len < NR_DIGITS
  {
    if row.len == NR_DIGITS {
      NoCarryOut(a, digit, place, row.cells, carry);
      assert false;
    }
  }

  lemma RowGrowsByCell(a: Number, digit: int, row: Number, carry: int, j: nat, dig: int, next: Number)
    requires a.WellFormed() && 0 <= digit <= 9 && RowGrows(a, digit, row, carry)
    requires row.len < a.len || carry != 0
    requires j == NR_DIGITS - 1 - row.len && dig == digit * a.cells[j] + carry
    requires next == Number(row.cells[j := dig % 10], row.len + 1, true)
    ensures RowGrows(a, digit, next, dig / 10)
  {
    hide Tail, Pow10, RowSoFar, Magnitude;
    RowStep(a.cells, digit, row.cells, j, carry);
    BeyondNumber(a, digit, j);
  }

  /** In front of its digits a number contributes nothing to a row. */
  lemma BeyondNumber(a: Number, digit: int, j: nat)
    requires a.WellFormed() && j < NR_DIGITS
    ensures j < NR_DIGITS - a.len ==> digit * a.cells[j] == 0
  {
  }

  lemma FittingRow(a: Number, digit: int, place: nat)
    requires RowFits(a, digit, place)
    ensures a.WellFormed() && 0 <= digit <= 9
  {
  }

  lemma RowEnds(a: Number, digit: int, place: nat, row: Number)
    requires RowFits(a, digit, place) && RowGrows(a, digit, row, 0) && row.len >= a.len
    ensures row.WellFormed() && row.isPositive
    ensures a.Mag() * digit >= 0 && row.Mag() == a.Mag() * digit
    ensures row.len + place <= NR_DIGITS
    ensures a.len >= 1 ==> row.len == Max(a.len, DigitCount(row.Mag()))
  {
    hide Tail, Pow10, DigitCount, LeadingZeros;
    TailSkipZeros(row.cells, 0, NR_DIGITS - row.len);
    TailSkipZeros(a.cells, 0, NR_DIGITS - row.len);
    LengthOfDigits(row);
    if row.len > a.len {
      DigitCountAtMost(row.Mag(), NR_DIGITS - place);
    }
  }

  lemma RowMoves(a: Number, digit: int, place: nat, unmoved: Number, row: Number)
    requires a.Mag() * digit >= 0 && unmoved.Mag() == a.Mag() * digit
    requires a.len >= 1 ==> unmoved.len == Max(a.len, DigitCount(unmoved.Mag()))
    requires row.WellFormed() && row.isPositive
    requires row.Mag() == unmoved.Mag() * Pow10(place) && row.len == unmoved.len + place
    ensures IsRow(a, digit, place, row)
  {
  }

  lemma NoRowsYet(a: Number, b: Number, sum: Number)
    requires a.WellFormed() && b.WellFormed()
    requires IsBlank(sum)
    ensures IsRowSum(a, b, NR_DIGITS - b.len, sum)
  {
    hide Tail, Pow10, DigitCount;
    TailSkipZeros(b.cells, 0, NR_DIGITS - b.len);
    TailSkipZeros(sum.cells, 0, NR_DIGITS);
    EmptyTail(sum.cells);
    NoProduct(a.Mag());
  }

  lemma NoProduct(m: int)
    ensures m * 0 == 0
  {
  }

  lemma RowFitsSum(a: Number, b: Number, p: nat, sum: Number, row: Number)
    requires Multipliable(a, b) && NR_DIGITS - b.len <= p < NR_DIGITS
    requires IsRow(a, b.cells[p], NR_DIGITS - 1 - p, row) && IsRowSum(a, b, p, sum)
    ensures sum.Mag() + row.Mag() == a.Mag() * (b.Mag() - Tail(b.cells, p + 1)) < Pow10(NR_DIGITS)
    ensures Plus(sum, row).Valid() && Plus(sum, row).Runs() && Plus(sum, row).Right()
    ensures row.isPositive && sum.isPositive && row.Mag() >= 0 && sum.Mag() >= 0
  {
    hide Tail, Pow10, DigitCount;
    var tail := Tail(b.cells, p + 1);
    MagnitudeOfLength(a);
    MagnitudeOfLength(row);
    MagnitudeOfLength(sum);
    TailSplit(b.cells, p);
    DistributeRow(a.Mag(), b.Mag(), b.cells[p], Pow10(NR_DIGITS - 1 - p), tail);
    ProductMonotone(b.Mag() - tail, b.Mag(), a.Mag());
  }

  /** Adding the next row keeps the running sum exact and of the expected length. */
  lemma RowAdds(a: Number, b: Number, p: nat, sum: Number, row: Number, next: Number)
    requires Multipliable(a, b) && NR_DIGITS - b.len <= p < NR_DIGITS
    requires IsRow(a, b.cells[p], NR_DIGITS - 1 - p, row) && IsRowSum(a, b, p, sum)
    requires next.WellFormed() && next.isPositive && next.Value() == sum.Value() + row.Value()
    requires next.len == Max(next.Digits(), Max(sum.len, row.len))
    ensures IsRowSum(a, b, p + 1, next)
  {
    hide Tail, Pow10, DigitCount, Call.Valid, Call.Runs, Call.Right, RowFits;
    RowFitsSum(a, b, p, sum, row);
    DigitCountTimesPow10(a.Mag() * b.cells[p], NR_DIGITS - 1 - p);
    DigitCountMonotone(row.Mag(), next.Mag());
    DigitCountMonotone(sum.Mag(), next.Mag());
  }

  /** The sum of all rows, with the sign set, is the product. */
  lemma AllRows(a: Number, b: Number, sum: Number, r: Number)
    requires a.WellFormed() && b.WellFormed()
    requires IsRowSum(a, b, NR_DIGITS, sum) && r == sum.(isPositive := a.isPositive && b.isPositive)
    ensures r.WellFormed() && r.Mag() == a.Mag() * b.Mag()
    ensures a.len >= 1 && b.len >= 1 ==> r.len == Max(r.Digits(), a.len + b.len - 1)
    ensures a.Canonical() && b.Canonical() ==> IsSignedProduct(a, b, r)
  {
    hide Tail, Pow10, DigitCount, IsSignedProduct;
    EmptyTail(b.cells);
    if a.Canonical() && b.Canonical() {
      ProductShape(a, b, r);
    }
  }

  // ----- The shape of a product -----

  lemma ProductDigits(a: Number, b: Number)
    requires a.Canonical() && b.Canonical() && a.Mag() >= 1 && b.Mag() >= 1
    ensures a.Mag() * b.Mag() >= 1
    ensures a.len + b.len - 1 <= DigitCount(a.Mag() * b.Mag())
  {
    hide Tail, Pow10, DigitCount;
    CanonicalMeansShortest(a);
    CanonicalMeansShortest(b);
    hide Magnitude, Number.Canonical;
    DigitsOfProduct(a.Mag(), b.Mag());
  }

  lemma DigitsOfProduct(m: nat, n: nat)
    requires m >= 1 && n >= 1
    ensures m * n >= 1 && DigitCount(m) + DigitCount(n) - 1 <= DigitCount(m * n)
  {
    DigitCountBounds(m);
    DigitCountBounds(n);
    hide Pow10, DigitCount;
    var i, j := DigitCount(m) - 1, DigitCount(n) - 1;
    LeastProduct(Pow10(i), m, Pow10(j), n);
    Pow10Sum(i, j);
    DigitCountOfPow10(i + j);
    DigitCountMonotone(Pow10(i + j), m * n);
  }

  lemma LeastProduct(p: nat, m: nat, q: nat, n: nat)
    requires 1 <= p <= m && 1 <= q <= n
    ensures 1 <= p * q <= m * n
  {
    ProductMonotone(p, m, q);
    ProductMonotone(q, n, m);
  }

  /** Two positive numbers whose product fits have little enough digits between them. */
  lemma ProductLengths(a: Number, b: Number)
    requires a.Canonical() && b.Canonical() && a.Value() >= 1 && b.Value() >= 1
    requires a.Mag() * b.Mag() < Pow10(NR_DIGITS)
    ensures Multipliable(a, b)
  {
    hide Tail, Pow10, DigitCount;
    CanonicalMeansShortest(a);
    CanonicalMeansShortest(b);
    ProductDigits(a, b);
    DigitCountAtMost(a.Mag() * b.Mag(), NR_DIGITS);
  }

  lemma OneDigitCounts(v: nat)
    ensures v <= 9 ==> DigitCount(v) == 1
  {
  }

  /** One-digit factors always fit. */
  lemma OneDigitFactors(a: Number, b: Number)
    requires a.Canonical() && b.Canonical() && -9 <= a.Value() <= 9 && -9 <= b.Value() <= 9
    ensures Multipliable(a, b) && a.len == b.len == 1
    ensures 0 <= a.Mag() <= 9 && 0 <= b.Mag() <= 9
  {
    hide Tail;
    CanonicalMeansShortest(a);
    CanonicalMeansShortest(b);
    assert Pow10(2) == 100;
    Pow10Monotone(2, NR_DIGITS);
    hide Magnitude, Pow10;
    ProductMonotone(a.Mag(), 9, b.Mag());
  }

  /**
   * The signed value is the product unless both factors are negative, and the
   * form is canonical except for a zero that came out negative or too long.
   */
  ghost predicate IsSignedProduct(a: Number, b: Number, r: Number) {
    && (r.Value() == a.Value() * b.Value() <==> a.isPositive || b.isPositive)
    && (r.Canonical() <==>
          || (a.Mag() != 0 && b.Mag() != 0)
          || (a.isPositive && b.isPositive && a.len == 1 && b.len == 1))
  }

  /** Length and sign of a product, from the length `*` leaves behind. */
  lemma ProductShape(a: Number, b: Number, r: Number)
    requires a.Canonical() && b.Canonical() && r.WellFormed()
    requires r.Mag() == a.Mag() * b.Mag() && r.isPositive == (a.isPositive && b.isPositive)
    requires r.len == Max(r.Digits(), a.len + b.len - 1)
    ensures IsSignedProduct(a, b, r)
  {
    hide Tail, Pow10;
    assert DigitCount(0) == 1;
    hide DigitCount;
    CanonicalMeansShortest(a);
    CanonicalMeansShortest(b);
    CanonicalMeansShortest(r);
    SignedProducts(a.Mag(), b.Mag());
    if a.Mag() >= 1 && b.Mag() >= 1 {
      ProductDigits(a, b);
    }
  }
}
