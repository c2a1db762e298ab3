/**
 * What a big integer holds, as a value: its digit cells, its length field and
 * its sign flag.  The comparison operators of BigInteger/main.cc work on
 * copies of their operands, so they are functions of this value, and so is the
 * question which operator calls which.
 */
module BigNumber {
  import opened Wrappers
  import opened Decimal

  const NR_DIGITS: nat := 500

  datatype Number = Number(cells: seq<int>, len: int, isPositive: bool) {
    ghost predicate HasDigits() {
      |cells| == NR_DIGITS && AreDigits(cells)
    }

    /** Leading zeros and length zero are allowed; digits outside the length are not. */
    ghost predicate WellFormed() {
      && HasDigits()
      && 0 <= len <= NR_DIGITS
      && forall k :: 0 <= k < NR_DIGITS - len ==> cells[k] == 0
    }

    /** No leading zero, one digit for zero, and no negative zero. */
    ghost predicate Canonical() {
      && WellFormed()
      && len >= 1
      && (len == 1 || cells[NR_DIGITS - len] != 0)
      && (len == 1 && cells[NR_DIGITS - 1] == 0 ==> isPositive)
    }

    ghost function Mag(): int {
      Magnitude(cells)
    }

    /** How many decimal digits the number needs. */
    ghost function Digits(): nat
      requires HasDigits()
    {
      LeadingZerosCountDigits(cells);
      DigitCount(Mag())
    }

    ghost function Value(): int {
      if isPositive then Mag() else -Mag()
    }

    function Abs(): Number {
      this.(isPositive := true)
    }

    /** The cell reads of `>` stay inside both operands. */
    predicate Comparable(b: Number) {
      && |cells| == NR_DIGITS == |b.cells|
      && (len == b.len ==> 1 <= len <= NR_DIGITS)
    }

    predicate Greater(b: Number)
      requires Comparable(b)
    {
      if !isPositive && b.isPositive then false
      else if len > b.len then true
      else len == b.len && cells[NR_DIGITS - len] > b.cells[NR_DIGITS - b.len]
    }

    predicate Equals(b: Number) {
      isPositive == b.isPositive && cells == b.cells
    }

    predicate Less(b: Number)
      requires Comparable(b)
    {
      !Greater(b) && !Equals(b)
    }

    /** The sign test the operators start with compares against a fresh zero. */
    predicate LessThanZero()
      requires |cells| == NR_DIGITS
    {
      Less(Zero())
    }
  }

  function Zero(): Number {
    Number(seq(NR_DIGITS, _ => 0), 1, true)
  }

  /** What a new big integer holds: zeros, none of which counts as a digit. */
  ghost predicate IsBlank(x: Number) {
    |x.cells| == NR_DIGITS && (forall k :: 0 <= k < NR_DIGITS ==> x.cells[k] == 0) && x.len == 0 && x.isPositive
  }

  /** `x < 0` is the sign flag, also with leading zeros, length zero or a negative zero. */
  lemma SignTest(x: Number)
    requires x.WellFormed()
    ensures x.LessThanZero() <==> !x.isPositive
  {
    if x.isPositive && x.len <= 1 && !x.Greater(Zero()) {
      assert x.cells == Zero().cells;
    }
  }

  lemma NumberHasCells(x: Number)
    ensures x.HasDigits() ==> |x.cells| == NR_DIGITS
    ensures x.WellFormed() ==> x.HasDigits() && 0 <= x.len <= NR_DIGITS
    ensures x.Canonical() ==> x.WellFormed() && x.len >= 1
  {
  }

  lemma MagnitudeOfLength(x: Number)
    requires x.WellFormed()
    ensures 0 <= x.Mag() < Pow10(x.len)
  {
    TailSkipZeros(x.cells, 0, NR_DIGITS - x.len);
    TailBound(x.cells, NR_DIGITS - x.len);
  }

  /** Canonical form, said of the number: as many digits as it needs, and no negative zero. */
  lemma CanonicalMeansShortest(x: Number)
    requires x.HasDigits()
    ensures x.Mag() >= 0
    ensures x.Canonical() <==> x.len == x.Digits() && (x.Mag() == 0 ==> x.isPositive)
  {
    var z := LeadingZeros(x.cells);
    LeadingZerosCountDigits(x.cells);
    if x.Canonical() {
      assert x.len == 1 || z == NR_DIGITS - x.len;
    }
  }

  // ----- shrink -----

  /** What `shrink` makes of a length. */
  function ShrunkLength(len: int, cells: seq<int>): int {
    var lenToShrink := LeadingZeros(cells);
    if len > lenToShrink || lenToShrink == |cells| then
      if len - lenToShrink == 0 then 1 else len - lenToShrink
    else len
  }

  /** Number lengths that a second `shrink` leaves alone. */
  predicate SurvivesShrink(digits: nat) {
    2 * digits <= NR_DIGITS || digits == NR_DIGITS
  }

  /**
   * `shrink` finds the shortest length from a full one.  Applied to a length that
   * is already shortest it keeps it exactly for a non-zero number of at most half,
   * or exactly, NR_DIGITS digits; a length that is too short stays too short.
   */
  lemma ShrinkOnceOrTwice(x: Number)
    requires x.HasDigits()
    ensures var shrunk := ShrunkLength(x.len, x.cells);
            && (x.len == NR_DIGITS ==> shrunk == x.Digits())
            && (x.len <= x.Digits() ==>
                  && shrunk <= x.Digits()
                  && (shrunk == x.Digits() <==> x.len == x.Digits() && x.Mag() != 0 && SurvivesShrink(x.Digits())))
  {
    LeadingZerosCountDigits(x.cells);
  }

  /** Cells and sign are determined by the signed value. */
  lemma ValueInjective(x: Number, y: Number)
    requires x.HasDigits() && y.HasDigits()
    requires x.Mag() == y.Mag()
    ensures x.cells == y.cells
  {
    TailInjective(x.cells, y.cells, 0);
    assert x.cells[0..] == x.cells && y.cells[0..] == y.cells;
  }

  /** The lengths or the leading digits tell the magnitudes apart, or nothing needs telling. */
  predicate Separates(x: Number, y: Number)
    requires x.Comparable(y)
  {
    x.cells == y.cells || x.len != y.len || x.cells[NR_DIGITS - x.len] != y.cells[NR_DIGITS - y.len]
  }

  /** `<` orders the magnitudes, both ways round. */
  ghost predicate Orders(x: Number, y: Number)
    requires x.Comparable(y)
  {
    && (x.Abs().Less(y.Abs()) <==> x.Mag() < y.Mag())
    && (y.Abs().Less(x.Abs()) <==> y.Mag() < x.Mag())
  }

  lemma GreaterIsSound(x: Number, y: Number)
    requires x.Canonical() && y.Canonical()
    requires x.Abs().Greater(y.Abs())
    ensures x.Mag() > y.Mag()
  {
    CanonicalMeansShortest(x);
    CanonicalMeansShortest(y);
    if x.len > y.len {
      DigitCountBounds(x.Mag());
      DigitCountBounds(y.Mag());
      Pow10Monotone(y.len, x.len - 1);
      assert x.Mag() != 0;
    } else {
      LargerFirstDigit(x, y);
    }
  }

  /**
   * Whether `<` is right about two magnitudes, leading zeros allowed: they are equal,
   * or written with equally many digits of which the first differs, or the larger one
   * is written longer.
   */
  lemma OrdersIff(x: Number, y: Number)
    requires x.WellFormed() && y.WellFormed() && x.Comparable(y)
    ensures Orders(x, y) <==>
      || x.cells == y.cells
      || (x.len == y.len && x.cells[NR_DIGITS - x.len] != y.cells[NR_DIGITS - y.len])
      || (x.len > y.len && x.Mag() > y.Mag())
      || (x.len < y.len && x.Mag() < y.Mag())
  {
    hide Magnitude;
    if x.Mag() == y.Mag() {
      ValueInjective(x, y);
    } else if x.len == y.len {
      LargerFirstDigit(x, y);
      LargerFirstDigit(y, x);
    }
  }

  /** Of two equally long numbers the one with the larger first digit is larger. */
  lemma LargerFirstDigit(x: Number, y: Number)
    requires x.WellFormed() && y.WellFormed() && 1 <= x.len == y.len
    ensures x.cells[NR_DIGITS - x.len] > y.cells[NR_DIGITS - y.len] ==> x.Mag() > y.Mag()
  {
    var m := NR_DIGITS - x.len;
    if x.cells[m] > y.cells[m] {
      TailSkipZeros(x.cells, 0, m);
      TailSkipZeros(y.cells, 0, m);
      LeadingCell(x.cells, m);
      LeadingCell(y.cells, m);
      ProductMonotone(y.cells[m] + 1, x.cells[m], Pow10(x.len - 1));
    }
  }

  /** `<` orders two canonical magnitudes, both ways round, exactly when they are separated. */
  lemma ComparisonIsRightIffSeparated(x: Number, y: Number)
    requires x.Canonical() && y.Canonical()
    ensures Separates(x, y) <==> Orders(x, y)
  {
    if x.Abs().Greater(y.Abs()) {
      GreaterIsSound(x, y);
    } else if y.Abs().Greater(x.Abs()) {
      GreaterIsSound(y, x);
    }
  }

  // ----- Which operator calls which -----

  datatype Call = Plus(a: Number, b: Number) | Minus(a: Number, b: Number) {
    /** Leading zeros are allowed; comparing two numbers of length zero would read past the cells. */
    ghost predicate Valid() {
      && a.WellFormed()
      && b.WellFormed()
      && ((Plus? && a.isPositive && b.isPositive) || a.Comparable(b))
    }

    ghost predicate CanonicalOperands() {
      a.Canonical() && b.Canonical()
    }

    /** What the call is meant to compute. */
    ghost function Meaning(): int {
      if Plus? then a.Value() + b.Value() else a.Value() - b.Value()
    }

    /** The signs make this a subtraction of the magnitudes. */
    predicate Subtracts() {
      if Plus? then a.isPositive != b.isPositive else a.isPositive == b.isPositive
    }

    ghost predicate Safe()
      requires Valid()
    {
      Subtracts() ==> Separates(a, b)
    }

    /** The comparison is right about the magnitudes if it is needed. */
    ghost predicate Right()
      requires Valid()
    {
      Subtracts() ==> Orders(a, b)
    }

    /** The magnitude the digit loop ends up with fits the cells. */
    ghost predicate Fits() {
      !Subtracts() ==> a.Mag() + b.Mag() < Pow10(NR_DIGITS)
    }

    /** The call comes back, with every cell in bounds. */
    ghost predicate Runs() {
      Valid() && Safe() && Fits()
    }
  }

  /** The recursive call that `+` or `-` makes; none when it runs its digit loop. */
  function NextCall(c: Call): Option<Call>
    requires |c.a.cells| == NR_DIGITS == |c.b.cells|
    requires c.Minus? ==> c.a.Comparable(c.b)
  {
    match c
    case Plus(a, b) =>
      if b.LessThanZero() then Some(Minus(a, b.Abs()))
      else if a.LessThanZero() then Some(Minus(b, a.Abs()))
      else None
    case Minus(a, b) =>
      if b.LessThanZero() then Some(Plus(a, b.Abs()))
      else if a.Less(b) then Some(Minus(b, a))
      else None
  }

  /** The chain of recursive calls from c reaches a digit loop within n calls. */
  ghost predicate EndsWithin(c: Call, n: nat)
    requires c.Valid()
    decreases n
  {
    match NextCall(c)
    case None => true
    case Some(d) =>
      if n == 0 then false
      else
        SignTest(c.a);
        SignTest(c.b);
        EndsWithin(d, n - 1)
  }

  /** How many operands are negative, and whether `-` is about to swap them. */
  ghost function Rank(c: Call): (r: nat)
    requires c.Valid()
  {
    var negatives := (if c.a.isPositive then 0 else 1) + (if c.b.isPositive then 0 else 1);
    2 * negatives + (if c.Minus? && c.b.isPositive && c.a.Less(c.b) then 1 else 0)
  }

  lemma AbsKeepsForm(x: Number)
    ensures x.Abs().WellFormed() <==> x.WellFormed()
    ensures x.Canonical() ==> x.Abs().Canonical()
  {
  }

  /** Each recursive call stays safe, means the right thing, is as right, and ranks lower. */
  lemma NextCallDescends(c: Call)
    requires c.Valid() && c.Safe() && NextCall(c).Some?
    ensures var d := NextCall(c).value;
            && d.Valid() && d.Safe() && Rank(d) < Rank(c)
            && (c.Runs() ==> d.Runs())
            && (d.Right() <==> c.Right())
            && (c.CanonicalOperands() ==> d.a.Abs().Canonical() && d.b.Abs().Canonical())
            && c.Meaning() == (if c.Minus? && c.b.isPositive then -d.Meaning() else d.Meaning())
  {
    hide Magnitude, Pow10, Number.WellFormed, Number.Canonical, Number.LessThanZero;
    SignTest(c.a);
    SignTest(c.b);
    AbsKeepsForm(c.a);
    AbsKeepsForm(c.b);
  }

  lemma CanonicalIsRight(c: Call)
    requires c.Valid() && c.Safe() && c.CanonicalOperands()
    ensures c.Right()
  {
    if c.Subtracts() {
      ComparisonIsRightIffSeparated(c.a, c.b);
    }
  }

  /** Two unseparated magnitudes are swapped for ever. */
  lemma {:induction false} UnseparatedNeverEnds(c: Call, n: nat)
    requires c.Valid() && !c.Safe()
    ensures !EndsWithin(c, n)
    decreases n
  {
    SignTest(c.a);
    SignTest(c.b);
    if n > 0 {
      UnseparatedNeverEnds(NextCall(c).value, n - 1);
    }
  }

  lemma {:induction false} SafeEnds(c: Call)
    requires c.Valid() && c.Safe()
    ensures EndsWithin(c, Rank(c))
    decreases Rank(c)
  {
    hide NextCall, Rank, Call.Safe, Call.Right, Call.Meaning, Call.Runs, Call.CanonicalOperands;
    if NextCall(c).Some? {
      NextCallDescends(c);
      SafeEnds(NextCall(c).value);
      EndsMonotone(NextCall(c).value, Rank(NextCall(c).value), Rank(c) - 1);
    }
  }

  lemma {:induction false} EndsMonotone(c: Call, m: nat, n: nat)
    requires c.Valid() && m <= n && EndsWithin(c, m)
    ensures EndsWithin(c, n)
    decreases m
  {
    SignTest(c.a);
    SignTest(c.b);
    if NextCall(c).Some? {
      EndsMonotone(NextCall(c).value, m - 1, n - 1);
    }
  }

  /**
   * The mutual recursion of `+` and `-` ends exactly when, wherever the signs
   * make it a subtraction, length or leading digit separates the magnitudes.
   */
  lemma RecursionEndsIffSeparated(c: Call)
    requires c.Valid()
    ensures (exists n: nat :: EndsWithin(c, n)) <==> (c.Subtracts() ==> Separates(c.a, c.b))
  {
    if c.Safe() {
      SafeEnds(c);
      var n: nat := Rank(c);
      assert EndsWithin(c, n);
      assert exists n: nat :: EndsWithin(c, n);
    } else {
      forall n: nat ensures !EndsWithin(c, n) {
        UnseparatedNeverEnds(c, n);
      }
      assert !exists n: nat :: EndsWithin(c, n);
    }
  }
}
