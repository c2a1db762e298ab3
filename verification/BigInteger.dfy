/** BigInteger/main.cc: the fixed-width decimal integer, its operators and `fact`. */
module BigIntegers {
  import opened Wrappers
  import opened Decimal
  import opened BigNumber
  import opened DigitLoops
  import opened NumberText
  import opened Numerals

  datatype BigIntegerError = NumberTooLarge | InvalidDigit | BaseNotSupported

  class BigInteger {
    const arr: array<int>
    var len: int
    var isPositive: bool

    function Snap(): (n: Number)
      reads this, arr
      ensures n.cells == arr[..] && n.len == len && n.isPositive == isPositive
    {
      Number(arr[..], len, isPositive)
    }

    constructor ()
      ensures fresh(arr) && arr.Length == NR_DIGITS
      ensures forall k :: 0 <= k < NR_DIGITS ==> arr[k] == 0
      ensures len == 0 && isPositive
    {
      arr := new int[NR_DIGITS](_ => 0);
      len := 0;
      isPositive := true;
    }

    constructor Copy(b: BigInteger)
      ensures fresh(arr) && Snap() == b.Snap()
    {
      arr := new int[b.arr.Length](i requires 0 <= i < b.arr.Length reads b.arr => b.arr[i]);
      len := b.len;
      isPositive := b.isPositive;
      new;
      assert arr[..] == b.arr[..];
    }

    /** Every int but the smallest, whose negation does not fit. */
    constructor FromInt(value: int)
      requires -0x8000_0000 < value < 0x8000_0000
      ensures fresh(arr) && Snap().Canonical()
      ensures Snap().Value() == value
    {
      hide IntSoFar;
      arr := new int[NR_DIGITS](_ => 0);
      len := 0;
      isPositive := value >= 0;
      new;
      var v := if isPositive then value else -value;
      ghost var total := v;
      IntStarts(total, Snap());
      var i := NR_DIGITS - 1;
      var more := true;
      while more
        invariant i == NR_DIGITS - 1 - len && 0 <= len <= 10
        invariant IntSoFar(total, v, Snap()) && isPositive == (value >= 0)
        invariant v >= 0 && (more <==> len == 0 || v > 0)
        decreases more, v
      {
        IntStep(total, v, Snap());
        ghost var before := arr[..];
        arr[i] := v % 10;
        assert arr[..] == before[i := v % 10];
        v := v / 10;
        i := i - 1;
        len := len + 1;
        more := len != 0 && v != 0;
      }
      IntEnds(total, Snap());
    }

    /** Accepts exactly the base-10 digit strings of at most NR_DIGITS characters. */
    static method FromString(digits: string, base: int) returns (r: Result<BigInteger, BigIntegerError>)
      ensures r.Failure? && r.error == NumberTooLarge <==> |digits| > NR_DIGITS
      ensures r.Failure? && r.error == BaseNotSupported <==> |digits| <= NR_DIGITS && base != 10
      ensures r.Success? <==> |digits| <= NR_DIGITS && base == 10 && AllDigits(digits)
      ensures r.Success? ==> fresh(r.value) && fresh(r.value.arr) && r.value.Snap() == Parsed(digits)
    {
      if |digits| > NR_DIGITS {
        return Failure(NumberTooLarge);
      }
      var b := new BigInteger();
      b.len := |digits|;
      b.isPositive := digits == "" || digits[0] != '-';
      if base != 10 {
        return Failure(BaseNotSupported);
      }
      var i, j := b.len - 1, NR_DIGITS - 1;
      while i >= 0
        invariant -1 <= i < |digits| && j - i == NR_DIGITS - |digits| && b.len == |digits|
        invariant forall k :: 0 <= k <= j ==> b.arr[k] == 0
        invariant forall k :: i < k < |digits| ==> IsDigit(digits[k])
        invariant forall k :: j < k < NR_DIGITS ==> b.arr[k] == DigitValue(digits[k - (NR_DIGITS - |digits|)])
        modifies b.arr
      {
        if '0' <= digits[i] <= '9' {
          b.arr[j] := digits[i] as int - '0' as int;
        } else {
          return Failure(InvalidDigit);
        }
        i, j := i - 1, j - 1;
      }
      assert b.arr[..] == Parsed(digits).cells;
      r := Success(b);
    }

    method PrependDigits(digit: int)
      requires arr.Length == NR_DIGITS && 0 <= len < NR_DIGITS
      modifies this`len, arr
      ensures len == old(len) + 1
      ensures arr[..] == old(arr[..])[NR_DIGITS - len := digit]
    {
      arr[NR_DIGITS - 1 - len] := digit;
      len := len + 1;
    }

    /** Moves the digits `count` cells to the left: multiplies by a power of ten. */
    method AppendZeros(count: nat)
      requires Snap().WellFormed() && len + count <= NR_DIGITS
      modifies this`len, arr
      ensures len == old(len) + count
      ensures Snap().WellFormed() && Snap().Mag() == old(Snap().Mag()) * Pow10(count)
    {
      ghost var before := arr[..];
      forall k | NR_DIGITS - len <= k < NR_DIGITS {
        arr[k - count] := arr[k];
      }
      forall k | NR_DIGITS - count <= k < NR_DIGITS {
        arr[k] := 0;
      }
      len := len + count;
      TailShift(before, arr[..], count, 0);
      TailSkipZeros(before, 0, count);
    }

    method Shrink()
      requires arr.Length == NR_DIGITS
      modifies this`len
      ensures len == ShrunkLength(old(len), arr[..])
    {
      var lenToShrink := 0;
      var i := 0;
      while i < NR_DIGITS && arr[i] == 0
        invariant 0 <= i <= NR_DIGITS && lenToShrink == i
        invariant LeadingZeros(arr[..], i) == LeadingZeros(arr[..])
      {
        lenToShrink := lenToShrink + 1;
        i := i + 1;
      }
      if len > lenToShrink || lenToShrink == NR_DIGITS {
        len := len - lenToShrink;
        if len == 0 {
          len := 1;
        }
      }
    }

    /** The digit loop of `+`: schoolbook addition from the last cell. */
    method AddDigits(b: BigInteger) returns (result: BigInteger)
      requires Snap().WellFormed() && b.Snap().WellFormed()
      requires Snap().Mag() + b.Snap().Mag() < Pow10(NR_DIGITS)
      ensures fresh(result) && fresh(result.arr)
      ensures result.Snap().WellFormed() && result.isPositive
      ensures result.Snap().Mag() == Snap().Mag() + b.Snap().Mag() >= 0
      ensures result.len == Max(result.Snap().Digits(), Max(len, b.len))
    {
      hide Tail, Pow10, SumSoFar, Magnitude, DigitCount, LeadingZeros;
      result := new BigInteger();
      SumStarts(arr[..], b.arr[..], result.arr[..]);
      var carry := 0;
      var i := NR_DIGITS - 1;
      var more := true;
      while more
        invariant fresh(result) && fresh(result.arr) && result.isPositive
        invariant i == NR_DIGITS - 1 - result.len && 0 <= result.len <= NR_DIGITS
        invariant result.Snap().WellFormed()
        invariant 0 <= carry <= 1
        invariant SumSoFar(arr[..], b.arr[..], result.arr[..], i + 1, carry)
        invariant more <==> result.len == 0 || carry != 0 || result.len < len || result.len < b.len
        invariant result.len > Max(1, Max(len, b.len)) ==> carry == 0 && result.arr[i + 1] != 0
        decreases more, NR_DIGITS - result.len
        modifies result, result.arr
      {
        if i < 0 {
          SumKeepsCarry(Snap(), b.Snap(), result.arr[..], carry);
          assert false;
        }
        var dig := arr[i] + b.arr[i] + carry;
        ghost var before := result.arr[..];
        result.arr[i] := dig % 10;
        assert result.arr[..] == before[i := dig % 10];
        SumStep(arr[..], b.arr[..], before, i, carry);
        carry := dig / 10;
        result.len := result.len + 1;
        i := i - 1;
        more := carry != 0 || result.len < len || result.len < b.len;
      }
      SumEnds(Snap(), b.Snap(), result.Snap());
    }

    /** The digit loop of `-`: schoolbook subtraction over all cells. */
    method SubtractDigits(b: BigInteger) returns (result: BigInteger)
      requires Snap().HasDigits() && b.Snap().HasDigits()
      ensures fresh(result) && fresh(result.arr)
      ensures result.Snap().HasDigits() && result.isPositive && result.len == NR_DIGITS
      ensures result.Snap().Mag() == WrappedDifference(Snap(), b.Snap())
    {
      hide Tail, Pow10, DifferenceSoFar;
      result := new BigInteger();
      DifferenceStarts(arr[..], b.arr[..], result.arr[..]);
      var carry := 0;
      var i := NR_DIGITS - 1;
      while i >= 0
        invariant fresh(result) && fresh(result.arr) && result.isPositive
        invariant -1 <= i < NR_DIGITS && result.len == NR_DIGITS - 1 - i
        invariant result.Snap().HasDigits()
        invariant -1 <= carry <= 0
        invariant DifferenceSoFar(arr[..], b.arr[..], result.arr[..], i + 1, carry)
        modifies result, result.arr
      {
        var dig;
        ghost var borrowed := carry;
        if arr[i] + carry < b.arr[i] {
          dig := arr[i] + carry + 10 - b.arr[i];
          carry := -1;
        } else {
          dig := arr[i] + carry - b.arr[i];
          carry := 0;
        }
        DifferenceStep(arr[..], b.arr[..], result.arr[..], i, borrowed, dig, carry);
        result.PrependDigits(dig);
        i := i - 1;
      }
      DifferenceEnds(Snap(), b.Snap(), result.Snap(), carry);
    }

    /** `BigInteger + BigInteger`, with the sign cases that turn it into a subtraction. */
    method Add(b: BigInteger) returns (result: BigInteger)
      requires Plus(Snap(), b.Snap()).Runs()
      ensures fresh(result) && fresh(result.arr)
      ensures result.Snap().HasDigits()
      ensures result.Snap().Value() == Snap().Value() + b.Snap().Value() <==> Plus(Snap(), b.Snap()).Right()
      ensures Shaped(Plus(Snap(), b.Snap()), result.Snap())
      ensures Snap().Canonical() && b.Snap().Canonical() ==> (result.Snap().Canonical() <==> KeepsLength(Plus(Snap(), b.Snap())))
      ensures isPositive && b.isPositive ==>
                && result.Snap().WellFormed() && result.isPositive
                && result.len == Max(result.Snap().Digits(), Max(len, b.len))
      decreases Rank(Plus(Snap(), b.Snap()))
    {
      hide Magnitude, DigitCount, Number.LessThanZero, Separates, Orders, Shaped, KeepsLength;
      ghost var x, y := Snap(), b.Snap();
      ghost var call := Plus(x, y);
      SignTest(x);
      SignTest(y);
      if b.Snap().LessThanZero() {
        NextCallDescends(call);
        var temp := new BigInteger.Copy(b);
        temp.isPositive := true;
        result := Subtract(temp);
        AfterMinus(call, result.Snap());
      } else if Snap().LessThanZero() {
        NextCallDescends(call);
        var temp := new BigInteger.Copy(this);
        temp.isPositive := true;
        result := b.Subtract(temp);
        AfterOppositeMinus(call, result.Snap());
      } else {
        result := AddDigits(b);
        AfterSumLoop(call, result.Snap());
      }
      assert Snap() == x && b.Snap() == y;
      if call.CanonicalOperands() {
        CanonicalIffKept(call, result.Snap());
      }
    }

    /** `BigInteger - BigInteger`. */
    method Subtract(b: BigInteger) returns (result: BigInteger)
      requires Minus(Snap(), b.Snap()).Runs()
      ensures fresh(result) && fresh(result.arr)
      ensures result.Snap().HasDigits()
      ensures result.Snap().Value() == Snap().Value() - b.Snap().Value() <==> Minus(Snap(), b.Snap()).Right()
      ensures Shaped(Minus(Snap(), b.Snap()), result.Snap())
      ensures Snap().Canonical() && b.Snap().Canonical() ==> (result.Snap().Canonical() <==> KeepsLength(Minus(Snap(), b.Snap())))
      ensures isPositive && b.isPositive && !Snap().Less(b.Snap()) ==>
                result.isPositive && result.len == result.Snap().Digits()
      ensures isPositive && !b.isPositive ==> result.isPositive
      decreases Rank(Minus(Snap(), b.Snap()))
    {
      hide Magnitude, DigitCount, ShrunkLength, WrappedDifference, Number.LessThanZero, Separates, Orders, Shaped, KeepsLength;
      ghost var x, y := Snap(), b.Snap();
      ghost var call := Minus(x, y);
      SignTest(x);
      SignTest(y);
      ghost var before;
      if b.Snap().LessThanZero() {
        NextCallDescends(call);
        var temp := new BigInteger.Copy(b);
        temp.isPositive := true;
        result := Add(temp);
        before := result.Snap();
      } else if Snap().Less(b.Snap()) {
        NextCallDescends(call);
        result := b.Subtract(this);
        before := result.Snap();
        result.isPositive := false;
      } else {
        result := SubtractDigits(b);
        before := result.Snap();
      }
      result.Shrink();
      if !y.isPositive {
        AfterSum(call, before, result.Snap());
      } else if x.Less(y) {
        AfterSwap(call, before, result.Snap());
      } else {
        AfterLoop(call, before, result.Snap());
      }
      assert Snap() == x && b.Snap() == y;
      if call.CanonicalOperands() {
        CanonicalIffKept(call, result.Snap());
      }
    }

    /** One row of the schoolbook product: the number times one digit, moved `trailingZeros` places. */
    method PartialProduct(digit: int, trailingZeros: nat) returns (row: BigInteger)
      requires RowFits(Snap(), digit, trailingZeros)
      ensures fresh(row) && fresh(row.arr) && IsRow(Snap(), digit, trailingZeros, row.Snap())
    {
      hide RowGrows, RowFits, IsRow, Magnitude, Number.WellFormed, DigitCount;
      ghost var x := Snap();
      FittingRow(x, digit, trailingZeros);
      NumberHasCells(x);
      row := new BigInteger();
      RowGrowsFromZero(x, digit, row.Snap());
      var k := NR_DIGITS - 1;
      var carry := 0;
      var j := NR_DIGITS - 1;
      while j >= NR_DIGITS - len || carry != 0
        invariant fresh(row) && fresh(row.arr) && row.isPositive
        invariant -1 <= j == k == NR_DIGITS - 1 - row.len && row.len >= 0 && row.arr.Length == NR_DIGITS
        invariant RowGrows(x, digit, row.Snap(), carry)
        decreases j + 1 + NR_DIGITS
        modifies row, row.arr
      {
        ghost var before, carried := row.Snap(), carry;
        RowHasRoom(x, digit, trailingZeros, before, carry);
        var dig := digit * arr[j] + carry;
        row.arr[k] := dig % 10;
        carry := dig / 10;
        row.len := row.len + 1;
        assert row.Snap().cells == before.cells[j := dig % 10];
        RowGrowsByCell(x, digit, before, carried, j, dig, row.Snap());
        k := k - 1;
        j := j - 1;
      }
      ghost var unmoved := row.Snap();
      RowEnds(x, digit, trailingZeros, unmoved);
      row.AppendZeros(trailingZeros);
      RowMoves(x, digit, trailingZeros, unmoved, row.Snap());
    }

    /** The rows of a product, from the leading digit of the factor on. */
    method PartialProducts(b: BigInteger) returns (intermediate: seq<BigInteger>)
      requires Multipliable(Snap(), b.Snap())
      ensures |intermediate| == b.len
      ensures forall k :: 0 <= k < b.len ==>
        && fresh(intermediate[k]) && fresh(intermediate[k].arr)
        && IsRow(Snap(), b.arr[NR_DIGITS - b.len + k], b.len - 1 - k, intermediate[k].Snap())
    {
      hide IsRow, RowFits, Magnitude, Multipliable, Number.WellFormed;
      ghost var x, y := Snap(), b.Snap();
      FittingFactors(x, y);
      NumberHasCells(x);
      NumberHasCells(y);
      intermediate := [];
      var trailingZeros := b.len - 1;
      var i := NR_DIGITS - b.len;
      ghost var first := i;
      while i < NR_DIGITS
        invariant first <= i <= NR_DIGITS && trailingZeros == NR_DIGITS - 1 - i
        invariant |intermediate| == i - first
        modifies {}
        invariant forall k :: 0 <= k < |intermediate| ==>
          && fresh(intermediate[k]) && fresh(intermediate[k].arr)
          && IsRow(x, b.arr[first + k], b.len - 1 - k, intermediate[k].Snap())
      {
        EveryRowFits(x, y, i);
        var row := PartialProduct(b.arr[i], trailingZeros);
        intermediate := intermediate + [row];
        trailingZeros := trailingZeros - 1;
        i := i + 1;
      }
    }

    /** `BigInteger * BigInteger`: builds all rows, then adds them up. */
    method Multiply(b: BigInteger) returns (result: BigInteger)
      requires Multipliable(Snap(), b.Snap())
      ensures fresh(result) && fresh(result.arr)
      ensures result.Snap().WellFormed()
      ensures result.Snap().Mag() == Snap().Mag() * b.Snap().Mag()
      ensures result.isPositive == (isPositive && b.isPositive)
      ensures len >= 1 && b.len >= 1 ==> result.len == Max(result.Snap().Digits(), len + b.len - 1)
      ensures Snap().Canonical() && b.Snap().Canonical() ==> IsSignedProduct(Snap(), b.Snap(), result.Snap())
    {
      hide IsSignedProduct, IsRow, IsRowSum, Magnitude, DigitCount, Number.WellFormed, Number.Canonical;
      hide Call.Valid, Call.Runs, Call.Right, Shaped, KeepsLength, Multipliable;
      ghost var x, y := Snap(), b.Snap();
      FittingFactors(x, y);
      NumberHasCells(y);
      result := new BigInteger();
      NoRowsYet(x, y, result.Snap());
      var intermediate := PartialProducts(b);
      ghost var first := NR_DIGITS - b.len;
      var i := 0;
      while i < b.len
        modifies {}
        invariant 0 <= i <= b.len
        invariant fresh(result) && fresh(result.arr)
        invariant IsRowSum(x, y, first + i, result.Snap())
      {
        ghost var sum, row := result.Snap(), intermediate[i].Snap();
        assert IsRow(x, y.cells[first + i], NR_DIGITS - 1 - (first + i), row);
        RowFitsSum(x, y, first + i, sum, row);
        result := result.Add(intermediate[i]);
        RowAdds(x, y, first + i, sum, row, result.Snap());
        i := i + 1;
      }
      ghost var sum := result.Snap();
      result.isPositive := isPositive && b.isPositive;
      AllRows(x, y, sum, result.Snap());
    }

    /** What `operator<<` writes, also for a length that repeated shrinking made too small. */
    method Print() returns (text: string)
      requires Snap().HasDigits() && len <= NR_DIGITS
      ensures text == Printed(Snap())
      ensures len < 0 ==> text == if isPositive then "" else "-"
      ensures Snap().Canonical() ==>
                text == (if Snap().Value() < 0 then "-" else "") + Numeral(if Snap().Value() < 0 then -Snap().Value() else Snap().Value(), 10)
    {
      hide DigitChar, DigitChars, IsWrittenUpTo, Printed, Magnitude, Number.Canonical, Number.HasDigits, Numeral;
      ghost var x := Snap();
      NumberHasCells(x);
      ghost var whole := Printed(x);
      if x.Canonical() {
        CanonicalPrintsDecimal(x);
      }
      text := if isPositive then "" else "-";
      PrintingStarts(x, text);
      var i := NR_DIGITS - len;
      while i < NR_DIGITS
        invariant i >= 0
        invariant if len < 0 then i > NR_DIGITS && text == whole else IsWrittenUpTo(text, x.cells, i, whole)
      {
        CellIsDigit(x, i);
        if arr[i] >= 0 {
          WriteDigit(text, x.cells, i, whole);
          text := text + [DigitChar(arr[i])];
        }
        i := i + 1;
      }
      PrintingEnds(x, text, i, whole);
    }
  }

  /** (-5) - (-5) is zero with a negative length, and prints as nothing. */
  method MinusFiveMinusMinusFive() returns (text: string, len: int)
    ensures text == "" && len == -499
  {
    var x := new BigInteger.FromInt(-5);
    var y := new BigInteger.FromInt(-5);
    CanonicalMeansShortest(x.Snap());
    CanonicalMeansShortest(y.Snap());
    ValueInjective(x.Snap(), y.Snap());
    hide Magnitude, DigitCount, LengthAfter, Computes, Shaped, Number.Canonical;
    var difference := x.Subtract(y);
    NegativeMinusItself(x.Snap(), difference.Snap());
    text := difference.Print();
    len := difference.len;
  }

  /** (-2) * (-3) prints as -6. */
  method MinusTwoTimesMinusThree() returns (text: string)
    ensures text == "-6"
  {
    hide Magnitude, Multipliable, IsSignedProduct, DigitCount, Number.Canonical, Number.WellFormed;
    var x := new BigInteger.FromInt(-2);
    var y := new BigInteger.FromInt(-3);
    OneDigitFactors(x.Snap(), y.Snap());
    OneDigitCounts(6);
    var product := x.Multiply(y);
    OneDigitPrints(product.Snap(), 6);
    NumberHasCells(product.Snap());
    text := product.Print();
  }

  /** `fact`: ends with the factorial for every positive number whose factorial fits. */
  method Fact(b: BigInteger) returns (result: BigInteger)
    requires b.Snap().Canonical() && b.Snap().Value() >= 1
    requires Factorial(b.Snap().Value()) < Pow10(NR_DIGITS)
    ensures fresh(result) && fresh(result.arr)
    ensures result.Snap().Canonical() && result.Snap().Value() == Factorial(b.Snap().Value())
    decreases b.Snap().Value()
  {
    hide Tail, Pow10, DigitCount, LeadingZeros;
    var one := new BigInteger.FromInt(1);
    EqualsIffSameValue(b.Snap(), one.Snap());
    if b.Snap().Equals(one.Snap()) {
      return one;
    }
    CanonicalMeansShortest(b.Snap());
    CanonicalMeansShortest(one.Snap());
    OneIsSeparated(b.Snap(), one.Snap());
    var predecessor := b.Subtract(one);
    CanonicalMeansShortest(predecessor.Snap());
    FactorialGrows(b.Snap().Value());
    var rest := Fact(predecessor);
    CanonicalMeansShortest(rest.Snap());
    ProductLengths(b.Snap(), rest.Snap());
    result := b.Multiply(rest);
    CanonicalMeansShortest(result.Snap());
  }

  function Factorial(n: nat): (f: nat)
    ensures f >= 1
  {
    if n == 0 then 1 else n * Factorial(n - 1)
  }

  lemma FactorialGrows(n: nat)
    requires n >= 1
    ensures Factorial(n - 1) <= Factorial(n) == n * Factorial(n - 1)
  {
    ProductMonotone(1, n, Factorial(n - 1));
  }
}
