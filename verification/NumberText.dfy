/** Digit strings and the numbers they are stored as; what is printed for a number. */
module NumberText {
  import opened Decimal
  import opened BigNumber
  import opened DigitLoops
  import opened Numerals

  predicate IsDigit(c: char) {
    '0' <= c <= '9'
  }

  predicate AllDigits(s: string) {
    forall k :: 0 <= k < |s| ==> IsDigit(s[k])
  }

  /** The number a digit string is stored as. */
  function Parsed(digits: string): Number
    requires |digits| <= NR_DIGITS
  {
    var pad := NR_DIGITS - |digits|;
    Number(seq(NR_DIGITS, k requires 0 <= k < NR_DIGITS => if k < pad then 0 else DigitValue(digits[k - pad])),
           |digits|, true)
  }

  function DigitChar(d: int): char {
    if 0 <= d <= 9 then Digit(d) else '?'
  }

  function DigitChars(cells: seq<int>): string {
    seq(|cells|, k requires 0 <= k < |cells| => DigitChar(cells[k]))
  }

  /** A sign and as many of the last cells as the length says; none if a damaged length is negative. */
  function Printed(x: Number): string
    requires |x.cells| == NR_DIGITS && x.len <= NR_DIGITS
  {
    (if x.isPositive then "" else "-") + (if x.len < 0 then "" else DigitChars(x.cells[NR_DIGITS - x.len..]))
  }

  /** What is written so far and what the cells from i on still give make up the whole text. */
  predicate IsWrittenUpTo(text: string, cells: seq<int>, i: nat, whole: string) {
    i <= |cells| && text + DigitChars(cells[i..]) == whole
  }

  lemma PrintingStarts(x: Number, sign: string)
    requires |x.cells| == NR_DIGITS && x.len <= NR_DIGITS && sign == if x.isPositive then "" else "-"
    ensures if x.len < 0 then Printed(x) == sign else IsWrittenUpTo(sign, x.cells, NR_DIGITS - x.len, Printed(x))
  {
    assert sign + "" == sign;
  }

  lemma PrintingEnds(x: Number, text: string, i: int, whole: string)
    requires |x.cells| == NR_DIGITS && i >= NR_DIGITS
    requires if x.len < 0 then text == whole else IsWrittenUpTo(text, x.cells, i, whole)
    ensures text == whole
  {
    if x.len >= 0 {
      assert x.cells[i..] == [] && DigitChars([]) == "" && text + "" == text;
    }
  }

  lemma CellIsDigit(x: Number, i: nat)
    requires x.HasDigits() && i < NR_DIGITS
    ensures x.cells[i] >= 0
  {
  }

  lemma WriteDigit(text: string, cells: seq<int>, i: nat, whole: string)
    requires IsWrittenUpTo(text, cells, i, whole) && i < |cells|
    ensures IsWrittenUpTo(text + [DigitChar(cells[i])], cells, i + 1, whole)
  {
    assert DigitChars(cells[i..]) == [DigitChar(cells[i])] + DigitChars(cells[i + 1..]);
  }

  /** Constructing from a digit string and printing reproduces it, leading zeros included. */
  lemma PrintAfterParse(digits: string)
    requires |digits| <= NR_DIGITS && AllDigits(digits)
    ensures Parsed(digits).WellFormed()
    ensures Printed(Parsed(digits)) == digits
  {
    var x := Parsed(digits);
    var cells := x.cells[NR_DIGITS - x.len..];
    forall k | 0 <= k < |digits| ensures DigitChars(cells)[k] == digits[k] {
      assert cells[k] == DigitValue(digits[k]);
    }
  }

  /** The printed text of a number is accepted again exactly when it has no sign, and gives the number back. */
  lemma ParseAfterPrint(x: Number)
    requires x.WellFormed()
    ensures AllDigits(Printed(x)) <==> x.isPositive
    ensures x.isPositive ==> |Printed(x)| == x.len && Parsed(Printed(x)) == x
  {
    hide DigitChars, Parsed;
    if x.isPositive {
      ParseDigitChars(x);
      assert Printed(x) == DigitChars(x.cells[NR_DIGITS - x.len..]);
    } else {
      assert !IsDigit(Printed(x)[0]);
    }
  }

  lemma DigitCharIsDigit(d: int)
    requires 0 <= d <= 9
    ensures IsDigit(DigitChar(d)) && DigitValue(DigitChar(d)) == d
  {
  }

  lemma ParseDigitChars(x: Number)
    requires x.WellFormed()
    ensures var text := DigitChars(x.cells[NR_DIGITS - x.len..]);
            && |text| == x.len && AllDigits(text)
            && Parsed(text) == x.Abs()
  {
    hide DigitChar, DigitValue, IsDigit;
    var pad := NR_DIGITS - x.len;
    var text := DigitChars(x.cells[pad..]);
    forall k | 0 <= k < |text| ensures IsDigit(text[k]) {
      DigitCharIsDigit(x.cells[pad + k]);
    }
    forall k | 0 <= k < NR_DIGITS ensures Parsed(text).cells[k] == x.cells[k] {
      if k >= pad {
        DigitCharIsDigit(x.cells[k]);
      }
    }
    assert Parsed(text).cells == x.cells;
  }

  /** A stored digit string stands for the number it denotes. */
  lemma ParsedMeansNumeral(digits: string)
    requires |digits| <= NR_DIGITS && AllDigits(digits)
    ensures Parsed(digits).Value() == NumeralValue(digits, 10)
  {
    hide Tail, Pow10, NumeralValue, DigitValue;
    NumeralOfCells(digits, Parsed(digits).cells, NR_DIGITS - |digits|);
  }

  /** Cells with a digit string at their end hold its number. */
  lemma NumeralOfCells(digits: string, cells: seq<int>, pad: nat)
    requires |cells| == pad + |digits|
    requires forall k :: 0 <= k < pad ==> cells[k] == 0
    requires forall k :: 0 <= k < |digits| ==> cells[pad + k] == DigitValue(digits[k])
    ensures Magnitude(cells) == NumeralValue(digits, 10)
  {
    hide Tail, Pow10, NumeralValue, DigitValue;
    TailSkipZeros(cells, 0, pad);
    NumeralOfTail(digits, cells, pad);
  }

  lemma NumeralOfTail(digits: string, cells: seq<int>, pad: nat)
    requires |cells| == pad + |digits|
    requires forall k :: 0 <= k < |digits| ==> cells[pad + k] == DigitValue(digits[k])
    ensures Tail(cells, pad) == NumeralValue(digits, 10)
  {
    hide Tail, Pow10, NumeralValue, DigitValue;
    NumeralPrefix(digits, cells, pad, |digits|);
    EmptyTail(cells);
    assert digits[..|digits|] == digits;
    NumeralStep(0, NumeralValue(digits, 10), 1);
  }

  lemma {:induction false} NumeralPrefix(digits: string, cells: seq<int>, pad: nat, n: nat)
    requires |cells| == pad + |digits| && n <= |digits|
    requires forall k :: 0 <= k < |digits| ==> cells[pad + k] == DigitValue(digits[k])
    ensures Tail(cells, pad) == NumeralValue(digits[..n], 10) * Pow10(|digits| - n) + Tail(cells, pad + n)
    decreases n
  {
    if n > 0 {
      NumeralPrefix(digits, cells, pad, n - 1);
      assert digits[..n][..n - 1] == digits[..n - 1];
      var p := Pow10(|digits| - n);
      var q := NumeralValue(digits[..n - 1], 10);
      NumeralStep(q, DigitValue(digits[n - 1]), p);
    }
  }

  lemma NumeralStep(q: int, d: int, p: int)
    ensures q * (10 * p) + d * p == (10 * q + d) * p
  {
  }

  lemma DigitCharMeans(cells: seq<int>, i: nat, k: nat)
    requires AreDigits(cells) && i <= |cells| && k < |cells| - i
    ensures var text := DigitChars(cells[i..]);
            |text| == |cells| - i && IsDigit(text[k]) && DigitValue(text[k]) == cells[i + k]
  {
    assert cells[i..][k] == cells[i + k];
    DigitCharIsDigit(cells[i + k]);
  }

  /** The text behind the sign has as many digits as the length says, and they stand for the cells they come from. */
  lemma PrintedDigits(x: Number)
    requires x.HasDigits() && x.len <= NR_DIGITS
    ensures x.len < 0 ==> Printed(x) == if x.isPositive then "" else "-"
    ensures x.len >= 0 ==>
            var sign := if x.isPositive then "" else "-";
            var digits := Printed(x)[|sign|..];
            && Printed(x) == sign + digits
            && |digits| == x.len && AllDigits(digits)
            && NumeralValue(digits, 10) == Tail(x.cells, NR_DIGITS - x.len)
            && (x.WellFormed() ==> NumeralValue(digits, 10) == x.Mag())
  {
    hide Tail, Pow10, NumeralValue, DigitValue, DigitChars, IsDigit;
    var sign := if x.isPositive then "" else "-";
    if x.len < 0 {
      assert sign + "" == sign;
      return;
    }
    var pad := NR_DIGITS - x.len;
    var digits := DigitChars(x.cells[pad..]);
    assert (sign + digits)[|sign|..] == digits;
    DigitCharsLength(x.cells[pad..]);
    forall k | 0 <= k < |digits| ensures IsDigit(digits[k]) && x.cells[pad + k] == DigitValue(digits[k]) {
      DigitCharMeans(x.cells, pad, k);
    }
    NumeralOfTail(digits, x.cells, pad);
    if x.WellFormed() {
      TailSkipZeros(x.cells, 0, pad);
    }
  }

  lemma DigitCharsLength(cells: seq<int>)
    ensures |DigitChars(cells)| == |cells|
  {
  }

  /** A digit string without a leading zero is the numeral of its value. */
  lemma {:induction false} NumeralIsUnique(digits: string)
    requires digits != "" && AllDigits(digits) && (digits[0] == '0' ==> |digits| == 1)
    ensures Numeral(NumeralValue(digits, 10), 10) == digits
    ensures NumeralValue(digits, 10) == 0 ==> digits == "0"
    decreases |digits|
  {
    var n := |digits| - 1;
    var d := DigitValue(digits[n]);
    DigitIsNumeral(digits[n]);
    if n == 0 {
      assert digits[..n] == "" && digits == [digits[n]];
    } else {
      NumeralIsUnique(digits[..n]);
      assert digits[..n] != "0";
      ValueOfTen(NumeralValue(digits[..n], 10), d);
      assert digits == digits[..n] + [digits[n]];
    }
  }

  lemma DigitIsNumeral(c: char)
    requires IsDigit(c)
    ensures DigitValue(c) <= 9 && Digit(DigitValue(c)) == c && (DigitValue(c) == 0 ==> c == '0')
  {
  }

  lemma ValueOfTen(front: nat, d: nat)
    requires front >= 1 && d <= 9
    ensures (front * 10 + d) / 10 == front && (front * 10 + d) % 10 == d && front * 10 + d >= 10
  {
  }

  /** A canonical number prints as the decimal numeral of its value. */
  lemma CanonicalPrintsDecimal(x: Number)
    requires x.Canonical()
    ensures Printed(x) == (if x.Value() < 0 then "-" else "") + Numeral(if x.Value() < 0 then -x.Value() else x.Value(), 10)
  {
    hide Tail, Magnitude, Pow10, NumeralValue, Numeral, Printed, DigitValue;
    CanonicalMeansShortest(x);
    PrintedDigits(x);
    FirstPrintedDigit(x);
    var digits := Printed(x)[if x.isPositive then 0 else 1..];
    NumeralIsUnique(digits);
    MagnitudeOfLength(x);
  }

  /** Without a leading zero cell there is no leading zero character. */
  lemma FirstPrintedDigit(x: Number)
    requires x.Canonical()
    ensures var sign := if x.isPositive then 0 else 1;
            |Printed(x)| > sign && (Printed(x)[sign] == '0' ==> x.len == 1)
  {
    hide Tail, Pow10;
    var pad := NR_DIGITS - x.len;
    DigitCharMeans(x.cells, pad, 0);
    var digits := DigitChars(x.cells[pad..]);
    var sign := if x.isPositive then "" else "-";
    assert (sign + digits)[|sign|] == digits[0];
  }

  /** A number of one digit prints as that digit behind its sign. */
  lemma OneDigitPrints(x: Number, d: int)
    requires x.WellFormed() && x.len == 1 && x.Mag() == d
    ensures 0 <= d <= 9 && Printed(x) == (if x.isPositive then "" else "-") + [DigitChar(d)]
  {
    TailSkipZeros(x.cells, 0, NR_DIGITS - 1);
    EmptyTail(x.cells);
    assert x.cells[NR_DIGITS - 1..] == [x.cells[NR_DIGITS - 1]];
  }

  /** A negative number minus itself: the value is zero, but shrinking twice leaves length -499 and nothing to print. */
  lemma NegativeMinusItself(x: Number, r: Number)
    requires x.Canonical() && !x.isPositive
    requires Minus(x, x).Valid() && Computes(Minus(x, x), r)
    ensures Minus(x, x).Runs()
    ensures r.Value() == 0 && r.len == 1 - NR_DIGITS && Printed(r) == ""
  {
    hide Magnitude;
    assert LengthAfter(1, 0) == 1 - NR_DIGITS;
  }

  /** Without a leading zero a digit string is stored in canonical form, its first digit in front. */
  lemma ParsedIsCanonical(digits: string)
    requires 1 <= |digits| <= NR_DIGITS && AllDigits(digits) && digits[0] != '0'
    ensures Parsed(digits).Canonical()
    ensures forall k :: 0 <= k < |digits| ==> Parsed(digits).cells[NR_DIGITS - |digits| + k] == DigitValue(digits[k])
  {
    PrintAfterParse(digits);
  }

  /** Different numbers of the same length and first digit: their subtraction never ends. */
  lemma SameFirstDigitNeverEnds(s: string, t: string, n: nat)
    requires 1 <= |s| == |t| <= NR_DIGITS && AllDigits(s) && AllDigits(t)
    requires s != t && s[0] == t[0] != '0'
    ensures Parsed(s).Canonical() && Parsed(t).Canonical()
    ensures Minus(Parsed(s), Parsed(t)).Valid() && !EndsWithin(Minus(Parsed(s), Parsed(t)), n)
  {
    hide Parsed, Number.WellFormed;
    ParsedIsCanonical(s);
    ParsedIsCanonical(t);
    FirstDifference(s, t);
    ParsedLength(s);
    ParsedLength(t);
    assert Parsed(s).cells[NR_DIGITS - |s| + 0] == Parsed(t).cells[NR_DIGITS - |t| + 0];
    hide Number.Canonical, EndsWithin;
    UnseparatedNeverEnds(Minus(Parsed(s), Parsed(t)), n);
  }

  lemma ParsedLength(digits: string)
    requires |digits| <= NR_DIGITS
    ensures Parsed(digits).len == |digits| && Parsed(digits).isPositive && |Parsed(digits).cells| == NR_DIGITS
  {
  }

  lemma FirstDifference(s: string, t: string)
    requires |s| == |t| && AllDigits(s) && AllDigits(t) && s != t
    ensures exists k :: 0 <= k < |s| && DigitValue(s[k]) != DigitValue(t[k])
  {
    var k :| 0 <= k < |s| && s[k] != t[k];
  }

  /** The smallest such pair: 12 - 11. */
  lemma TwelveMinusElevenNeverEnds(n: nat)
    ensures Minus(Parsed("12"), Parsed("11")).Valid() && !EndsWithin(Minus(Parsed("12"), Parsed("11")), n)
    ensures Parsed("12").Canonical() && Parsed("12").Value() == 12
    ensures Parsed("11").Canonical() && Parsed("11").Value() == 11
  {
    assert NumeralValue("1", 10) == 1 && "12"[..1] == "1" && "11"[..1] == "1";
    assert NumeralValue("12", 10) == 12 && NumeralValue("11", 10) == 11;
    assert "12" != "11" by {
      assert "12"[1] != "11"[1];
    }
    hide Parsed, Number.Value, Number.Canonical, Call.Valid, EndsWithin, NumeralValue;
    ParsedMeansNumeral("12");
    ParsedMeansNumeral("11");
    SameFirstDigitNeverEnds("12", "11", n);
  }

  /** A smaller number that is written longer is taken for the larger one, as in 5 - 02. */
  lemma LongerLooksLarger(s: string, t: string)
    requires 1 <= |s| < |t| <= NR_DIGITS && AllDigits(s) && AllDigits(t)
    requires NumeralValue(s, 10) > NumeralValue(t, 10)
    ensures Minus(Parsed(s), Parsed(t)).Runs()
    ensures !Minus(Parsed(s), Parsed(t)).Right()
  {
    hide Magnitude, Pow10, NumeralValue;
    ParsedMeansNumeral(s);
    ParsedMeansNumeral(t);
    PrintAfterParse(s);
    PrintAfterParse(t);
  }
}
