/** Positional numerals: as printf writes them, and what they stand for. */
module Numerals {
  function Digit(d: nat): char
    requires d < 16
  {
    if d < 10 then '0' + d as char else 'a' + (d - 10) as char
  }

  function Numeral(n: nat, base: nat): string
    requires 2 <= base <= 16
    decreases n
  {
    if n < base then [Digit(n)] else Numeral(n / base, base) + [Digit(n % base)]
  }

  predicate IsHexDigit(c: char) {
    '0' <= c <= '9' || 'a' <= c <= 'f' || 'A' <= c <= 'F'
  }

  /** The value of a digit, hexadecimal ones in either case. */
  function DigitValue(c: char): nat {
    if '0' <= c <= '9' then c as nat - '0' as nat
    else if 'a' <= c <= 'f' then c as nat - 'a' as nat + 10
    else if 'A' <= c <= 'F' then c as nat - 'A' as nat + 10
    else 0
  }

  /** The number a digit string denotes, read from the left. */
  function NumeralValue(s: string, base: nat): nat {
    if s == "" then 0 else NumeralValue(s[..|s| - 1], base) * base + DigitValue(s[|s| - 1])
  }

  lemma DigitReadsBack(d: nat)
    requires d < 16
    ensures IsHexDigit(Digit(d)) && DigitValue(Digit(d)) == d
  {
  }

  lemma ValueAppend(s: string, c: char, base: nat)
    ensures NumeralValue(s + [c], base) == NumeralValue(s, base) * base + DigitValue(c)
  {
    assert (s + [c])[..|s|] == s;
  }

  lemma QuotientAndRemainder(n: nat, base: nat)
    requires base > 0
    ensures n / base * base + n % base == n
  {
  }

  /** A printed number reads back as the number. */
  lemma {:induction false} NumeralReadsBack(n: nat, base: nat)
    requires 2 <= base <= 16
    ensures NumeralValue(Numeral(n, base), base) == n
    decreases n
  {
    hide Digit, DigitValue;
    if n >= base {
      NumeralReadsBack(n / base, base);
      DigitReadsBack(n % base);
      ValueAppend(Numeral(n / base, base), Digit(n % base), base);
      QuotientAndRemainder(n, base);
    } else {
      DigitReadsBack(n);
      ValueAppend("", Digit(n), base);
      assert "" + [Digit(n)] == [Digit(n)];
    }
  }

  /** A printed number has no leading zero. */
  lemma {:induction false} NumeralIsShortest(n: nat, base: nat)
    requires 2 <= base <= 16
    ensures |Numeral(n, base)| >= 1 && (Numeral(n, base)[0] == '0' ==> n == 0 && |Numeral(n, base)| == 1)
    decreases n
  {
    hide Digit;
    if n >= base {
      QuotientIsPositive(n, base);
      NumeralIsShortest(n / base, base);
      var front := Numeral(n / base, base);
      assert (front + [Digit(n % base)])[0] == front[0];
    } else {
      ZeroDigit(n);
    }
  }

  lemma QuotientIsPositive(n: nat, base: nat)
    requires n >= base > 0
    ensures n / base >= 1
  {
  }

  lemma ZeroDigit(d: nat)
    requires d < 16
    ensures Digit(d) == '0' ==> d == 0
  {
  }

  predicate IsNumeralCharacter(c: char) {
    '0' <= c <= '9' || 'a' <= c <= 'f'
  }

  lemma DigitCharacter(d: nat)
    requires d < 16
    ensures IsNumeralCharacter(Digit(d))
  {
  }

  lemma {:induction false} NumeralCharacters(n: nat, base: nat)
    requires 2 <= base <= 16
    ensures Numeral(n, base) != ""
    ensures forall k :: 0 <= k < |Numeral(n, base)| ==> IsNumeralCharacter(Numeral(n, base)[k])
    decreases n
  {
    hide Digit;
    if n >= base {
      DigitCharacter(n % base);
      NumeralCharacters(n / base, base);
    } else {
      DigitCharacter(n);
    }
  }

  /** The shortest digits of v in a base, in lower case. */
  ghost predicate IsNumeralOf(s: string, v: nat, base: nat) {
    && s != "" && (s[0] == '0' ==> |s| == 1)
    && (forall k :: 0 <= k < |s| ==> IsNumeralCharacter(s[k]) && DigitValue(s[k]) < base)
    && NumeralValue(s, base) == v
  }

  lemma {:induction false} DigitsBelowBase(n: nat, base: nat)
    requires 2 <= base <= 16
    ensures forall k :: 0 <= k < |Numeral(n, base)| ==> DigitValue(Numeral(n, base)[k]) < base
    decreases n
  {
    hide Digit, DigitValue;
    if n >= base {
      DigitReadsBack(n % base);
      DigitsBelowBase(n / base, base);
    } else {
      DigitReadsBack(n);
    }
  }

  /** What is printed for a number is its numeral. */
  lemma NumeralIsNumeral(n: nat, base: nat)
    requires 2 <= base <= 16
    ensures IsNumeralOf(Numeral(n, base), n, base)
  {
    hide Numeral, NumeralValue;
    NumeralReadsBack(n, base);
    NumeralCharacters(n, base);
    NumeralIsShortest(n, base);
    DigitsBelowBase(n, base);
  }

  /** Hexadecimal digits are read in either case. */
  lemma DigitsInEitherCase(d: nat)
    requires d < 16
    ensures IsHexDigit(Digit(d)) && DigitValue(Digit(d)) == d
    ensures d >= 10 ==> IsHexDigit('A' + (d - 10) as char) && DigitValue('A' + (d - 10) as char) == d
  {
  }
}
