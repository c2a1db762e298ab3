/** basic_source_line_resolver.cc: reading a STACK CFI record from a line of a symbol file. */
module CfiRecords {
  import opened Wrappers
  import opened FixedWidth
  import opened Numerals

  /** What `isspace` accepts. */
  const BLANKS: string := " \t\n\r\U{0b}\U{0c}"

  datatype Record = Init(base: nat, size: nat, initialRules: string) | Delta(address: nat, deltaRules: string)

  // ----- strtok_r and strtoul -----

  /** How many characters at the front are breaks, or are not. */
  function Span(s: string, breaks: string, wanted: bool): (n: nat)
    ensures n <= |s| && (forall k :: 0 <= k < n ==> (s[k] in breaks <==> wanted))
    ensures n < |s| ==> (s[n] in breaks <==> !wanted)
  {
    if s == "" || (s[0] in breaks) != wanted then 0 else 1 + Span(s[1..], breaks, wanted)
  }

  /** The next token and what the cursor is left at, just past the break that ended it. */
  function StrTok(s: string, breaks: string): Option<(string, string)> {
    var start := s[Span(s, breaks, true)..];
    if start == "" then None
    else
      var n := Span(start, breaks, false);
      Some((start[..n], if n == |start| then "" else start[n + 1..]))
  }

  /** The value of the hexadecimal digits at the front, after `value`. */
  function HexDigits(s: string, value: nat): nat {
    if s == "" || !IsHexDigit(s[0]) then value
    else HexDigits(s[1..], 16 * value + DigitValue(s[0]))
  }

  predicate HasPrefix0x(s: string) {
    |s| >= 3 && s[0] == '0' && (s[1] == 'x' || s[1] == 'X') && IsHexDigit(s[2])
  }

  /** `strtoul` in base 16: blanks, a sign, an 0x prefix, digits; too large a value becomes the largest. */
  function StrToUl(s: string): nat {
    var unblanked := s[Span(s, BLANKS, true)..];
    var negative := unblanked != "" && unblanked[0] == '-';
    var unsigned_ := if negative || (unblanked != "" && unblanked[0] == '+') then unblanked[1..] else unblanked;
    var value := HexDigits(if HasPrefix0x(unsigned_) then unsigned_[2..] else unsigned_, 0);
    if value >= TWO_64 then TWO_64 - 1
    else if negative then (TWO_64 - value) % TWO_64
    else value
  }

  // ----- Records -----

  /** `ParseCFIFrameInfo`, up to where it stores the record; the line is what follows "STACK CFI ". */
  function ReadRecord(line: string): Option<Record> {
    var first := StrTok(line, " \r\n");
    if first.None? then None
    else if first.value.0 == "INIT" then
      var address := StrTok(first.value.1, " \r\n");
      if address.None? then None
      else
        var size := StrTok(address.value.1, " \r\n");
        if size.None? then None
        else
          var rules := StrTok(size.value.1, "\r\n");
          if rules.None? then None
          else Some(Init(StrToUl(address.value.0), StrToUl(size.value.0), rules.value.0))
    else
      var rules := StrTok(first.value.1, "\r\n");
      if rules.None? then None else Some(Delta(StrToUl(first.value.0), rules.value.0))
  }

  // ----- Reading back what the symbol dumper writes -----

  lemma {:induction false} HexDigitsAppend(s: string, d: nat, value: nat)
    requires d < 16 && forall k :: 0 <= k < |s| ==> IsNumeralCharacter(s[k])
    ensures HexDigits(s + [Digit(d)], value) == 16 * HexDigits(s, value) + d
    decreases |s|
  {
    DigitReadsBack(d);
    if s == "" {
      assert s + [Digit(d)] == [Digit(d)];
      assert [Digit(d)][1..] == "";
    } else {
      assert (s + [Digit(d)])[1..] == s[1..] + [Digit(d)];
      HexDigitsAppend(s[1..], d, 16 * value + DigitValue(s[0]));
    }
  }

  lemma {:induction false} HexNumeralDigits(n: nat)
    ensures HexDigits(Numeral(n, 16), 0) == n
    decreases n
  {
    if n < 16 {
      DigitReadsBack(n);
      assert [Digit(n)][1..] == "";
    } else {
      HexNumeralDigits(n / 16);
      NumeralCharacters(n / 16, 16);
      HexDigitsAppend(Numeral(n / 16, 16), n % 16, 0);
    }
  }

  lemma {:induction false} HexDigitsStop(s: string, tail: string, value: nat)
    requires (forall k :: 0 <= k < |s| ==> IsHexDigit(s[k])) && (tail == "" || !IsHexDigit(tail[0]))
    ensures HexDigits(s + tail, value) == HexDigits(s, value)
    decreases |s|
  {
    if s == "" {
      assert s + tail == tail;
    } else {
      assert (s + tail)[1..] == s[1..] + tail;
      HexDigitsStop(s[1..], tail, 16 * value + DigitValue(s[0]));
    }
  }

  lemma {:induction false} BreaksAreSkipped(pre: string, s: string, breaks: string)
    requires (forall k :: 0 <= k < |pre| ==> pre[k] in breaks) && (s == "" || s[0] !in breaks)
    ensures Span(pre + s, breaks, true) == |pre|
    decreases |pre|
  {
    if pre == "" {
      assert pre + s == s;
    } else {
      assert (pre + s)[1..] == pre[1..] + s;
      BreaksAreSkipped(pre[1..], s, breaks);
    }
  }

  lemma HexNumberStarts(n: nat)
    ensures Numeral(n, 16) != "" && IsNumeralCharacter(Numeral(n, 16)[0])
    ensures forall k :: 0 <= k < |Numeral(n, 16)| ==> IsHexDigit(Numeral(n, 16)[k])
  {
    hide Numeral;
    NumeralCharacters(n, 16);
    forall k | 0 <= k < |Numeral(n, 16)| ensures IsHexDigit(Numeral(n, 16)[k]) {
      assert IsNumeralCharacter(Numeral(n, 16)[k]);
    }
  }

  lemma DigitsHaveNoPrefix(digits: string, tail: string)
    requires digits != "" && forall k :: 0 <= k < |digits| ==> IsHexDigit(digits[k])
    requires tail == "" || (tail[0] != 'x' && tail[0] != 'X')
    ensures !HasPrefix0x(digits + tail)
  {
    if |digits + tail| >= 3 {
      assert (digits + tail)[1] == if |digits| >= 2 then digits[1] else tail[0];
    }
  }

  /** The digits of a number after an optional 0x, up to what is no digit. */
  lemma HexNumber(prefix: string, n: nat, tail: string)
    requires prefix in ["", "0x", "0X"]
    requires tail == "" || (!IsHexDigit(tail[0]) && tail[0] != 'x' && tail[0] != 'X')
    ensures var s := prefix + Numeral(n, 16) + tail;
            && s != "" && s[0] !in BLANKS && s[0] != '-' && s[0] != '+'
            && HexDigits(if HasPrefix0x(s) then s[2..] else s, 0) == n
  {
    hide Numeral, HexDigits;
    var digits := Numeral(n, 16);
    HexNumeralDigits(n);
    HexNumberStarts(n);
    HexDigitsStop(digits, tail, 0);
    var s := prefix + digits + tail;
    if prefix == "" {
      DigitsHaveNoPrefix(digits, tail);
      assert s == digits + tail && s[0] == digits[0];
    } else {
      assert s[2..] == digits + tail && s[2] == digits[0];
    }
  }

  /**
   * `strtoul` reads a hexadecimal number after blanks, a sign and an 0x, up to what is
   * no digit; beyond 64 bits it gives the largest value, and a minus sign wraps around.
   */
  lemma HexNumberReadsBack(blanks: string, sign: string, prefix: string, n: nat, tail: string)
    requires (forall k :: 0 <= k < |blanks| ==> blanks[k] in BLANKS)
    requires sign in ["", "+", "-"] && prefix in ["", "0x", "0X"]
    requires tail == "" || (!IsHexDigit(tail[0]) && tail[0] != 'x' && tail[0] != 'X')
    ensures StrToUl(blanks + (sign + (prefix + Numeral(n, 16) + tail))) ==
            if n >= TWO_64 then TWO_64 - 1 else if sign == "-" then (TWO_64 - n) % TWO_64 else n
  {
    hide HexDigits, HasPrefix0x, Numeral;
    var number := prefix + Numeral(n, 16) + tail;
    HexNumber(prefix, n, tail);
    var signed := sign + number;
    assert sign == "" ==> signed == number;
    assert sign != "" ==> signed[1..] == number && signed[0] == sign[0];
    BreaksAreSkipped(blanks, signed, BLANKS);
    assert (blanks + signed)[|blanks|..] == signed;
  }

  /** `strtoul` reads back a hexadecimal number of at most 64 bits. */
  lemma HexNumeralReadsBack(n: nat)
    requires n < TWO_64
    ensures StrToUl(Numeral(n, 16)) == n
  {
    hide StrToUl, Numeral;
    HexNumberReadsBack("", "", "", n, "");
    assert "" + ("" + ("" + Numeral(n, 16) + "")) == Numeral(n, 16);
  }

  ghost predicate NoneIn(s: string, breaks: string) {
    forall k :: 0 <= k < |s| ==> s[k] !in breaks
  }

  lemma {:induction false} SpanOfToken(t: string, rest: string, breaks: string)
    requires NoneIn(t, breaks) && (rest == "" || rest[0] in breaks)
    ensures Span(t + rest, breaks, false) == |t|
    decreases |t|
  {
    if t == "" {
      assert t + rest == rest;
    } else {
      assert (t + rest)[1..] == t[1..] + rest;
      SpanOfToken(t[1..], rest, breaks);
    }
  }

  lemma TokenThenBreak(t: string, b: char, rest: string, breaks: string)
    requires t != "" && NoneIn(t, breaks) && b in breaks
    ensures StrTok(t + [b] + rest, breaks) == Some((t, rest))
  {
    var s := t + ([b] + rest);
    assert t + [b] + rest == s;
    SpanOfToken(t, [b] + rest, breaks);
    assert s[0] == t[0];
    assert s[0..] == s && s[..|t|] == t && s[|t| + 1..] == rest;
  }

  lemma TokenAtEnd(t: string, breaks: string)
    requires t != "" && NoneIn(t, breaks)
    ensures StrTok(t, breaks) == Some((t, ""))
  {
    SpanOfToken(t, "", breaks);
    assert t + "" == t && t[0..] == t && t[..|t|] == t;
  }

  lemma HexNumeralIsToken(n: nat)
    ensures NoneIn(Numeral(n, 16), " \r\n") && Numeral(n, 16) != "INIT" && Numeral(n, 16) != ""
  {
    NumeralCharacters(n, 16);
    var s := Numeral(n, 16);
    forall k | 0 <= k < |s| ensures s[k] !in " \r\n" {
      assert IsNumeralCharacter(s[k]);
    }
    assert IsNumeralCharacter(s[0]);
  }

  /** A delta record reads back: its address and its rules, to the end of the line. */
  lemma DeltaReadsBack(address: nat, rules: string)
    requires address < TWO_64 && rules != "" && NoneIn(rules, "\r\n")
    ensures ReadRecord(Numeral(address, 16) + " " + rules) == Some(Delta(address, rules))
  {
    hide StrTok, Numeral, StrToUl;
    HexNumeralReadsBack(address);
    HexNumeralIsToken(address);
    TokenThenBreak(Numeral(address, 16), ' ', rules, " \r\n");
    TokenAtEnd(rules, "\r\n");
  }

  /** An INIT record reads back. */
  lemma InitReadsBack(base: nat, size: nat, rules: string)
    requires base < TWO_64 && size < TWO_64 && rules != "" && NoneIn(rules, "\r\n")
    ensures ReadRecord("INIT" + " " + (Numeral(base, 16) + " " + (Numeral(size, 16) + " " + rules))) == Some(Init(base, size, rules))
  {
    hide StrTok, Numeral, StrToUl;
    HexNumeralReadsBack(base);
    HexNumeralReadsBack(size);
    HexNumeralIsToken(base);
    HexNumeralIsToken(size);
    TokenThenBreak("INIT", ' ', Numeral(base, 16) + " " + (Numeral(size, 16) + " " + rules), " \r\n");
    TokenThenBreak(Numeral(base, 16), ' ', Numeral(size, 16) + " " + rules, " \r\n");
    TokenThenBreak(Numeral(size, 16), ' ', rules, " \r\n");
    TokenAtEnd(rules, "\r\n");
  }

  // ----- Which lines are records -----

  /** The token between breaks and the text after it; at most one break after it is skipped. */
  ghost predicate IsTokenBetween(pre: string, token: string, post: string, breaks: string, rest: string) {
    && (forall k :: 0 <= k < |pre| ==> pre[k] in breaks)
    && token != "" && NoneIn(token, breaks)
    && (if post == "" then rest == "" else post[0] in breaks && rest == post[1..])
  }

  ghost predicate IsNextToken(s: string, breaks: string, token: string, rest: string) {
    exists pre: string, post: string :: s == pre + token + post && IsTokenBetween(pre, token, post, breaks, rest)
  }

  lemma TokenIsFound(pre: string, token: string, post: string, breaks: string)
    requires (forall k :: 0 <= k < |pre| ==> pre[k] in breaks) && token != "" && NoneIn(token, breaks)
    requires post == "" || post[0] in breaks
    ensures StrTok(pre + token + post, breaks) == Some((token, if post == "" then "" else post[1..]))
  {
    var s := pre + token + post;
    assert s == pre + (token + post) && (token + post)[0] == token[0];
    BreaksAreSkipped(pre, token + post, breaks);
    assert s[|pre|..] == token + post;
    SpanOfToken(token, post, breaks);
    assert (token + post)[..|token|] == token && (token + post)[|token|..] == post;
    assert post != "" ==> (token + post)[|token| + 1..] == post[1..];
  }

  /** Where the token that is found stands in the text. */
  lemma TokenParts(s: string, breaks: string) returns (pre: string, token: string, post: string)
    requires StrTok(s, breaks).Some?
    ensures s == pre + token + post
    ensures (forall k :: 0 <= k < |pre| ==> pre[k] in breaks) && token != "" && NoneIn(token, breaks)
    ensures post != "" ==> post[0] in breaks
    ensures StrTok(s, breaks) == Some((token, if post == "" then "" else post[1..]))
  {
    var m := Span(s, breaks, true);
    var start := s[m..];
    var n := Span(start, breaks, false);
    pre, token, post := s[..m], start[..n], start[n..];
    ThreeParts(s, m, n);
    assert post != "" ==> start[n + 1..] == post[1..];
  }

  lemma ThreeParts(s: string, m: nat, n: nat)
    requires m <= |s| && n <= |s| - m
    ensures s == s[..m] + s[m..][..n] + s[m..][n..]
  {
  }

  lemma FoundTokenIsNext(s: string, breaks: string)
    requires StrTok(s, breaks).Some?
    ensures IsNextToken(s, breaks, StrTok(s, breaks).value.0, StrTok(s, breaks).value.1)
  {
    hide StrTok, NoneIn;
    var pre, token, post := TokenParts(s, breaks);
    assert IsTokenBetween(pre, token, post, breaks, if post == "" then "" else post[1..]);
  }

  lemma NoTokenFound(s: string, breaks: string)
    ensures StrTok(s, breaks) == None <==> forall k :: 0 <= k < |s| ==> s[k] in breaks
  {
    var m := Span(s, breaks, true);
    if s[m..] == "" {
      assert m == |s|;
    }
  }

  /** `strtok_r` finds the next token, if there is any text but breaks. */
  lemma StrTokMeans(s: string, breaks: string, token: string, rest: string)
    ensures StrTok(s, breaks) == Some((token, rest)) <==> IsNextToken(s, breaks, token, rest)
    ensures StrTok(s, breaks) == None <==> forall k :: 0 <= k < |s| ==> s[k] in breaks
  {
    hide StrTok, NoneIn;
    NoTokenFound(s, breaks);
    if IsNextToken(s, breaks, token, rest) {
      var pre, post :| s == pre + token + post && IsTokenBetween(pre, token, post, breaks, rest);
      TokenIsFound(pre, token, post, breaks);
    } else if StrTok(s, breaks).Some? {
      FoundTokenIsNext(s, breaks);
    }
  }

  /** The line has the words of an INIT record: INIT, address, size, and the rules to the end of the line. */
  ghost predicate IsInitLine(line: string, base: nat, size: nat, rules: string) {
    exists afterInit, address, afterAddress, sizeWord, afterSize, rest ::
      && IsNextToken(line, " \r\n", "INIT", afterInit)
      && IsNextToken(afterInit, " \r\n", address, afterAddress)
      && IsNextToken(afterAddress, " \r\n", sizeWord, afterSize)
      && IsNextToken(afterSize, "\r\n", rules, rest)
      && base == StrToUl(address) && size == StrToUl(sizeWord)
  }

  /** The line has the words of a delta record: an address other than INIT, and the rules to the end of the line. */
  ghost predicate IsDeltaLine(line: string, address: nat, rules: string) {
    exists word, afterWord, rest ::
      && IsNextToken(line, " \r\n", word, afterWord) && word != "INIT"
      && IsNextToken(afterWord, "\r\n", rules, rest)
      && address == StrToUl(word)
  }

  lemma NextTokenIs(s: string, breaks: string, token: string, rest: string)
    ensures IsNextToken(s, breaks, token, rest) <==> StrTok(s, breaks) == Some((token, rest))
  {
    hide StrTok, IsNextToken;
    StrTokMeans(s, breaks, token, rest);
  }

  /** A line is read as a record exactly if it has the words of one. */
  lemma RecordsAreTheirLines(line: string, record: Record)
    ensures ReadRecord(line) == Some(record) <==>
      match record
      case Init(base, size, rules) => IsInitLine(line, base, size, rules)
      case Delta(address, rules) => IsDeltaLine(line, address, rules)
  {
    hide StrTok, IsNextToken, StrToUl;
    forall s, breaks, token, rest
      ensures IsNextToken(s, breaks, token, rest) <==> StrTok(s, breaks) == Some((token, rest))
    {
      NextTokenIs(s, breaks, token, rest);
    }
  }
}
