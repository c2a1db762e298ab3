/** minidump.cc: the conversion of a minidump's UTF-16 strings to UTF-8. */
module UnicodeConversion {
  import opened Wrappers

  ghost predicate AreWords(s: seq<int>) {
    forall k :: 0 <= k < |s| ==> 0 <= s[k] <= 0xffff
  }

  predicate IsHighSurrogate(w: int) {
    0xd800 <= w <= 0xdbff
  }

  /** The range the conversion takes for low surrogates. */
  predicate IsTestedLow(w: int) {
    0xdc00 <= w <= 0xdcff
  }

  predicate IsSurrogate(w: int) {
    0xd800 <= w <= 0xdfff
  }

  function Swap(w: int): int {
    w / 256 + w % 256 * 256
  }

  /** `Swap` exchanges the two bytes of a word. */
  lemma SwapExchangesBytes(high: int, low: int)
    requires 0 <= high <= 0xff && 0 <= low <= 0xff
    ensures Swap(high * 256 + low) == low * 256 + high
  {
    assert (high * 256 + low) / 256 == high;
  }

  /** The bytes appended for one code point; the code's shifts and masks as quotients and remainders. */
  function Bytes(unichar: int): Option<seq<int>> {
    if unichar < 0x80 then Some([unichar])
    else if unichar < 0x800 then Some([0xc0 + unichar / 0x40, 0x80 + unichar % 0x40])
    else if unichar < 0x1_0000 then
      Some([0xe0 + unichar / 0x1000, 0x80 + unichar / 0x40 % 0x40, 0x80 + unichar % 0x40])
    else if unichar < 0x20_0000 then
      Some([0xf0 + unichar / 0x4_0000, 0x80 + unichar / 0x1000 % 0x40, 0x80 + unichar / 0x40 % 0x40, 0x80 + unichar % 0x40])
    else None
  }

  /** One round of the conversion loop: the code point read from the front, and how many words it took. */
  function ReadUnichar(words: seq<int>, swap: bool): (r: Option<(int, nat)>)
    requires words != []
    ensures r.Some? ==> 1 <= r.value.1 <= 2 && r.value.1 <= |words|
  {
    var word := if swap then Swap(words[0]) else words[0];
    if IsTestedLow(word) then None
    else if IsHighSurrogate(word) then
      if |words| == 1 || !IsTestedLow(words[1]) then None
      else Some(((word - 0xd7c0) * 0x400 + words[1] % 0x400, 2))
    else Some((word, 1))
  }

  function Converted(words: seq<int>, swap: bool): Option<seq<int>> {
    if words == [] then Some([])
    else
      var read := ReadUnichar(words, swap);
      if read.None? || Bytes(read.value.0).None? then None
      else
        Append(Bytes(read.value.0).value, Converted(words[read.value.1..], swap))
  }

  method UTF16ToUTF8(words: seq<int>, swap: bool) returns (out: Option<seq<int>>)
    ensures out == Converted(words, swap)
  {
    hide Converted, Bytes;
    var bytes := [];
    var i := 0;
    assert words[0..] == words;
    AppendToNothing(Converted(words, swap));
    while i < |words|
      invariant 0 <= i <= |words|
      invariant Converted(words, swap) == Append(bytes, Converted(words[i..], swap))
      decreases |words| - i
    {
      ghost var start := i;
      ConversionRound(words[start..], swap);
      var inWord := words[i];
      if swap {
        inWord := Swap(inWord);
      }
      var unichar;
      if inWord >= 0xdc00 && inWord <= 0xdcff {
        return None;
      } else if inWord >= 0xd800 && inWord <= 0xdbff {
        unichar := (inWord - 0xd7c0) * 0x400;
        i := i + 1;
        if i == |words| {
          return None;
        }
        inWord := words[i];
        if inWord < 0xdc00 || inWord > 0xdcff {
          return None;
        }
        unichar := unichar + inWord % 0x400;
      } else {
        unichar := inWord;
      }
      if Bytes(unichar).None? {
        return None;
      }
      assert words[start..][i + 1 - start..] == words[i + 1..];
      AppendTwice(bytes, Bytes(unichar).value, Converted(words[i + 1..], swap));
      bytes := bytes + Bytes(unichar).value;
      i := i + 1;
    }
    assert words[i..] == [] && bytes + [] == bytes;
    NothingConverted(swap);
    out := Some(bytes);
  }

  function Append(bytes: seq<int>, rest: Option<seq<int>>): Option<seq<int>> {
    if rest.None? then None else Some(bytes + rest.value)
  }

  lemma AppendToNothing(rest: Option<seq<int>>)
    ensures Append([], rest) == rest
  {
    if rest.Some? {
      assert [] + rest.value == rest.value;
    }
  }

  lemma AppendTwice(a: seq<int>, b: seq<int>, rest: Option<seq<int>>)
    ensures Append(a, Append(b, rest)) == Append(a + b, rest)
  {
    if rest.Some? {
      assert a + (b + rest.value) == a + b + rest.value;
    }
  }

  lemma ConversionRound(words: seq<int>, swap: bool)
    requires words != []
    ensures var read := ReadUnichar(words, swap);
            Converted(words, swap) ==
              if read.None? || Bytes(read.value.0).None? then None
              else Append(Bytes(read.value.0).value, Converted(words[read.value.1..], swap))
  {
  }

  lemma NothingConverted(swap: bool)
    ensures Converted([], swap) == Some([])
  {
  }

  // ----- The standards -----

  /** Decoding UTF-16, section 2.2 of RFC 2781; none for an unpaired surrogate. */
  function Utf16Decode(words: seq<int>): Option<seq<int>> {
    if words == [] then Some([])
    else if !IsSurrogate(words[0]) then Prepend(words[0], Utf16Decode(words[1..]))
    else if !IsHighSurrogate(words[0]) || |words| == 1 || !(0xdc00 <= words[1] <= 0xdfff) then None
    else Prepend(0x1_0000 + (words[0] - 0xd800) * 0x400 + (words[1] - 0xdc00), Utf16Decode(words[2..]))
  }

  function Prepend(codePoint: int, rest: Option<seq<int>>): Option<seq<int>> {
    if rest.None? then None else Some([codePoint] + rest.value)
  }

  predicate IsTail(b: int) {
    0x80 <= b <= 0xbf
  }

  /** The length of the well-formed UTF-8 sequence at the front, section 4 of RFC 3629; 0 if there is none. */
  function SequenceLength(b: seq<int>): (n: nat)
    ensures n <= |b|
  {
    if |b| >= 1 && 0 <= b[0] <= 0x7f then 1
    else if |b| >= 2 && 0xc2 <= b[0] <= 0xdf && IsTail(b[1]) then 2
    else if |b| >= 3 && IsTail(b[1]) && IsTail(b[2])
            && ((b[0] == 0xe0 && 0xa0 <= b[1]) || 0xe1 <= b[0] <= 0xec || (b[0] == 0xed && b[1] <= 0x9f) || 0xee <= b[0] <= 0xef) then 3
    else if |b| >= 4 && IsTail(b[1]) && IsTail(b[2]) && IsTail(b[3])
            && ((b[0] == 0xf0 && 0x90 <= b[1]) || 0xf1 <= b[0] <= 0xf3 || (b[0] == 0xf4 && b[1] <= 0x8f)) then 4
    else 0
  }

  /** The code point of a well-formed sequence, section 3 of RFC 3629. */
  function SequenceValue(b: seq<int>, n: nat): int
    requires 1 <= n <= 4 && n <= |b|
  {
    if n == 1 then b[0]
    else if n == 2 then (b[0] - 0xc0) * 0x40 + (b[1] - 0x80)
    else if n == 3 then (b[0] - 0xe0) * 0x1000 + (b[1] - 0x80) * 0x40 + (b[2] - 0x80)
    else (b[0] - 0xf0) * 0x4_0000 + (b[1] - 0x80) * 0x1000 + (b[2] - 0x80) * 0x40 + (b[3] - 0x80)
  }

  /** Decoding UTF-8; none if the bytes are not well-formed. */
  function Utf8Decode(b: seq<int>): Option<seq<int>>
    decreases |b|
  {
    if b == [] then Some([])
    else
      var n := SequenceLength(b);
      if n == 0 then None else Prepend(SequenceValue(b, n), Utf8Decode(b[n..]))
  }

  // ----- Correctness -----

  /** Words that are no surrogates, and high surrogates followed by a low one in the tested range. */
  predicate Convertible(words: seq<int>) {
    words == [] ||
    (!IsSurrogate(words[0]) && Convertible(words[1..])) ||
    (IsHighSurrogate(words[0]) && |words| >= 2 && IsTestedLow(words[1]) && Convertible(words[2..]))
  }

  lemma ShortBytes(u: int, rest: seq<int>)
    requires 0 <= u < 0x800
    ensures Bytes(u).Some? && 1 <= |Bytes(u).value| <= 2
    ensures var all := Bytes(u).value + rest; SequenceLength(all) == |Bytes(u).value| && SequenceValue(all, |Bytes(u).value|) == u
  {
  }

  lemma ThreeBytes(u: int, rest: seq<int>)
    requires 0x800 <= u < 0x1_0000 && !IsSurrogate(u)
    ensures Bytes(u).Some? && |Bytes(u).value| == 3
    ensures var all := Bytes(u).value + rest; SequenceLength(all) == 3 && SequenceValue(all, 3) == u
  {
    var a, b, c := u / 0x1000, u / 0x40 % 0x40, u % 0x40;
    Base64Digits(u);
    var all := Bytes(u).value + rest;
    assert all[0] == 0xe0 + a && all[1] == 0x80 + b && all[2] == 0x80 + c;
  }

  lemma FourBytes(u: int, rest: seq<int>)
    requires 0x1_0000 <= u <= 0x10_ffff
    ensures Bytes(u).Some? && |Bytes(u).value| == 4
    ensures var all := Bytes(u).value + rest; SequenceLength(all) == 4 && SequenceValue(all, 4) == u
  {
    var a, b, c, d := u / 0x4_0000, u / 0x1000 % 0x40, u / 0x40 % 0x40, u % 0x40;
    Base64Digits(u);
    Base64Digits(u / 0x40);
    var all := Bytes(u).value + rest;
    assert all[0] == 0xf0 + a && all[1] == 0x80 + b && all[2] == 0x80 + c && all[3] == 0x80 + d;
  }

  lemma Base64Digits(u: nat)
    ensures u == u / 0x1000 * 0x1000 + u / 0x40 % 0x40 * 0x40 + u % 0x40
    ensures u / 0x40 / 0x1000 == u / 0x4_0000 && u / 0x40 / 0x40 == u / 0x1000
  {
  }

  /** The bytes of a Unicode scalar value decode to it. */
  lemma BytesDecode(u: int, rest: seq<int>)
    requires 0 <= u <= 0x10_ffff && !IsSurrogate(u)
    ensures Bytes(u).Some?
    ensures Utf8Decode(Bytes(u).value + rest) == Prepend(u, Utf8Decode(rest))
  {
    if u < 0x800 {
      ShortBytes(u, rest);
    } else if u < 0x1_0000 {
      ThreeBytes(u, rest);
    } else {
      FourBytes(u, rest);
    }
    hide Bytes, SequenceLength, SequenceValue;
    assert (Bytes(u).value + rest)[|Bytes(u).value|..] == rest;
  }

  lemma ReadMeansDecode(words: seq<int>)
    requires AreWords(words) && words != [] && Convertible(words)
    ensures var read := ReadUnichar(words, false);
            && read.Some? && 0 <= read.value.0 <= 0x10_ffff && !IsSurrogate(read.value.0)
            && Convertible(words[read.value.1..])
            && Utf16Decode(words) == Prepend(read.value.0, Utf16Decode(words[read.value.1..]))
  {
  }

  lemma {:induction false} ConvertibleConverts(words: seq<int>)
    requires AreWords(words) && Convertible(words)
    ensures Converted(words, false).Some? && Utf16Decode(words).Some?
    ensures Utf8Decode(Converted(words, false).value) == Utf16Decode(words)
    decreases |words|
  {
    if words != [] {
      ReadMeansDecode(words);
      var (u, n) := ReadUnichar(words, false).value;
      ConvertibleConverts(words[n..]);
      BytesDecode(u, Converted(words[n..], false).value);
    }
  }

  /** Well-formed UTF-16 that is not convertible makes the conversion fail. */
  lemma {:induction false} UnconvertibleFails(words: seq<int>)
    requires AreWords(words) && Utf16Decode(words).Some? && !Convertible(words)
    ensures Converted(words, false).None?
    decreases |words|
  {
    if !IsSurrogate(words[0]) {
      UnconvertibleFails(words[1..]);
    } else if IsTestedLow(words[1]) {
      UnconvertibleFails(words[2..]);
    }
  }

  /**
   * The conversion yields well-formed UTF-8 for the code points that the UTF-16
   * input denotes exactly when the input consists of non-surrogates and of high
   * surrogates followed by a word in 0xdc00..0xdcff.
   */
  lemma ConversionIsRightIffConvertible(words: seq<int>)
    requires AreWords(words)
    ensures Convertible(words) <==>
      && Converted(words, false).Some?
      && Utf16Decode(words).Some?
      && Utf8Decode(Converted(words, false).value) == Utf16Decode(words)
    ensures Utf16Decode(words).Some? ==> (Converted(words, false).Some? <==> Convertible(words))
  {
    if Convertible(words) {
      ConvertibleConverts(words);
    } else if Utf16Decode(words).Some? {
      UnconvertibleFails(words);
    }
  }

  /** Words that are neither high nor tested low surrogates, and high ones followed by a tested low one. */
  predicate Passes(words: seq<int>) {
    words == [] ||
    (!IsHighSurrogate(words[0]) && !(0xdc00 <= words[0] <= 0xdcff) && Passes(words[1..])) ||
    (IsHighSurrogate(words[0]) && |words| >= 2 && 0xdc00 <= words[1] <= 0xdcff && Passes(words[2..]))
  }

  /** Any input, well-formed or not, is converted exactly if it consists of such words. */
  lemma {:induction false} ConvertedIffPasses(words: seq<int>)
    requires AreWords(words)
    ensures Converted(words, false).Some? <==> Passes(words)
    decreases |words|
  {
    hide Converted, ReadUnichar;
    if words == [] {
      NothingConverted(false);
    } else {
      ConversionRound(words, false);
      FrontPasses(words);
      if IsHighSurrogate(words[0]) {
        if |words| >= 2 {
          ConvertedIffPasses(words[2..]);
        }
      } else {
        ConvertedIffPasses(words[1..]);
      }
    }
  }

  lemma FrontPasses(words: seq<int>)
    requires AreWords(words) && words != []
    ensures var read := ReadUnichar(words, false);
            && (read.Some? ==> 0 <= read.value.0 <= 0x10_ffff && Bytes(read.value.0).Some?)
            && (read.Some? <==> if IsHighSurrogate(words[0]) then |words| >= 2 && IsTestedLow(words[1]) else !IsTestedLow(words[0]))
            && (read.Some? ==> read.value.1 == if IsHighSurrogate(words[0]) then 2 else 1)
  {
  }

  /** What passes is converted on its own, whatever follows. */
  lemma {:induction false} ConvertedInParts(words: seq<int>, rest: seq<int>)
    requires AreWords(words) && AreWords(rest) && Passes(words)
    ensures Converted(words, false).Some?
    ensures Converted(words + rest, false) == Append(Converted(words, false).value, Converted(rest, false))
    decreases |words|
  {
    hide Converted, ReadUnichar, Bytes, Append;
    var all := words + rest;
    ConvertedIffPasses(words);
    if words == [] {
      NothingConverted(false);
      AppendToNothing(Converted(rest, false));
      assert all == rest;
    } else {
      var n := if IsHighSurrogate(words[0]) then 2 else 1;
      ConversionRound(words, false);
      ConversionRound(all, false);
      FrontPasses(words);
      SameFrontRead(words, rest);
      assert all[n..] == words[n..] + rest;
      ConvertedInParts(words[n..], rest);
      AppendTwice(Bytes(ReadUnichar(words, false).value.0).value, Converted(words[n..], false).value, Converted(rest, false));
      AppendIsConcat(Bytes(ReadUnichar(words, false).value.0).value, Converted(words[n..], false));
    }
  }

  lemma AppendIsConcat(bytes: seq<int>, rest: Option<seq<int>>)
    requires rest.Some?
    ensures Append(bytes, rest) == Some(bytes + rest.value)
  {
  }

  lemma SameFrontRead(words: seq<int>, rest: seq<int>)
    requires words != [] && Passes(words)
    ensures ReadUnichar(words + rest, false) == ReadUnichar(words, false)
  {
  }

  /** A lone low half above the tested range passes, as three bytes that are not UTF-8. */
  lemma LoneLowHalfPasses(w: int)
    requires 0xdd00 <= w <= 0xdfff
    ensures Converted([w], false) == Some([0xed, 0x80 + w / 0x40 % 0x40, 0x80 + w % 0x40])
    ensures Utf8Decode(Converted([w], false).value) == None
  {
    assert [w][1..] == [] && Converted([], false) == Some([]);
    assert Bytes(w) == Some([0xed, 0x80 + w / 0x40 % 0x40, 0x80 + w % 0x40]);
    var bytes := [0xed, 0x80 + w / 0x40 % 0x40, 0x80 + w % 0x40];
    assert bytes + [] == bytes;
    assert bytes[1] >= 0xb4;
  }

  /** A well-formed pair the conversion rejects: U+1F600, whose low surrogate is 0xde00. */
  lemma RejectedPair()
    ensures Utf16Decode([0xd83d, 0xde00]) == Some([0x1_f600])
    ensures Converted([0xd83d, 0xde00], false) == None
  {
    OnePair(0xd83d, 0xde00);
  }

  lemma {:induction false} Utf16DecodeInjective(a: seq<int>, b: seq<int>)
    requires AreWords(a) && AreWords(b)
    requires Utf16Decode(a).Some? && Utf16Decode(a) == Utf16Decode(b)
    ensures a == b
    decreases |a|
  {
    if a != [] && b != [] {
      var m, n := if IsSurrogate(a[0]) then 2 else 1, if IsSurrogate(b[0]) then 2 else 1;
      var x, y := Utf16Decode(a).value, Utf16Decode(b).value;
      assert x[0] == y[0] && x[1..] == y[1..];
      assert Utf16Decode(a[m..]) == Some(x[1..]) && Utf16Decode(b[n..]) == Some(y[1..]);
      assert m == n && a[..m] == b[..n];
      Utf16DecodeInjective(a[m..], b[n..]);
      assert a == a[..m] + a[m..] && b == b[..n] + b[n..];
    }
  }

  /** On convertible input no two strings convert to the same bytes. */
  lemma ConversionIsInjective(a: seq<int>, b: seq<int>)
    requires AreWords(a) && AreWords(b) && Convertible(a) && Convertible(b)
    requires Converted(a, false) == Converted(b, false)
    ensures a == b
  {
    ConvertibleConverts(a);
    ConvertibleConverts(b);
    Utf16DecodeInjective(a, b);
  }

  // ----- Swapped input -----

  /** The words as the swapping conversion reads them: the second word of a pair is not swapped. */
  function AsRead(words: seq<int>): (read: seq<int>)
    ensures |read| == |words|
  {
    if words == [] then []
    else if IsHighSurrogate(Swap(words[0])) && |words| >= 2 then [Swap(words[0]), words[1]] + AsRead(words[2..])
    else [Swap(words[0])] + AsRead(words[1..])
  }

  function AllSwapped(words: seq<int>): seq<int> {
    seq(|words|, k requires 0 <= k < |words| => Swap(words[k]))
  }

  /** Swapped input converts as the words it is read as, unswapped. */
  lemma {:induction false} SwappedConversion(words: seq<int>)
    requires AreWords(words)
    ensures Converted(words, true) == Converted(AsRead(words), false)
    decreases |words|
  {
    if words != [] {
      var read := AsRead(words);
      SameFront(words);
      ConversionRound(words, true);
      ConversionRound(read, false);
      hide Converted, ReadUnichar, Bytes, Append, Swap;
      if IsHighSurrogate(Swap(words[0])) && |words| >= 2 {
        assert read[2..] == AsRead(words[2..]);
        SwappedConversion(words[2..]);
      } else {
        assert read[1..] == AsRead(words[1..]);
        SwappedConversion(words[1..]);
      }
    }
  }

  lemma AsReadFront(words: seq<int>)
    requires words != []
    ensures AsRead(words)[0] == Swap(words[0])
    ensures IsHighSurrogate(Swap(words[0])) && |words| >= 2 ==> AsRead(words)[1] == words[1]
  {
    hide Swap;
  }

  lemma SameFront(words: seq<int>)
    requires words != []
    ensures ReadUnichar(words, true) == ReadUnichar(AsRead(words), false)
    ensures ReadUnichar(words, true).Some? ==>
      ReadUnichar(words, true).value.1 == if IsHighSurrogate(Swap(words[0])) && |words| >= 2 then 2 else 1
  {
    hide AsRead, Swap;
    AsReadFront(words);
  }

  /** Without surrogates the swapping conversion reads the swapped words. */
  lemma {:induction false} ReadsAllSwapped(words: seq<int>)
    requires AreWords(words)
    ensures (forall k :: 0 <= k < |words| ==> !IsSurrogate(Swap(words[k]))) ==> AsRead(words) == AllSwapped(words)
    decreases |words|
  {
    if words != [] && forall k :: 0 <= k < |words| ==> !IsSurrogate(Swap(words[k])) {
      ReadsAllSwapped(words[1..]);
      assert AllSwapped(words) == [Swap(words[0])] + AllSwapped(words[1..]);
    }
  }

  /** Surrogate-free swapped input converts as its byte-swapped words. */
  lemma SwappedWithoutSurrogates(words: seq<int>)
    requires AreWords(words) && forall k :: 0 <= k < |words| ==> !IsSurrogate(Swap(words[k]))
    ensures Converted(words, true) == Converted(AllSwapped(words), false)
    ensures Converted(words, true).Some? && Utf8Decode(Converted(words, true).value) == Some(AllSwapped(words))
  {
    SwappedConversion(words);
    ReadsAllSwapped(words);
    var swapped := AllSwapped(words);
    assert AreWords(swapped);
    PlainWords(swapped);
    ConvertibleConverts(swapped);
  }

  lemma {:induction false} PlainWords(words: seq<int>)
    requires forall k :: 0 <= k < |words| ==> !IsSurrogate(words[k])
    ensures Convertible(words) && Utf16Decode(words) == Some(words)
    decreases |words|
  {
    if words != [] {
      PlainWords(words[1..]);
      assert words == [words[0]] + words[1..];
    }
  }

  /** Swapped words that are no surrogates, and swapped high surrogates followed by 0xdcdc, a word that is its own swap. */
  predicate SwapConvertible(words: seq<int>) {
    words == [] ||
    (!IsSurrogate(Swap(words[0])) && SwapConvertible(words[1..])) ||
    (IsHighSurrogate(Swap(words[0])) && |words| >= 2 && words[1] == 0xdcdc && SwapConvertible(words[2..]))
  }

  /** The swapping conversion yields well-formed UTF-8 for the code points that the byte-swapped words denote. */
  predicate SwapsRight(words: seq<int>) {
    && Converted(words, true).Some?
    && Utf16Decode(AllSwapped(words)).Some?
    && Utf8Decode(Converted(words, true).value) == Utf16Decode(AllSwapped(words))
  }

  /** Of the tested low halves only 0xdcdc has the low bits of the half it stands for. */
  lemma OwnSwap(w: int)
    requires IsTestedLow(w)
    ensures 0xdc00 <= Swap(w) <= 0xdfff && w % 0x400 == Swap(w) - 0xdc00 <==> w == 0xdcdc
  {
  }

  lemma SwapUnfolds(words: seq<int>)
    requires AreWords(words) && words != []
    ensures 0 <= Swap(words[0]) <= 0xffff && AreWords(words[1..])
    ensures |AllSwapped(words)| == |words|
    ensures AllSwapped(words)[0] == Swap(words[0]) && AllSwapped(words)[1..] == AllSwapped(words[1..])
    ensures |words| >= 2 ==>
      AllSwapped(words)[1] == Swap(words[1]) && AllSwapped(words)[2..] == AllSwapped(words[2..]) && AreWords(words[2..])
  {
  }

  /** Two decodings with a first code point each agree when both parts do. */
  lemma PrependInjective(u: int, v: int, x: Option<seq<int>>, y: Option<seq<int>>)
    ensures Prepend(u, x) == Prepend(v, y) && y.Some? <==> u == v && x == y && y.Some?
  {
    if x.Some? && y.Some? && Prepend(u, x) == Prepend(v, y) {
      assert ([u] + x.value)[1..] == x.value && ([v] + y.value)[1..] == y.value;
      assert ([u] + x.value)[0] == u && ([v] + y.value)[0] == v;
    }
  }

  /** A code point u converted in front of a rest that should read v and its own rest. */
  lemma FrontAndRest(u: int, v: int, rest: Option<seq<int>>, expected: Option<seq<int>>)
    requires 0 <= u <= 0x10_ffff && !IsSurrogate(u)
    ensures Bytes(u).Some?
    ensures var all := Append(Bytes(u).value, rest);
            all.Some? && Prepend(v, expected).Some? && Utf8Decode(all.value) == Prepend(v, expected) <==>
            u == v && rest.Some? && expected.Some? && Utf8Decode(rest.value) == expected
  {
    hide Bytes, Utf8Decode, Prepend;
    BytesDecode(u, []);
    if rest.Some? {
      BytesDecode(u, rest.value);
      PrependInjective(u, v, Utf8Decode(rest.value), expected);
    }
    PrependSome(v, expected);
  }

  lemma PrependSome(v: int, rest: Option<seq<int>>)
    ensures Prepend(v, rest).Some? <==> rest.Some?
  {
  }

  lemma SwapsRightPlain(words: seq<int>)
    requires AreWords(words) && words != [] && !IsSurrogate(Swap(words[0]))
    ensures SwapsRight(words) <==> SwapsRight(words[1..])
  {
    var u := Swap(words[0]);
    SwapUnfolds(words);
    FrontAndRest(u, u, Converted(words[1..], true), Utf16Decode(AllSwapped(words[1..])));
    hide Bytes, Swap, AllSwapped, Utf8Decode, Append, Prepend;
  }

  lemma PairIsRead(words: seq<int>)
    requires |words| >= 2 && IsHighSurrogate(Swap(words[0])) && IsTestedLow(words[1])
    ensures ReadUnichar(words, true) == Some(((Swap(words[0]) - 0xd7c0) * 0x400 + words[1] % 0x400, 2))
  {
  }

  lemma PairMeans(words: seq<int>)
    requires |words| >= 2 && IsHighSurrogate(words[0])
    ensures Utf16Decode(words) ==
            if 0xdc00 <= words[1] <= 0xdfff
            then Prepend(0x1_0000 + (words[0] - 0xd800) * 0x400 + (words[1] - 0xdc00), Utf16Decode(words[2..]))
            else None
  {
  }

  lemma SwapsRightPair(words: seq<int>)
    requires AreWords(words) && |words| >= 2 && IsHighSurrogate(Swap(words[0])) && IsTestedLow(words[1])
    ensures SwapsRight(words) <==> words[1] == 0xdcdc && SwapsRight(words[2..])
  {
    hide Bytes, Swap, Converted, ReadUnichar, Utf16Decode, AllSwapped, Utf8Decode, Append, Prepend;
    var high, low := Swap(words[0]), Swap(words[1]);
    var u := (high - 0xd7c0) * 0x400 + words[1] % 0x400;
    var v := 0x1_0000 + (high - 0xd800) * 0x400 + (low - 0xdc00);
    OwnSwap(words[1]);
    SwapUnfolds(words);
    PairIsRead(words);
    ConversionRound(words, true);
    PairMeans(AllSwapped(words));
    FrontAndRest(u, v, Converted(words[2..], true), Utf16Decode(AllSwapped(words[2..])));
  }

  lemma SwapsWrong(words: seq<int>)
    requires AreWords(words) && words != [] && IsSurrogate(Swap(words[0]))
    requires !IsHighSurrogate(Swap(words[0])) || |words| == 1 || !IsTestedLow(words[1])
    ensures !SwapsRight(words)
  {
    SwapUnfolds(words);
    hide Bytes, Swap, AllSwapped, Utf8Decode, Append, Prepend;
  }

  /**
   * On swapped input the conversion is right exactly for swapped non-surrogates
   * and swapped high surrogates followed by 0xdcdc: the second word of a pair is
   * tested and read without being swapped.
   */
  lemma {:induction false} SwappedIsRightIff(words: seq<int>)
    requires AreWords(words)
    ensures SwapConvertible(words) <==>
      && Converted(words, true).Some?
      && Utf16Decode(AllSwapped(words)).Some?
      && Utf8Decode(Converted(words, true).value) == Utf16Decode(AllSwapped(words))
    decreases |words|
  {
    hide Converted, Utf16Decode, Utf8Decode, AllSwapped, Swap;
    if words == [] {
      NothingSwapped();
    } else if !IsSurrogate(Swap(words[0])) {
      SwapsRightPlain(words);
      SwappedIsRightIff(words[1..]);
    } else if IsHighSurrogate(Swap(words[0])) && |words| >= 2 && IsTestedLow(words[1]) {
      SwapsRightPair(words);
      SwappedIsRightIff(words[2..]);
    } else {
      SwapsWrong(words);
    }
  }

  lemma NothingSwapped()
    ensures SwapsRight([])
  {
    assert AllSwapped([]) == [];
  }

  lemma OnePair(high: int, low: int)
    requires IsHighSurrogate(high) && 0xdc00 <= low <= 0xdfff
    ensures Utf16Decode([high, low]) == Some([0x1_0000 + (high - 0xd800) * 0x400 + (low - 0xdc00)])
  {
    PairMeans([high, low]);
    assert [high, low][2..] == [] && Utf16Decode([]) == Some([]);
    var v := 0x1_0000 + (high - 0xd800) * 0x400 + (low - 0xdc00);
    assert [v] + [] == [v];
  }

  /** U+1F44C, byte-swapped, is rejected: its low half 0x4cdc is tested before it is swapped. */
  lemma RejectedSwappedPair()
    ensures Utf16Decode(AllSwapped([0x3dd8, 0x4cdc])) == Some([0x1_f44c])
    ensures Converted([0x3dd8, 0x4cdc], true) == None
  {
    OnePair(0xd83d, 0xdc4c);
    assert AllSwapped([0x3dd8, 0x4cdc]) == [0xd83d, 0xdc4c];
  }

  /** U+1F5DC, byte-swapped, is converted to another character, U+1F4DD. */
  lemma MisreadSwappedPair()
    ensures Utf16Decode(AllSwapped([0x3dd8, 0xdcdd])) == Some([0x1_f5dc])
    ensures Converted([0x3dd8, 0xdcdd], true).Some?
    ensures Utf8Decode(Converted([0x3dd8, 0xdcdd], true).value) == Some([0x1_f4dd])
  {
    OnePair(0xd83d, 0xdddc);
    OnePair(0xd83d, 0xdcdd);
    PairAsRead(0x3dd8, 0xdcdd);
    assert AllSwapped([0x3dd8, 0xdcdd]) == [0xd83d, 0xdddc];
    assert Convertible([0xd83d, 0xdcdd]) by {
      assert [0xd83d, 0xdcdd][2..] == [];
    }
    hide Converted, Utf16Decode, Utf8Decode, AsRead, Convertible, AllSwapped;
    SwappedConversion([0x3dd8, 0xdcdd]);
    ConvertibleConverts([0xd83d, 0xdcdd]);
  }

  lemma PairAsRead(first: int, second: int)
    requires IsHighSurrogate(Swap(first))
    ensures AsRead([first, second]) == [Swap(first), second]
  {
    assert [first, second][2..] == [];
  }
}
