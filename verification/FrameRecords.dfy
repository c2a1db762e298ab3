/** stackwalk_common.cc: the pipe-delimited, machine-readable form of a call stack. */
module FrameRecords {
  import opened Wrappers
  import opened CStrings
  import opened FixedWidth
  import opened Numerals

  const SEPARATOR: char := '|'

  datatype CodeModule = CodeModule(codeFile: string, baseAddress: int)

  /** The parts of a stack frame that are printed; empty names stand for unknown ones. */
  datatype Frame = Frame(
    returnAddress: int,
    module_: Option<CodeModule>,
    functionName: string,
    functionBase: int,
    sourceFileName: string,
    sourceLine: int,
    sourceLineBase: int)

  // ----- Characters out -----

  function Without(s: string, c: char): string {
    if s == "" then "" else (if s[0] == c then "" else [s[0]]) + Without(s[1..], c)
  }

  lemma {:induction false} WithoutConcat(a: string, b: string, c: char)
    ensures Without(a + b, c) == Without(a, c) + Without(b, c)
    decreases |a|
  {
    if a == "" {
      assert a + b == b;
    } else {
      assert (a + b)[1..] == a[1..] + b;
      WithoutConcat(a[1..], b, c);
    }
  }

  lemma {:induction false} WithoutAbsent(s: string, c: char)
    requires c !in s
    ensures Without(s, c) == s
    decreases |s|
  {
    if s != "" {
      WithoutAbsent(s[1..], c);
      assert s == [s[0]] + s[1..];
    }
  }

  lemma {:induction false} WithoutHasNone(s: string, c: char)
    ensures c !in Without(s, c)
    ensures forall d :: d in Without(s, c) ==> d in s
    decreases |s|
  {
    if s != "" {
      WithoutHasNone(s[1..], c);
    }
  }

  /** std::string::find from a position; the length stands for npos. */
  method Find(s: string, c: char, position: nat) returns (i: nat)
    requires position <= |s|
    ensures position <= i <= |s| && c !in s[position..i]
    ensures i < |s| ==> s[i] == c
  {
    i := position;
    while i < |s| && s[i] != c
      invariant position <= i <= |s| && c !in s[position..i]
    {
      i := i + 1;
    }
  }

  lemma EraseOne(s: string, i: nat, c: char)
    requires i < |s| && s[i] == c
    ensures Without(s[..i] + s[i + 1..], c) == Without(s, c)
  {
    var before, after := s[..i], s[i + 1..];
    assert s == before + ([c] + after);
    WithoutConcat(before, [c] + after, c);
    WithoutConcat([c], after, c);
    WithoutConcat(before, after, c);
  }

  method EraseAll(original: string, c: char) returns (result: string)
    ensures result == Without(original, c)
  {
    hide Without;
    result := original;
    var position := Find(result, c, 0);
    assert result[..position] == result[0..position];
    while position < |result|
      invariant position <= |result| && c !in result[..position]
      invariant position < |result| ==> result[position] == c
      invariant Without(result, c) == Without(original, c)
      decreases |result|
    {
      EraseOne(result, position, c);
      ghost var before := result[..position];
      result := result[..position] + result[position + 1..];
      assert result[..position] == before;
      var next := Find(result, c, position);
      assert result[..next] == result[..position] + result[position..next];
      position := next;
    }
    assert result[..position] == result;
    WithoutAbsent(result, c);
  }

  /** What `StripSeparator` returns: the characters other than separators and newlines, in order. */
  function Stripped(s: string): string {
    Without(Without(s, SEPARATOR), '\n')
  }

  method StripSeparator(original: string) returns (result: string)
    ensures result == Stripped(original)
  {
    result := EraseAll(original, SEPARATOR);
    result := EraseAll(result, '\n');
  }

  /** `PathnameStripper::File`: what follows the last slash or backslash. */
  function File(path: string): string {
    if path == "" then ""
    else
      var last := path[|path| - 1];
      if last == '/' || last == '\\' then "" else File(path[..|path| - 1]) + [last]
  }

  /** A file name has no slashes, and is the whole path or comes right after one. */
  lemma {:induction false} FileIsLastComponent(path: string)
    ensures '/' !in File(path) && '\\' !in File(path)
    ensures |File(path)| <= |path| && path[|path| - |File(path)|..] == File(path)
    ensures |File(path)| < |path| ==> path[|path| - |File(path)| - 1] == '/' || path[|path| - |File(path)| - 1] == '\\'
    decreases |path|
  {
    if path != "" && path[|path| - 1] != '/' && path[|path| - 1] != '\\' {
      var init, last := path[..|path| - 1], path[|path| - 1];
      FileIsLastComponent(init);
      var at := |init| - |File(init)|;
      assert path[at..] == init[at..] + [last];
    }
  }

  /** `%d`. */
  function Decimal(n: int): string {
    if n < 0 then "-" + Numeral(-n, 10) else Numeral(n, 10)
  }

  /** `0x%lx` of a difference of addresses, in 64 bits. */
  function Offset(address: int, base: int): string {
    "0x" + Numeral((address - base) % TWO_64, 16)
  }

  // ----- The records -----

  function ModuleField(f: Frame): string {
    if f.module_.None? then "" else CString(Stripped(File(f.module_.value.codeFile)))
  }

  function FunctionField(f: Frame): string {
    if f.module_.None? || f.functionName == "" then "" else CString(Stripped(f.functionName))
  }

  predicate HasSource(f: Frame) {
    f.module_.Some? && f.functionName != "" && f.sourceFileName != ""
  }

  function SourceField(f: Frame): string {
    if HasSource(f) then CString(Stripped(f.sourceFileName)) else ""
  }

  function LineField(f: Frame): string {
    if HasSource(f) then Decimal(f.sourceLine) else ""
  }

  /** What the offset is counted from: the closest known start before the address. */
  function OffsetBase(f: Frame): int {
    if f.module_.None? then 0
    else if f.functionName == "" then f.module_.value.baseAddress
    else if f.sourceFileName == "" then f.functionBase
    else f.sourceLineBase
  }

  function OffsetField(f: Frame): string {
    Offset(f.returnAddress, OffsetBase(f))
  }

  /** Who and where in the stack, where in the code, and how far into it. */
  function Fields(thread: int, index: int, f: Frame): seq<string> {
    [Decimal(thread), Decimal(index), ModuleField(f), FunctionField(f), SourceField(f), LineField(f), OffsetField(f)]
  }

  function Split(s: string, c: char): (pieces: seq<string>)
    ensures |pieces| >= 1
  {
    if s == "" then [""]
    else
      var rest := Split(s[1..], c);
      if s[0] == c then [""] + rest else [[s[0]] + rest[0]] + rest[1..]
  }

  function Record(thread: int, index: int, f: Frame): string {
    Join(Fields(thread, index, f), SEPARATOR)
  }

  function Records(thread: int, frames: seq<Frame>): seq<string> {
    seq(|frames|, i requires 0 <= i < |frames| => Record(thread, i, frames[i]))
  }

  function Lines(records: seq<string>): string {
    if records == [] then "" else Lines(records[..|records| - 1]) + records[|records| - 1] + "\n"
  }

  method PrintFrame(thread: int, index: int, f: Frame) returns (text: string)
    ensures text == Record(thread, index, f)
  {
    SevenFields(Fields(thread, index, f), SEPARATOR);
    hide Join, CString, Stripped, File, Decimal, Offset;
    text := Decimal(thread) + "|" + Decimal(index) + "|";
    if f.module_.Some? {
      var moduleName := StripSeparator(File(f.module_.value.codeFile));
      text := text + CString(moduleName);
      if f.functionName != "" {
        var functionName := StripSeparator(f.functionName);
        text := text + "|" + CString(functionName);
        if f.sourceFileName != "" {
          var sourceFileName := StripSeparator(f.sourceFileName);
          text := text + "|" + CString(sourceFileName) + "|" + Decimal(f.sourceLine) + "|" + Offset(f.returnAddress, f.sourceLineBase);
        } else {
          EmptyFields(text);
          text := text + "|" + "|" + "|" + Offset(f.returnAddress, f.functionBase);
        }
      } else {
        EmptyFields(text);
        text := text + "|" + "|" + "|" + "|" + Offset(f.returnAddress, f.module_.value.baseAddress);
      }
    } else {
      EmptyFields(text);
      text := text + "|" + "|" + "|" + "|" + Offset(f.returnAddress, 0);
    }
  }

  lemma EmptyFields(text: string)
    ensures text + "" == text
    ensures text + "|" + "" == text + "|"
    ensures text + "|" + "|" + "" == text + "|" + "|"
    ensures text + "|" + "|" + "|" + "" == text + "|" + "|" + "|"
  {
  }

  lemma SevenFields(p: seq<string>, c: char)
    requires |p| == 7
    ensures Join(p, c) == p[0] + [c] + p[1] + [c] + p[2] + [c] + p[3] + [c] + p[4] + [c] + p[5] + [c] + p[6]
  {
    assert Join(p[..1], c) == p[0];
    hide Join;
    assert p == p[..7];
    JoinPrefix(p, 1, c);
    JoinPrefix(p, 2, c);
    JoinPrefix(p, 3, c);
    JoinPrefix(p, 4, c);
    JoinPrefix(p, 5, c);
    JoinPrefix(p, 6, c);
  }

  lemma JoinPrefix(p: seq<string>, k: nat, c: char)
    requires 1 <= k < |p|
    ensures Join(p[..k + 1], c) == Join(p[..k], c) + [c] + p[k]
  {
    assert p[..k + 1] == p[..k] + [p[k]];
    JoinAppend(p[..k], p[k], c);
  }

  /** `PrintStackMachineReadable`: one record a line. */
  method PrintStackMachineReadable(thread: int, frames: seq<Frame>) returns (output: string)
    ensures output == Lines(Records(thread, frames))
  {
    output := "";
    ghost var records := Records(thread, frames);
    hide Record;
    var i := 0;
    while i < |frames|
      invariant 0 <= i <= |frames|
      invariant output == Lines(records[..i])
    {
      var text := PrintFrame(thread, i, frames[i]);
      assert records[..i + 1][..i] == records[..i] && text == records[i];
      output := output + text + "\n";
      i := i + 1;
    }
    assert records[..i] == records;
  }

  // ----- Reading them back -----

  lemma {:induction false} SplitAtFirst(piece: string, rest: string, c: char)
    requires c !in piece
    ensures Split(piece + [c] + rest, c) == [piece] + Split(rest, c)
    decreases |piece|
  {
    var whole := piece + [c] + rest;
    if piece == "" {
      assert whole[1..] == rest;
    } else {
      assert whole[1..] == piece[1..] + [c] + rest;
      SplitAtFirst(piece[1..], rest, c);
      assert piece == [piece[0]] + piece[1..];
    }
  }

  lemma {:induction false} SplitWhole(piece: string, c: char)
    requires c !in piece
    ensures Split(piece, c) == [piece]
    decreases |piece|
  {
    if piece != "" {
      SplitWhole(piece[1..], c);
      assert piece == [piece[0]] + piece[1..];
    }
  }

  lemma {:induction false} SplitJoin(pieces: seq<string>, c: char)
    requires pieces != [] && forall k :: 0 <= k < |pieces| ==> c !in pieces[k]
    ensures Split(Join(pieces, c), c) == pieces
    decreases |pieces|
  {
    if |pieces| == 1 {
      SplitWhole(pieces[0], c);
    } else {
      SplitJoin(pieces[1..], c);
      SplitAtFirst(pieces[0], Join(pieces[1..], c), c);
    }
  }

  /** The text has neither separators nor newlines in it. */
  ghost predicate IsPlain(s: string) {
    SEPARATOR !in s && '\n' !in s
  }

  lemma NumeralIsPlain(n: nat, base: nat)
    requires 2 <= base <= 16
    ensures IsPlain(Numeral(n, base))
  {
    NumeralCharacters(n, base);
    hide Numeral;
    assert forall k :: 0 <= k < |Numeral(n, base)| ==> IsNumeralCharacter(Numeral(n, base)[k]);
  }

  lemma DecimalIsPlain(n: int)
    ensures IsPlain(Decimal(n))
  {
    hide Numeral;
    NumeralIsPlain(if n < 0 then -n else n, 10);
  }

  lemma OffsetIsPlain(address: int, base: int)
    ensures IsPlain(Offset(address, base))
  {
    hide Numeral;
    NumeralIsPlain((address - base) % TWO_64, 16);
  }

  lemma StrippedIsPlain(s: string)
    ensures IsPlain(CString(Stripped(s)))
  {
    WithoutHasNone(s, SEPARATOR);
    WithoutHasNone(Without(s, SEPARATOR), '\n');
    assert forall d :: d in CString(Stripped(s)) ==> d in Stripped(s);
  }

  lemma NothingIsPlain()
    ensures IsPlain("")
  {
  }

  lemma FieldsArePlain(thread: int, index: int, f: Frame)
    ensures forall k :: 0 <= k < 7 ==> IsPlain(Fields(thread, index, f)[k])
  {
    hide IsPlain, CString, Stripped, Decimal, Offset, File, OffsetBase;
    NothingIsPlain();
    DecimalIsPlain(thread);
    DecimalIsPlain(index);
    DecimalIsPlain(f.sourceLine);
    StrippedIsPlain(f.functionName);
    StrippedIsPlain(f.sourceFileName);
    if f.module_.Some? {
      StrippedIsPlain(File(f.module_.value.codeFile));
    }
    OffsetIsPlain(f.returnAddress, OffsetBase(f));
  }

  /** Every record splits at the separators into its seven fields, whatever is unknown. */
  lemma RecordHasSevenFields(thread: int, index: int, f: Frame)
    ensures Split(Record(thread, index, f), SEPARATOR) == Fields(thread, index, f)
    ensures |Fields(thread, index, f)| == 7
  {
    FieldsArePlain(thread, index, f);
    SplitJoin(Fields(thread, index, f), SEPARATOR);
  }

  /** What `%d` writes for n. */
  ghost predicate IsDecimalOf(s: string, n: int) {
    if n < 0 then s != "" && s[0] == '-' && IsNumeralOf(s[1..], -n, 10) else IsNumeralOf(s, n, 10)
  }

  /** What `0x%lx` writes for v. */
  ghost predicate IsOffsetOf(s: string, v: nat) {
    "0x" <= s && IsNumeralOf(s[2..], v, 16)
  }

  lemma DecimalReadsBack(n: int)
    ensures IsDecimalOf(Decimal(n), n)
  {
    hide Numeral, IsNumeralOf;
    var digits := Numeral(if n < 0 then -n else n, 10);
    NumeralIsNumeral(if n < 0 then -n else n, 10);
    assert ("-" + digits)[1..] == digits;
  }

  lemma OffsetReadsBack(address: int, base: int)
    ensures IsOffsetOf(Offset(address, base), (address - base) % TWO_64)
  {
    hide Numeral, IsNumeralOf;
    var digits := Numeral((address - base) % TWO_64, 16);
    NumeralIsNumeral((address - base) % TWO_64, 16);
    assert ("0x" + digits)[2..] == digits;
  }

  lemma OffsetBaseOfShape(f: Frame)
    ensures f.module_.None? ==> OffsetBase(f) == 0
    ensures f.module_.Some? && f.functionName == "" ==> OffsetBase(f) == f.module_.value.baseAddress
    ensures f.module_.Some? && f.functionName != "" && f.sourceFileName == "" ==> OffsetBase(f) == f.functionBase
    ensures f.module_.Some? && f.functionName != "" && f.sourceFileName != "" ==> OffsetBase(f) == f.sourceLineBase
  {
  }

  /**
   * The numbers of a frame can be read from its fields: thread, frame number, source
   * line if there is one, and the distance from the closest known start, in 64 bits.
   */
  lemma NumbersReadBack(thread: int, index: int, f: Frame)
    ensures var fields := Split(Record(thread, index, f), SEPARATOR);
            && |fields| == 7
            && IsDecimalOf(fields[0], thread)
            && IsDecimalOf(fields[1], index)
            && (if f.module_.Some? && f.functionName != "" && f.sourceFileName != ""
                then IsDecimalOf(fields[5], f.sourceLine) else fields[5] == "")
            && (f.module_.None? ==> IsOffsetOf(fields[6], f.returnAddress % TWO_64))
            && (f.module_.Some? && f.functionName == "" ==>
                  IsOffsetOf(fields[6], (f.returnAddress - f.module_.value.baseAddress) % TWO_64))
            && (f.module_.Some? && f.functionName != "" && f.sourceFileName == "" ==>
                  IsOffsetOf(fields[6], (f.returnAddress - f.functionBase) % TWO_64))
            && (f.module_.Some? && f.functionName != "" && f.sourceFileName != "" ==>
                  IsOffsetOf(fields[6], (f.returnAddress - f.sourceLineBase) % TWO_64))
  {
    hide Split, Record, Decimal, Offset, IsDecimalOf, IsOffsetOf, OffsetBase;
    OffsetBaseOfShape(f);
    RecordHasSevenFields(thread, index, f);
    DecimalReadsBack(thread);
    DecimalReadsBack(index);
    DecimalReadsBack(f.sourceLine);
    OffsetReadsBack(f.returnAddress, OffsetBase(f));
  }

  /** The text is cut at its first NUL and has neither separators nor newlines; the rest is there, in order. */
  ghost predicate IsCleaned(field: string, original: string) {
    exists rest: string ::
      && Removed(original, field + rest)
      && (rest == "" || rest[0] == '\0')
      && '\0' !in field
  }

  /** The second text is what the first one leaves when its separators and newlines are taken out one by one. */
  ghost predicate Removed(original: string, left: string)
    decreases |original|
  {
    if original == "" then left == ""
    else if original[0] == '|' || original[0] == '\n' then Removed(original[1..], left)
    else left != "" && left[0] == original[0] && Removed(original[1..], left[1..])
  }

  lemma WithoutFirst(s: string, c: char)
    requires s != ""
    ensures if s[0] == c then Without(s, c) == Without(s[1..], c)
            else Without(s, c) != "" && Without(s, c)[0] == s[0] && Without(s, c)[1..] == Without(s[1..], c)
  {
    var rest := Without(s[1..], c);
    assert "" + rest == rest && ([s[0]] + rest)[1..] == rest;
  }

  lemma {:induction false} WithoutBoth(s: string)
    ensures Removed(s, Stripped(s))
    decreases |s|
  {
    if s != "" {
      WithoutBoth(s[1..]);
      var once := Without(s, SEPARATOR);
      WithoutFirst(s, SEPARATOR);
      if s[0] != SEPARATOR {
        WithoutFirst(once, '\n');
      }
    }
  }

  lemma StrippedIsCleaned(s: string)
    ensures IsCleaned(CString(Stripped(s)), s)
  {
    WithoutBoth(s);
    hide Stripped, Removed;
    var field := CString(Stripped(s));
    var rest := Stripped(s)[|field|..];
    assert field + rest == Stripped(s);
    assert rest == "" || rest[0] == '\0';
    assert Removed(s, field + rest) && '\0' !in field;
  }

  /** The names of a frame, cleaned, are fields 2 to 4; a shape that lacks a name leaves its field empty. */
  lemma NamesReadBack(thread: int, index: int, f: Frame)
    ensures var fields := Split(Record(thread, index, f), SEPARATOR);
            && |fields| == 7
            && (if f.module_.Some? then IsCleaned(fields[2], File(f.module_.value.codeFile)) else fields[2] == "")
            && (if f.module_.Some? && f.functionName != "" then IsCleaned(fields[3], f.functionName) else fields[3] == "")
            && (if f.module_.Some? && f.functionName != "" && f.sourceFileName != ""
                then IsCleaned(fields[4], f.sourceFileName) else fields[4] == "")
  {
    hide Split, Record, Decimal, Offset, OffsetBase, IsCleaned, File, Stripped, CString;
    RecordHasSevenFields(thread, index, f);
    if f.module_.Some? {
      StrippedIsCleaned(File(f.module_.value.codeFile));
    }
    StrippedIsCleaned(f.functionName);
    StrippedIsCleaned(f.sourceFileName);
  }

  lemma {:induction false} JoinHasNone(pieces: seq<string>, c: char, d: char)
    requires d != c && forall k :: 0 <= k < |pieces| ==> d !in pieces[k]
    ensures d !in Join(pieces, c)
    decreases |pieces|
  {
    if |pieces| > 1 {
      JoinHasNone(pieces[1..], c, d);
    }
  }

  lemma {:induction false} SplitLines(records: seq<string>, rest: string)
    requires forall k :: 0 <= k < |records| ==> '\n' !in records[k]
    ensures Split(Lines(records) + rest, '\n') == records + Split(rest, '\n')
    decreases |records|
  {
    hide Split;
    if records == [] {
      assert "" + rest == rest;
      assert [] + Split(rest, '\n') == Split(rest, '\n');
    } else {
      var init, last := records[..|records| - 1], records[|records| - 1];
      assert Lines(records) + rest == Lines(init) + (last + "\n" + rest);
      SplitLines(init, last + "\n" + rest);
      SplitAtFirst(last, rest, '\n');
      assert records + Split(rest, '\n') == init + ([last] + Split(rest, '\n'));
    }
  }

  /**
   * The printed stack splits into one line per frame and a last empty one, and each
   * line into the seven fields of its frame.
   */
  lemma OutputReadsBack(thread: int, frames: seq<Frame>)
    ensures var lines := Split(Lines(Records(thread, frames)), '\n');
            && |lines| == |frames| + 1 && lines[|frames|] == ""
            && forall i :: 0 <= i < |frames| ==> Split(lines[i], SEPARATOR) == Fields(thread, i, frames[i])
  {
    var records := Records(thread, frames);
    forall i | 0 <= i < |frames|
      ensures '\n' !in records[i] && Split(records[i], SEPARATOR) == Fields(thread, i, frames[i])
    {
      FieldsArePlain(thread, i, frames[i]);
      JoinHasNone(Fields(thread, i, frames[i]), SEPARATOR, '\n');
      RecordHasSevenFields(thread, i, frames[i]);
    }
    SplitLines(records, "");
    assert Lines(records) + "" == Lines(records);
    assert Split("", '\n') == [""];
  }
}
