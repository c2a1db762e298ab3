# Verified models of MiscCode

Dafny models of the algorithms and state machines in this repository that are
hard to get right by reading, with proofs of what they compute. Each module
follows one source file or one of its parts.

| module | models |
|---|---|
| `Decimal`, `BigNumber`, `DigitLoops`, `NumberText`, `BigIntegers` | the fixed-width decimal integer of `BigInteger/main.cc` |
| `StackMemory`, `Stackwalkers`, `StackwalkerRuns` | the breakpad stack walk on amd64 and x86 |
| `CfiRules`, `CfiSerialization`, `CfiRecords`, `CfiLookup` | STACK CFI rule sets: text, parser, serializer, records, rules in force |
| `SymbolCache` | when symbols are loaded and the supplier is asked |
| `FileTransfer` | the broadcast file transfer between a client and the server |
| `BinaryHeap` | the growing array heap of `c/heap.c` |
| `UnicodeConversion` | UTF-16 to UTF-8 in `minidump.cc` |
| `TwoSum` | the two searches of `two_sum.rs` |
| `FrameRecords` | the machine-readable stack listing |
| `Numerals`, `CStrings` | numerals and C strings in texts |
| `Sieve` | the prime table of `java/Snippets.java` |
| `Wrappers`, `FixedWidth` | shared datatypes and integer limits |

Verify everything with `dafny verify dfyconfig.toml`.

## How the models are built

Code that changes objects in place is a class whose methods are proved against
functions of the old state; what matters about whole runs is proved about those
functions. A big integer's `Snap()` is its value, a server's or client's `Snap()`
its protocol state. Running code that cannot be seen enters as parameters: the
symbolizer, the CFI register recovery and the scan for a return address are
function-valued fields of `Stackwalker`; the symbol supplier's answers, and how a
module's data parses, are arguments of the calls; the file on the server and the
value left in an unset field are the `World` of a transfer.

Unwinding is stated against a machine: `StackMemory.AfterCall` is a CALL followed
by the callee's prologue, writing little-endian words into the stack bytes. The
walk theorems say that the walker undoes any run of such calls.

Where the code does not do what its name promises, the model keeps the code and
the theorem gives the exact condition:

- `-` recurses for ever on equally long magnitudes with the same leading digit
  (12 - 11); `shrink` runs once per level of the recursion and damages the length
  of longer results and of zero, so (-5) - (-5) gets the length -499 and prints as
  nothing.
- a leading zero counts as length, so `-` can take the smaller number for the larger
  (5 - 02) and borrows from outside the cells.
- the product of two negative numbers is negative.
- the amd64 walk loses the outermost call when its saved frame pointer is 0, as
  the ABI suggests for the outermost frame.
- a file whose size is a multiple of the payload size leaves the server waiting
  unless an unset variable happens to hold the payload size.
- surrogate pairs with a low half above 0xdcff are rejected, and such a half alone
  passes as bytes that are not UTF-8; the low half of a byte-swapped pair is read
  unswapped, so such a pair is rejected or taken for another character unless that
  half is its own swap, 0xdcdc.
- the hash-map search can pair a place with itself.
- draining a heap prints nothing if it holds a negative value.

## Model

| member | source | states |
|---|---|---|
| `BigIntegers.BigInteger.Add` | BigInteger/main.cc:181-223 | `+` terminates (negative operands first, then the swap) and the signed value is exactly a + b in every sign combination, for canonical operands whenever the comparison separates magnitudes that get subtracted and a carried sum fits; with leading zeros, if and only if the comparison is right about the magnitudes. For canonical operands the sign and the exact length are given, with every repeated `shrink` in it; the result is canonical if and only if the sum is not negative or its digit count survives `shrink` |
| `BigIntegers.BigInteger.Subtract` | BigInteger/main.cc:225-271 | the same for `-` and a - b; from canonical operands the result is canonical if and only if b and a - b are not negative, or a - b is non-zero with at most half of, or exactly, NR_DIGITS digits |
| `BigNumber.RecursionEndsIffSeparated` | BigInteger/main.cc:181-271 | for all operands, leading zeros included, the chain of mutually recursive calls of `+` and `-` ends if and only if, where the signs make it a subtraction, the magnitudes are equal or differ in length or leading digit |
| `BigNumber.UnseparatedNeverEnds` | BigInteger/main.cc:148-160 | two unseparated magnitudes are swapped for ever, whatever the number of calls |
| `BigNumber.NextCallDescends` | BigInteger/main.cc:198-255 | every recursive call keeps operands well-formed and separated, computes the wanted value up to the sign the caller restores, depends as much on the comparison being right, and lowers the rank |
| `BigNumber.ComparisonIsRightIffSeparated` | BigInteger/main.cc:148-173 | `<` orders two canonical magnitudes, both ways round, exactly when they are separated |
| `BigNumber.OrdersIff` | BigInteger/main.cc:148-173 | with leading zeros `<` is right exactly if the numbers are equal, or equally long with different first digits, or the larger one is written longer |
| `BigNumber.SignTest` | BigInteger/main.cc:148-178 | `x < 0` is the sign flag, also for length 0, leading zeros and a negative zero |
| `BigNumber.CanonicalMeansShortest` | BigInteger/main.cc:104-124 | the concrete canonical form (zero cells above the length, no leading zero, no negative zero) says the length is the number's digit count |
| `BigNumber.ShrinkOnceOrTwice` | BigInteger/main.cc:115-124 | `shrink` finds the digit count from a full length; applied again it keeps it if and only if the number is non-zero and has at most half of, or exactly, NR_DIGITS digits; too short stays too short |
| `DigitLoops.CanonicalIffKept` | BigInteger/main.cc:225-271 | a sum or difference of canonical operands is canonical exactly when the signs and the wanted value say that nothing is shrunk twice, or its digit count survives; otherwise its length is too short |
| `DigitLoops.LengthAfterKeeps` | BigInteger/main.cc:115-124 | any number of further `shrink`s keeps the shortest length exactly for non-zero numbers of at most half of, or exactly, NR_DIGITS digits, and never lengthens it |
| `NumberText.NegativeMinusItself` | BigInteger/main.cc:225-271 | a negative number minus itself has value zero, length -499, and prints as nothing |
| `BigIntegers.MinusFiveMinusMinusFive` | BigInteger/main.cc:225-271 | so (-5) - (-5) prints as nothing |
| `NumberText.SameFirstDigitNeverEnds` | BigInteger/main.cc:225-255 | for any two different digit strings of the same length with the same non-zero first digit, the subtraction recurses for ever |
| `NumberText.TwelveMinusElevenNeverEnds` | BigInteger/main.cc:225-255 | 12 - 11 recurses for ever |
| `NumberText.LongerLooksLarger` | BigInteger/main.cc:153-154 | a smaller number written with more digits is taken for the larger one: 5 - 02 comes back without the right value |
| `BigNumber.CanonicalIsRight` | BigInteger/main.cc:148-173 | canonical operands that the comparison separates get the right value |
| `BigIntegers.BigInteger.AddDigits` | BigInteger/main.cc:210-218 | the carry loop stays in bounds and yields the exact sum of the magnitudes; its length is the largest of both lengths and the digit count |
| `BigIntegers.BigInteger.SubtractDigits` | BigInteger/main.cc:256-266 | the borrow loop over all cells yields the exact difference of the magnitudes, or 10^NR_DIGITS more if it is negative |
| `DigitLoops.WrapsUnlessRight` | BigInteger/main.cc:252-266 | without a swap, nothing is borrowed from outside the cells if and only if the comparison is right about the magnitudes |
| `DigitLoops.SumStep` | BigInteger/main.cc:213-217 | one round of the carry loop keeps cells-so-far plus carry equal to the sum so far |
| `DigitLoops.DifferenceStep` | BigInteger/main.cc:258-265 | one round of the borrow loop keeps cells-so-far less what was borrowed equal to the difference so far |
| `BigIntegers.BigInteger.PrependDigits` | BigInteger/main.cc:104-107 | puts one digit in front and nothing else changes |
| `BigIntegers.BigInteger.AppendZeros` | BigInteger/main.cc:109-113 | multiplies the magnitude by a power of ten and lengthens the number by as much |
| `BigIntegers.BigInteger.Shrink` | BigInteger/main.cc:115-124 | changes the length as the number of leading zero cells dictates, and no cell |
| `BigIntegers.BigInteger.PartialProduct` | BigInteger/main.cc:279-293 | one row stays in bounds, its carry-extended loop ends, and it is the number times one digit times a power of ten, of known length |
| `BigIntegers.BigInteger.Multiply` | BigInteger/main.cc:273-303 | for all well-formed operands whose product fits, the magnitude is exactly the product; the signed value is right if and only if not both are negative; canonical exactly when neither factor is zero, or both are non-negative and of one digit |
| `BigIntegers.MinusTwoTimesMinusThree` | BigInteger/main.cc:300 | (-2) * (-3) prints as -6 |
| `DigitLoops.RowAdds` | BigInteger/main.cc:295-297 | adding the rows one by one keeps the sum equal to the number times the leading digits of the factor |
| `DigitLoops.ProductShape` | BigInteger/main.cc:300 | sign and length of a product |
| `DigitLoops.OneIsSeparated` | BigInteger/main.cc:305-310 | subtracting one from any larger number is always separated |
| `DigitLoops.EqualsIffSameValue` | BigInteger/main.cc:167-169 | `==` on canonical numbers is equality of values |
| `BigIntegers.Fact` | BigInteger/main.cc:305-311 | for every positive n whose factorial has at most NR_DIGITS digits, `fact` ends with the canonical n! |
| `BigIntegers.BigInteger.FromInt` | BigInteger/main.cc:86-102 | every int but the smallest gets its exact signed value in canonical form |
| `BigIntegers.BigInteger.FromString` | BigInteger/main.cc:59-84 | accepts exactly the base-10 digit strings of at most NR_DIGITS characters, which error otherwise |
| `BigIntegers.BigInteger.Print` | BigInteger/main.cc:139-146 | prints a canonical number as the decimal numeral of its value; of any other as many of its last digits as its length says, none for a damaged negative length |
| `NumberText.CanonicalPrintsDecimal` | BigInteger/main.cc:139-146 | a minus sign exactly for negative values, then the numeral of the magnitude |
| `NumberText.PrintedDigits` | BigInteger/main.cc:139-146 | for well-formed numbers the text behind the sign has as many digits as the length says, and they stand for the magnitude |
| `NumberText.PrintAfterParse` | BigInteger/main.cc:59-84 | constructing from a digit string and printing reproduces the string |
| `NumberText.ParseAfterPrint` | BigInteger/main.cc:139-146 | the printed text is accepted again exactly when the number is not negative, and gives back cells and length |
| `NumberText.ParsedMeansNumeral` | BigInteger/main.cc:70-79 | a stored digit string stands for the number it denotes when read from the left |
| `StackMemory.ReadBack` | java/JNIExperiments/bpad/minidump_src/minidump.cc:1273-1303 | a word written to the region is read back |
| `StackMemory.ReadableIff` | java/JNIExperiments/bpad/minidump_src/minidump.cc:1273-1303 | a word is readable exactly if all of it is in the region, short of the very end of the address space |
| `StackMemory.WordIsLittleEndian` | java/JNIExperiments/bpad/minidump_src/minidump.cc:1273-1303 | byte k of a word read counts 256 to the k |
| `StackMemory.SavedPair` | java/JNIExperiments/bpad/minidump_src/stackwalker_amd64.cc:179-193 | what a call pushes (return address, saved frame pointer) stays readable below any number of deeper calls |
| `Stackwalkers.InsertSpecialAttentionModule` | java/JNIExperiments/bpad/minidump_src/stackwalker.cc:79-103 | appends the module unless there is none or it is listed |
| `Stackwalkers.Stackwalker.Walk` | java/JNIExperiments/bpad/minidump_src/stackwalker.cc:105-187 | the stack ends as a chain in which every frame is the successor of those before it with the module the symbolizer found, ended by the frame limit, the last frame or an interrupt; both module lists follow, also if they are one list |
| `StackwalkerRuns.WalkIsExact` | java/JNIExperiments/bpad/minidump_src/stackwalker.cc:128-186 | a walk starts at the context, gives every frame the symbolizer's module, goes on to the caller, with a scan while guessed frames are below their limit, and ends only at an interrupt, at the frame limit, or where there is no such caller |
| `StackwalkerRuns.WalkBounds` | java/JNIExperiments/bpad/minidump_src/stackwalker.cc:125-186 | in every walk at most max_frames_ + 1 frames, at most max_frames_scanned_ guessed ones; no caller at address 0; stack pointers never go down, on x86 always up |
| `StackwalkerRuns.X86WalkEndsByItself` | java/JNIExperiments/bpad/minidump_src/stackwalker_x86.cc:618-669 | the strictly growing 32-bit stack pointer bounds every x86 walk, whatever the frame limit |
| `StackwalkerRuns.FlaggedModules` | java/JNIExperiments/bpad/minidump_src/stackwalker.cc:139-157 | each list keeps what it had, gains exactly the modules that the symbolizer named with its verdict or verdicts, and nothing twice |
| `StackwalkerRuns.GuessesAreLastResort` | java/JNIExperiments/bpad/minidump_src/stackwalker_amd64.cc:294-312 | in every walk CFI is used exactly where it is at hand, and a frame is guessed exactly where there is no caller without a scan, and only below the scan limit |
| `StackwalkerRuns.WalkStaysInSandbox` | java/JNIExperiments/bpad/minidump_src/stackwalker_amd64.cc:314-322 | in the NaCl sandbox every caller frame of a walk has 32-bit registers, and none is at address 0 |
| `StackwalkerRuns.ScanAgreesWithFramePointer` | java/JNIExperiments/bpad/minidump_src/stackwalker_amd64.cc:233-281 | a scan that hits the return address above the saved frame pointer finds the frame that frame-pointer recovery finds |
| `StackwalkerRuns.GuessedFramePointers` | java/JNIExperiments/bpad/minidump_src/stackwalker_amd64.cc:258-278 | in every walk outside the sandbox a guessed frame's valid frame pointer lies above the return address found (amd64); %ebp is kept, or was restored from just below by at most 128 KB (x86) |
| `StackwalkerRuns.StepUndoesCall` | java/JNIExperiments/bpad/minidump_src/stackwalker_amd64.cc:173-231 | one recovery step undoes one call, wherever the callee's stack pointer is inside its frame: return address, stack pointer and frame pointer of the caller; on both processors |
| `StackwalkerRuns.X86FollowsSavedPair` | java/JNIExperiments/bpad/minidump_src/stackwalker_x86.cc:562-616 | the %ebp step on a readable saved pair |
| `StackwalkerRuns.WalkUndoesCalls` | java/JNIExperiments/bpad/minidump_src/stackwalker.cc:128-186 | a walk over the stack of any run of nested calls yields the callers innermost first, with scanning allowed or not, up to the frame limit |
| `StackwalkerRuns.WalkWithoutScanIsExact` | java/JNIExperiments/bpad/minidump_src/stackwalker_amd64.cc:211-216 | without scanning: if the outermost saved frame pointer lies below its frame (amd64), exactly all calls but the outermost; else all calls, and below the frame limit nothing more if and only if the bottom frame fails one of the walker's tests on the stack (alignment, readability, return address, stack pointer, saved frame pointer) |
| `StackwalkerRuns.StopsWhereTestsSay` | java/JNIExperiments/bpad/minidump_src/stackwalker_amd64.cc:173-231 | without CFI, sandbox and scan, a frame has no caller exactly if one of these tests fails, and else the caller the saved pair describes; on both processors |
| `StackwalkerRuns.CfiCaller` | java/JNIExperiments/bpad/minidump_src/stackwalker_amd64.cc:294-328 | a frame recovered by CFI has exactly the recovered registers, cut to the address space, unless the return address or the stack pointer rules it out; on both processors |
| `StackwalkerRuns.Amd64ScannedCaller` | java/JNIExperiments/bpad/minidump_src/stackwalker_amd64.cc:233-281 | a scanned frame has the return address found, the stack pointer above it, and a frame pointer exactly if it is plausible |
| `StackwalkerRuns.X86ScannedCaller` | java/JNIExperiments/bpad/minidump_src/stackwalker_x86.cc:568-610 | the same on x86, where the word below the return address becomes %ebp exactly if it lies above its own place by at most 128 KB |
| `StackwalkerRuns.SandboxOnlyTruncates` | java/JNIExperiments/bpad/minidump_src/stackwalker_amd64.cc:314-328 | the NaCl sandbox cuts the three registers to 32 bits, checks the caller again, and changes nothing else |
| `StackwalkerRuns.NoMemoryNoCaller` | java/JNIExperiments/bpad/minidump_src/stackwalker_x86.cc:96-103 | without stack memory there is no caller; x86 refuses memory that reaches beyond 32 bits, and only that |
| `StackwalkerRuns.ZeroFramePointerLosesOutermost` | java/JNIExperiments/bpad/minidump_src/stackwalker_amd64.cc:211-216 | with a frame pointer of 0 in the outermost frame, as the ABI has it, exactly the outermost caller is missed, whatever the stack holds |
| `StackwalkerRuns.CallerIsMissed` | java/JNIExperiments/bpad/minidump_src/stackwalker_amd64.cc:211-216 | a concrete such stack: its only walk has just the context frame |
| `StackwalkerRuns.CanonicalAddress` | java/JNIExperiments/bpad/minidump_src/stackwalker_amd64.cc:167-171 | an address is non-canonical exactly when its upper 17 bits are not all equal |
| `StackwalkerRuns.X86ChainEndsAtZero` | java/JNIExperiments/bpad/minidump_src/stackwalker_x86.cc:644-667 | an x86 stack whose outermost frame returns to address 0 is walked exactly, scanning or not |
| `CfiRules.CFIRuleParser.Report` | java/JNIExperiments/bpad/minidump_src/cfi_frame_info.cc:165-184 | a pending name with an expression is handed to the handler, overriding what it had for that name |
| `CfiRules.CFIRuleParser.Parse` | java/JNIExperiments/bpad/minidump_src/cfi_frame_info.cc:126-163 | reports the rules of the text in order, also those before a mistake, and says whether it accepts |
| `CfiRules.ParseAcceptsExactlyTheGrammar` | java/JNIExperiments/bpad/minidump_src/cfi_frame_info.cc:139-171 | a text is accepted if and only if its tokens are names (at least one character and a colon), each followed by at least one expression token; exactly those entries are reported, in order |
| `CfiRules.ReportsLongestPrefix` | java/JNIExperiments/bpad/minidump_src/cfi_frame_info.cc:139-163 | accepted or not, a text reports exactly the longest list of entries it can be read as up to its end or up to a further name |
| `CfiRules.TokensMean` | java/JNIExperiments/bpad/minidump_src/cfi_frame_info.cc:135-137 | blanks, tabs and line ends separate tokens and are part of none; any other text is a token |
| `CfiRules.ExpressionIsJoined` | java/JNIExperiments/bpad/minidump_src/cfi_frame_info.cc:154-159 | an expression is its tokens with single blanks in between |
| `CfiRules.CFIFrameInfo.Serialize` | java/JNIExperiments/bpad/minidump_src/cfi_frame_info.cc:104-124 | writes every rule once, separated by blanks |
| `CfiRules.SerializedText` | java/JNIExperiments/bpad/minidump_src/cfi_frame_info.cc:104-124 | for every rule set: .cfa, .ra, then the registers in order, each as name, colon, blank and expression, with single blanks in between |
| `CfiSerialization.ParseRestoresSerialized` | java/JNIExperiments/bpad/minidump_src/cfi_frame_info.cc:104-171 | parsing the serialized text restores the rule set if and only if it is not empty, names are non-empty, without breaks or NULs and not .cfa or .ra, and expressions are single-blank-joined tokens not ending in a colon; for every iteration order of the registers |
| `CfiSerialization.ParsedRulesAreGood` | java/JNIExperiments/bpad/minidump_src/cfi_frame_info.cc:139-163 | whatever an accepted text reports has such names and expressions |
| `CfiLookup.Module.FindCFIFrameInfo` | java/JNIExperiments/bpad/minidump_src/basic_source_line_resolver.cc:280-312 | an answer if and only if some INIT record covers the address and its text is a list of names with expressions; then the INIT rules with every delta from the record's start to the address applied in order |
| `CfiLookup.AnsweredIff` | java/JNIExperiments/bpad/minidump_src/basic_source_line_resolver.cc:286-299 | the same of the specified answer, for disjoint INIT records |
| `CfiLookup.LatestDeltaWins` | java/JNIExperiments/bpad/minidump_src/basic_source_line_resolver.cc:301-309 | the rule of a register is the last one in the delta record that names it with the highest address in [initial base, address] |
| `CfiLookup.InitRuleElse` | java/JNIExperiments/bpad/minidump_src/basic_source_line_resolver.cc:295-299 | if no delta record in that range names it, it is the last one in the INIT record, and there is none if that does not name it |
| `CfiLookup.SameRulesBetweenDeltas` | java/JNIExperiments/bpad/minidump_src/basic_source_line_resolver.cc:301-309 | two addresses of one INIT record with no delta in between get the same rules |
| `CfiLookup.WindowMember` | java/JNIExperiments/bpad/minidump_src/basic_source_line_resolver.cc:301-306 | the deltas applied are exactly those in the closed address range |
| `CfiLookup.CoveringIsUnique` | java/JNIExperiments/bpad/minidump_src/basic_source_line_resolver.cc:286-293 | with disjoint ranges the record found is the one that covers the address |
| `CfiLookup.Module.ParseCFIFrameInfo` | java/JNIExperiments/bpad/minidump_src/basic_source_line_resolver.cc:431-464 | stores the INIT or delta record of a line, refuses other lines without a change |
| `CfiLookup.Module.StoreDelta` | java/JNIExperiments/bpad/minidump_src/basic_source_line_resolver.cc:461-462 | a later record for an address replaces the earlier one, and only that |
| `CfiLookup.Module.LowerBound` | java/JNIExperiments/bpad/minidump_src/basic_source_line_resolver.cc:301-303 | the first delta at or after an address |
| `CfiRecords.InitReadsBack` | java/JNIExperiments/bpad/minidump_src/basic_source_line_resolver.cc:440-455 | a written INIT record reads back as its base, size and rules |
| `CfiRecords.DeltaReadsBack` | java/JNIExperiments/bpad/minidump_src/basic_source_line_resolver.cc:457-463 | a written delta record reads back as its address and rules |
| `CfiRecords.RecordsAreTheirLines` | java/JNIExperiments/bpad/minidump_src/basic_source_line_resolver.cc:431-464 | a line is read as a record if and only if it has the words of one: INIT, address, size and rules, or an address and rules |
| `CfiRecords.StrTokMeans` | java/JNIExperiments/bpad/minidump_src/basic_source_line_resolver.cc:435-457 | the next token is the longest text without breaks after the leading ones; none is left exactly if there are only breaks |
| `CfiRecords.HexNumberReadsBack` | java/JNIExperiments/bpad/minidump_src/basic_source_line_resolver.cc:452-453 | numbers are read after blanks, a sign and 0x, saturate at 64 bits, and stop at what is no digit |
| `Numerals.DigitsInEitherCase` | java/JNIExperiments/bpad/minidump_src/basic_source_line_resolver.cc:452-453 | hexadecimal digits are read in either case |
| `SymbolCache.SourceLineResolver.LoadModuleUsingMemoryBuffer` | java/JNIExperiments/bpad/minidump_src/source_line_resolver_base.cc:222-256 | loads a module once; corrupt symbols count as loaded |
| `SymbolCache.SourceLineResolver.UnloadModule` | java/JNIExperiments/bpad/minidump_src/source_line_resolver_base.cc:262-284 | forgets a loaded module and that it was corrupt |
| `SymbolCache.StackFrameSymbolizer.FillSourceLineInfo` | java/JNIExperiments/bpad/minidump_src/stack_frame_symbolizer.cc:56-126 | asks the supplier exactly when nothing is known about the module, changes the three sets by exactly its answer, and answers good for a loaded module that is not corrupt, corrupt for a loaded corrupt one, interrupted if the supplier said so, and else an error |
| `SymbolCache.SetsStayConsistent` | java/JNIExperiments/bpad/minidump_src/stack_frame_symbolizer.cc:93-119 | in every run no module both has and lacks symbols, and corrupt ones are loaded |
| `SymbolCache.VerdictIsStable` | java/JNIExperiments/bpad/minidump_src/stack_frame_symbolizer.cc:68-79 | a verdict stays until the module is unloaded; missing symbols are never forgotten |
| `SymbolCache.AnswerDecides` | java/JNIExperiments/bpad/minidump_src/stack_frame_symbolizer.cc:93-126 | a found or not-found answer is remembered from the next call on, with its corruption |
| `SymbolCache.AnswersAreRight` | java/JNIExperiments/bpad/minidump_src/stack_frame_symbolizer.cc:56-126 | in every run each answer is the right one for what is known afterwards |
| `SymbolCache.AskedAgainOnlyIfUndecided` | java/JNIExperiments/bpad/minidump_src/stack_frame_symbolizer.cc:86-126 | the supplier is asked again about a code file only if its earlier answer decided nothing, or what it found was unloaded since |
| `SymbolCache.LaterCallsAgree` | java/JNIExperiments/bpad/minidump_src/stack_frame_symbolizer.cc:67-79 | every later call reports what the deciding call reported and changes nothing, whatever the supplier would say |
| `FileTransfer.ServerProcess.Receive` | c/socket/broadcast_file_tx/server.c:134-239 | the dispatcher and the chunk loop, packet by packet |
| `FileTransfer.ClientProcess.Receive` | c/socket/broadcast_file_tx/client.c:124-177 | what the client does with each reply |
| `FileTransfer.ClientProcess.Send` | c/socket/broadcast_file_tx/client.c:84-139 | what the client asks next |
| `FileTransfer.ReachableKeepsInv` | c/socket/broadcast_file_tx/server.c:155-190 | the invariant of all reachable states, over every interleaving |
| `FileTransfer.ChunkBounds` | c/socket/broadcast_file_tx/server.c:107-112 | the announced chunk count and last length cut the file into full chunks and a rest |
| `FileTransfer.FileInfoMeans` | c/socket/broadcast_file_tx/server.c:80-125 | -1 for a missing file, else how many payloads of 1008 bytes the file takes and, unless it is a multiple, how long the last one is |
| `FileTransfer.ServerServesInOrder` | c/socket/broadcast_file_tx/server.c:134-239 | in any state and whatever arrives, a chunk reply is the next, at most 1008 bytes of the file; only a short one ends it |
| `FileTransfer.ClientWritesItsChunk` | c/socket/broadcast_file_tx/client.c:139-176 | whatever arrives, the client writes nothing but the chunk it waits for, and answers TRANSFER_DONE only to one of the announced length |
| `FileTransfer.ClientGivesUp` | c/socket/broadcast_file_tx/client.c:84-137 | answers to DISCOVER and FILE_INFO decide whether the client goes on, and write nothing |
| `FileTransfer.TransferIsSafe` | c/socket/broadcast_file_tx/client.c:132-176 | in every reachable state and for every file, the bytes written are a prefix of the file that, with the chunk in flight, ends at the server's read offset; at most one datagram is outstanding and TRANSFER_DONE follows only the final chunk, unless every chunk looks like the last |
| `FileTransfer.EveryStepMakesProgress` | c/socket/broadcast_file_tx/client.c:132-176 | every step lowers what remains to be done |
| `FileTransfer.TransferCompletes` | c/socket/broadcast_file_tx/server.c:80-192 | every run is bounded and can only end with the whole file written and nothing in flight; the client's chunk count is negative exactly for a missing file; the server is back in its dispatcher if and only if the file is empty or missing, not a multiple of the payload size, or the unset length happens to equal it |
| `FileTransfer.Transfer` | c/socket/broadcast_file_tx/client.c:124-177 | client and server run together over two queues, under any schedule: it ends, the client has written exactly the file, and the server is back in its dispatcher exactly in those cases |
| `FileTransfer.RunCanBeCompleted` | c/socket/broadcast_file_tx/client.c:132-176 | every run can be continued to such an end |
| `FileTransfer.OnePayloadLeavesServerWaiting` | c/socket/broadcast_file_tx/server.c:107-112 | a file of exactly one payload arrives whole and leaves the server waiting for a TRANSFER_DONE |
| `BinaryHeap.Heap.constructor` | c/heap.c:16-24 | an empty heap of the given kind and capacity, 0 included |
| `BinaryHeap.Heap.Increase` | c/heap.c:32-41 | doubles the capacity and keeps the contents |
| `BinaryHeap.Heap.AdjustUp` | c/heap.c:101-110 | restores the order by moving the last element up, keeping the elements |
| `BinaryHeap.Heap.AdjustDown` | c/heap.c:123-140 | restores the order by moving the root down, keeping the elements |
| `BinaryHeap.SwapUp` | c/heap.c:101-110 | one swap up repairs its place and leaves only the next one open |
| `BinaryHeap.SwapDown` | c/heap.c:127-136 | one swap down repairs its place and leaves only the child's open |
| `BinaryHeap.Heap.Push` | c/heap.c:112-121 | heap order, size at most capacity, and exactly the pushed value added |
| `BinaryHeap.Heap.Pop` | c/heap.c:142-156 | -1 when empty; else a smallest element of a min-heap, a largest of a max-heap, exactly it removed, heap order kept |
| `BinaryHeap.RootIsExtreme` | c/heap.c:142-149 | nothing in a heap belongs above its root |
| `BinaryHeap.HeapOrderIs` | c/heap.c:88-100 | heap order as an inequality between every child and its parent, for both kinds |
| `BinaryHeap.Drain` | c/heap.c:167-168 | prints a sorted list; all elements if and only if none is negative, and nothing at all otherwise |
| `BinaryHeap.PushAllAndDrain` | c/heap.c:158-172 | pushing values and draining prints them sorted, if and only if none is negative |
| `UnicodeConversion.UTF16ToUTF8` | java/JNIExperiments/bpad/minidump_src/minidump.cc:221-291 | the loop computes the conversion read off from the front |
| `UnicodeConversion.ConversionIsRightIffConvertible` | java/JNIExperiments/bpad/minidump_src/minidump.cc:240-287 | the output is well-formed UTF-8 for the code points the UTF-16 input denotes if and only if the input consists of non-surrogates and high surrogates followed by a word in 0xdc00..0xdcff; other well-formed input is rejected |
| `UnicodeConversion.RejectedPair` | java/JNIExperiments/bpad/minidump_src/minidump.cc:254-259 | U+1F600 is well-formed UTF-16 and is rejected |
| `UnicodeConversion.ConvertedIffPasses` | java/JNIExperiments/bpad/minidump_src/minidump.cc:240-259 | any input, well-formed or not, is converted exactly if no word in 0xdc00..0xdcff stands alone and every high surrogate is followed by one |
| `UnicodeConversion.ConvertedInParts` | java/JNIExperiments/bpad/minidump_src/minidump.cc:229-287 | such input is converted on its own, whatever follows |
| `UnicodeConversion.LoneLowHalfPasses` | java/JNIExperiments/bpad/minidump_src/minidump.cc:240-282 | a lone low half above 0xdcff passes, as three bytes that are not UTF-8 |
| `UnicodeConversion.BytesDecode` | java/JNIExperiments/bpad/minidump_src/minidump.cc:269-282 | the bytes for any Unicode scalar value are well-formed and decode to it |
| `UnicodeConversion.ConversionIsInjective` | java/JNIExperiments/bpad/minidump_src/minidump.cc:221-291 | on such input no two strings convert alike |
| `UnicodeConversion.SwappedConversion` | java/JNIExperiments/bpad/minidump_src/minidump.cc:234-253 | swapped input converts as the words it is read as: the second word of a pair is not swapped |
| `UnicodeConversion.SwappedIsRightIff` | java/JNIExperiments/bpad/minidump_src/minidump.cc:234-267 | on swapped input the output is well-formed UTF-8 for the code points that the byte-swapped words denote if and only if the words are swapped non-surrogates, or swapped high surrogates followed by 0xdcdc, the one tested low half that is its own swap |
| `UnicodeConversion.RejectedSwappedPair` | java/JNIExperiments/bpad/minidump_src/minidump.cc:249-259 | U+1F44C, byte-swapped, is rejected |
| `UnicodeConversion.MisreadSwappedPair` | java/JNIExperiments/bpad/minidump_src/minidump.cc:249-267 | U+1F5DC, byte-swapped, is converted to U+1F4DD |
| `UnicodeConversion.SwappedWithoutSurrogates` | java/JNIExperiments/bpad/minidump_src/minidump.cc:234-236 | surrogate-free swapped input converts as its byte-swapped words |
| `UnicodeConversion.SwapExchangesBytes` | java/JNIExperiments/bpad/minidump_src/minidump.cc:122-125 | the two bytes of a word change places |
| `TwoSum.Solution` | rust/leetcode/src/two_sum.rs:35-50 | the first place with a partner and its first partner to the right; empty if and only if there is no pair |
| `TwoSum.SolutionOptnums` | rust/leetcode/src/two_sum.rs:4-33 | the first place with a partner and the first place of its complement; empty if and only if there is no pair |
| `TwoSum.SearchesAgree` | rust/leetcode/src/two_sum.rs:4-50 | both answers are the same if and only if the first place of a pair is not its own complement; else the hash map pairs it with itself |
| `TwoSum.FirstComplement` | rust/leetcode/src/two_sum.rs:25-27 | the first place of the complement is always to the right of the first hit, unless the hit is its own complement |
| `TwoSum.SelfPair` | rust/leetcode/src/two_sum.rs:17-27 | [3, 3] with target 6 makes the answers differ |
| `TwoSum.BuildIndex` | rust/leetcode/src/two_sum.rs:6-12 | maps every value to all its places in order |
| `TwoSum.ComplementIsInvolution` | rust/leetcode/src/two_sum.rs:15 | the wrapping 32-bit complement completes a value to the target, and its complement is the value |
| `FrameRecords.StripSeparator` | java/JNIExperiments/bpad/minidump_src/stackwalk_common.cc:102-113 | the subsequence of characters other than separators and newlines |
| `FrameRecords.PrintStackMachineReadable` | java/JNIExperiments/bpad/minidump_src/stackwalk_common.cc:624-674 | one line per frame, in order |
| `FrameRecords.PrintFrame` | java/JNIExperiments/bpad/minidump_src/stackwalk_common.cc:628-671 | the record of a frame in all four shapes |
| `FrameRecords.RecordHasSevenFields` | java/JNIExperiments/bpad/minidump_src/stackwalk_common.cc:617-671 | every record splits at the separators into exactly its seven fields |
| `FrameRecords.NumbersReadBack` | java/JNIExperiments/bpad/minidump_src/stackwalk_common.cc:628-671 | the number fields are the decimal numerals of thread, frame number and source line, and 0x with the hexadecimal numeral, modulo 2^64, of the return address, less the module base, function base or source line base that the shape calls for |
| `FrameRecords.NamesReadBack` | java/JNIExperiments/bpad/minidump_src/stackwalk_common.cc:628-671 | fields 2 to 4 are the last path component, the function name and the source file name without separators and newlines, cut at the first NUL; empty in the shapes that lack them |
| `FrameRecords.OutputReadsBack` | java/JNIExperiments/bpad/minidump_src/stackwalk_common.cc:624-674 | the whole output splits into one line per frame and each line into the fields of its frame |
| `FrameRecords.FileIsLastComponent` | java/JNIExperiments/bpad/minidump_src/pathname_stripper.cc:41-55 | the file name is what follows the last slash or backslash |
| `Sieve.PreparePrimes` | java/Snippets.java:1-17 | on a fresh table, `isPrimeFast(n)` afterwards holds for exactly the primes of the table if and only if no prime from N on has its square in the table; so whenever N * N reaches the end of the table |
| `Sieve.FastTestIsExactIff` | java/Snippets.java:1-17 | on any table with marks on exactly the proper multiples of 2..N-1, the fast test is exact if and only if no such square is missed |
| `Sieve.ExactFromSquareRoot` | java/Snippets.java:12-17 | so `isPrimeFast` is exact on it whenever N * N reaches the end of the table |
| `Sieve.MissedSquare` | java/Snippets.java:4-9 | the square of an unsieved prime is taken for a prime |

## Left out

- BigIntegers.BigInteger.FromInt: does not model the smallest int, whose negation overflows; the "number too large" throw in its loop cannot be reached, since an int has at most ten digits.
- BigIntegers.BigInteger.Subtract: the sign and length of a result are stated for canonical operands, and for a direct subtraction of any non-negative ones; two operands of length zero, which the comparison reads past the cells for, are excluded.
- BigIntegers.BigInteger.Multiply: the rows are allocated one after the other instead of in one array; the copy of the overlapping memory in `appendZeros` is a move.
- `show`, `getlen`, the comparisons with an int operand and `main` of `BigInteger/main.cc`: they add nothing to the above.
- FileTransfer.TransferIsSafe: one client, lossless FIFO channels; loss, duplication, retries, sleeps, addresses and the buffer bytes beyond a packet's length are not modelled. A chunk's length never exceeds its payload here.
- FileTransfer.ServerProcess.Receive: a step is the work between two blocking receives; descriptor 0 and failing system calls are not modelled.
- Stackwalkers.Stackwalker.Walk: the symbolizer is an oracle of the frame's position and instruction, independent of `SymbolCache`; only the registers ip, sp and bp and the validity of bp are kept; a module is just the address of its object; logging is left out.
- Register recovery from CFI expressions and from STACK WIN records, the word-by-word scan for a return address, and the other processors' walkers: they live in headers that are not part of this model; the x86 walk assumes there is no STACK WIN record.
- CfiRules.CFIFrameInfo.Serialize: the iteration order of the register map is a parameter, so the round trip holds for the map's own order among all others.
- CfiLookup.Module.StoreInit: the range map is reduced to storing disjoint, non-empty ranges; a range that runs past the 64-bit address space is stored like any other.
- SymbolCache.StackFrameSymbolizer.FillSourceLineInfo: filling in the source line and the memory buffers of symbol data are left out; code files are compared as whole strings, not up to their first NUL. The branch for a failed load cannot be reached.
- UnicodeConversion.UTF16ToUTF8: shifts and masks are written as products, quotients and remainders.
- TwoSum.Solution: the subtraction wraps around as in a release build; a debug build stops instead.
- BinaryHeap.Heap.Push: int overflow of the doubled capacity and failing allocations are not modelled; a capacity of 0, which never grows, is excluded.
- Sieve.PreparePrimes: the table length is a parameter; int overflow of the loop counter is not modelled.
- FrameRecords.PrintFrame: the return address is a field of the frame.
- `c++/BigInteger/main.cc` (an older copy), the other parts of `minidump.cc`, the dump contexts, exploitability, and the device, desktop, shell and assembly snippets.
