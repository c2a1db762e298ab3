/** What every walk keeps, and how a walk undoes a run of calls. */
module StackwalkerRuns {
  import opened Wrappers
  import opened FixedWidth
  import opened StackMemory
  import opened Stackwalkers
  import opened SymbolCache

  // ----- Bounds over whole walks -----

  lemma CallerShape(w: Stackwalker, count: nat, last: Frame, scanAllowed: bool)
    requires w.GetCallerFrame(count, last, scanAllowed).Some?
    ensures var f := w.GetCallerFrame(count, last, scanAllowed).value;
            && f.context.ip != 0 && f.instruction == f.context.ip - 1
            && (if w.cpu.Amd64? then last.context.sp <= f.context.sp else last.context.sp < f.context.sp)
            && (w.cpu.X86? && 0 <= last.context.sp ==> f.context.sp < TWO_32)
            && (IsDubious(f) ==> scanAllowed)
  {
    hide Region.Read;
  }

  /** A scan was still allowed when frame i was recovered. */
  predicate ScanAllowed(w: Stackwalker, frames: seq<Frame>, i: nat)
    requires i <= |frames|
  {
    ScannedCount(frames[..i]) < w.maxFramesScanned
  }

  /** A caller frame of a walk comes from the frame before it. */
  lemma Link(w: Stackwalker, frames: seq<Frame>, i: nat)
    requires w.Linked(frames) && 1 <= i < |frames|
    ensures var caller := w.GetCallerFrame(i, frames[i - 1], ScanAllowed(w, frames, i));
            caller.Some? && frames[i] == caller.value.(module_ := frames[i].module_)
  {
    hide Stackwalker.GetCallerFrame, ScannedCount;
    var f := frames[i];
    assert frames[..i][i - 1] == frames[i - 1];
  }

  lemma FirstFrame(w: Stackwalker, frames: seq<Frame>)
    requires w.Linked(frames) && frames != []
    ensures w.initial.Some? && frames[0].context == w.initial.value && frames[0].trust.TrustContext?
  {
    hide Stackwalker.GetCallerFrame, ScannedCount;
    var f := frames[0];
    assert frames[..0] == [];
  }

  lemma LinkedBounds(w: Stackwalker, frames: seq<Frame>, i: nat)
    requires w.Linked(frames) && 1 <= i < |frames|
    ensures var f, last := frames[i], frames[i - 1];
            && f.context.ip != 0 && f.instruction == f.context.ip - 1
            && (if w.cpu.Amd64? then last.context.sp <= f.context.sp else last.context.sp < f.context.sp)
            && (w.cpu.X86? && 0 <= last.context.sp ==> f.context.sp < TWO_32)
            && (IsDubious(f) ==> ScanAllowed(w, frames, i))
  {
    hide Stackwalker.GetCallerFrame, ScanAllowed;
    Link(w, frames, i);
    hide Stackwalker.Linked;
    CallerShape(w, i, frames[i - 1], ScanAllowed(w, frames, i));
  }

  lemma {:induction false} ScansStayBelowLimit(w: Stackwalker, frames: seq<Frame>, n: nat)
    requires w.Linked(frames) && n <= |frames|
    ensures ScannedCount(frames[..n]) <= w.maxFramesScanned
    decreases n
  {
    hide Stackwalker.Linked;
    if n > 0 {
      ScansStayBelowLimit(w, frames, n - 1);
      assert frames[..n][..n - 1] == frames[..n - 1];
      if n == 1 {
        FirstFrame(w, frames);
      } else {
        LinkedBounds(w, frames, n - 1);
      }
    }
  }

  /** The stack pointer has grown enough between two frames. */
  predicate Grown(cpu: Cpu, from: int, to: int, frames: nat) {
    if cpu.Amd64? then from <= to else from + frames <= to
  }

  /**
   * In every walk: at most maxFrames + 1 frames, at most maxFramesScanned of them
   * guessed; no caller has instruction pointer 0; and the stack pointer never
   * moves down, on x86 always up.
   */
  lemma WalkBounds(w: Stackwalker, frames: seq<Frame>, completed: bool)
    requires w.Walked(frames, completed)
    ensures |frames| <= w.maxFrames + 1
    ensures ScannedCount(frames) <= w.maxFramesScanned
    ensures forall i :: 1 <= i < |frames| ==> frames[i].context.ip != 0 && frames[i].instruction == frames[i].context.ip - 1
    ensures forall i, j :: 0 <= i < j < |frames| ==>
      if w.cpu.Amd64? then frames[i].context.sp <= frames[j].context.sp
      else frames[i].context.sp + (j - i) <= frames[j].context.sp
  {
    hide Stackwalker.Linked, ScannedCount, ScanAllowed, Stackwalker.Next;
    ScansStayBelowLimit(w, frames, |frames|);
    assert frames[..|frames|] == frames;
    forall i | 1 <= i < |frames|
      ensures frames[i].context.ip != 0 && frames[i].instruction == frames[i].context.ip - 1
    {
      LinkedBounds(w, frames, i);
    }
    forall i, j | 0 <= i < j < |frames|
      ensures Grown(w.cpu, frames[i].context.sp, frames[j].context.sp, j - i)
    {
      StackPointersGrow(w, frames, i, j);
    }
  }

  lemma {:induction false} StackPointersGrow(w: Stackwalker, frames: seq<Frame>, i: nat, j: nat)
    requires w.Linked(frames) && i <= j < |frames|
    ensures Grown(w.cpu, frames[i].context.sp, frames[j].context.sp, j - i)
    decreases j - i
  {
    hide Stackwalker.Linked, ScanAllowed;
    if i < j {
      StackPointersGrow(w, frames, i, j - 1);
      LinkedBounds(w, frames, j);
    }
  }

  /** On x86 the strictly growing 32-bit stack pointer bounds every walk, whatever the frame limit. */
  lemma X86WalkEndsByItself(w: Stackwalker, frames: seq<Frame>, completed: bool)
    requires w.cpu.X86? && w.Walked(frames, completed) && |frames| >= 1
    requires 0 <= frames[0].context.sp < TWO_32
    ensures |frames| <= TWO_32 - frames[0].context.sp
  {
    hide Stackwalker.Linked, ScanAllowed, Stackwalker.Next;
    var n := |frames| - 1;
    StackPointersGrow(w, frames, 0, n);
    if n > 0 {
      StackPointersGrow(w, frames, 0, n - 1);
      LinkedBounds(w, frames, n);
    }
  }

  // ----- Single steps -----

  predicate HasCfi(w: Stackwalker, count: nat, last: Frame) {
    w.cfi(count, last).Some? && (w.cpu.X86? ==> w.cfi(count, last).value.1)
  }

  /** CFI comes first, then the frame pointer, and a scan only if it is allowed and both failed. */
  lemma RecoveryOrder(w: Stackwalker, count: nat, last: Frame, scanAllowed: bool)
    requires w.GetCallerFrame(count, last, scanAllowed).Some?
    ensures var f := w.GetCallerFrame(count, last, scanAllowed).value;
            && (f.trust.TrustCfi? <==> HasCfi(w, count, last))
            && (f.trust.TrustScan? ==> scanAllowed && w.GetCallerFrame(count, last, false) == None)
            && (f.trust.TrustFp? ==> w.GetCallerFrame(count, last, false) == Some(f))
            && (f.trust.TrustCfi? || f.trust.TrustFp? || f.trust.TrustScan?)
  {
    hide Region.Read;
  }

  /** The address space the registers are cut to. */
  function AddressLimit(w: Stackwalker): nat {
    if w.cpu.X86? || w.isNacl then TWO_32 else TWO_64
  }

  /** The caller is refused: nowhere to return to, or a stack that did not shrink as it should. */
  predicate IsRefused(cpu: Cpu, ip: int, sp: int, calleeSp: int) {
    ip == 0 || (if cpu.Amd64? then sp < calleeSp else sp <= calleeSp)
  }

  lemma LimitTwice(v: int)
    ensures v % TWO_64 % TWO_32 == v % TWO_32
  {
  }

  /** A frame that CFI recovers has exactly the recovered registers, cut to the address space. */
  lemma CfiCaller(w: Stackwalker, count: nat, last: Frame, scanAllowed: bool)
    requires w.Memory().Some? && HasCfi(w, count, last)
    ensures var (r, bpValid) := w.cfi(count, last).value;
            var limit := AddressLimit(w);
            w.GetCallerFrame(count, last, scanAllowed)
              == if IsRefused(w.cpu, r.ip % limit, r.sp % limit, last.context.sp) then None
                 else Some(Frame(Registers(r.ip % limit, r.sp % limit, r.bp % limit), bpValid, TrustCfi, r.ip % limit - 1, None))
  {
    hide Region.Read;
    var (r, bpValid) := w.cfi(count, last).value;
    LimitTwice(r.ip);
    LimitTwice(r.sp);
    LimitTwice(r.bp);
  }

  /** The frame pointer word at the place of the last one leads further up the stack. */
  predicate IsRestoredBp(w: Stackwalker, last: Frame, location: int)
    requires w.Memory().Some?
  {
    && (location % TWO_64 - 8) % TWO_64 == last.context.bp
    && w.Memory().value.Read(last.context.bp % TWO_64, 8).Some?
    && w.Memory().value.Read(last.context.bp % TWO_64, 8).value > location % TWO_64
  }

  /** The frame has the frame pointer that a scan at the location gives, and knows whether it is valid. */
  predicate HasScannedBp(w: Stackwalker, last: Frame, location: int, sp: int, f: Frame)
    requires w.Memory().Some?
  {
    if last.bpValid && IsRestoredBp(w, last, location) then
      f.bpValid && f.context.bp == w.Memory().value.Read(last.context.bp % TWO_64, 8).value
    else
      && f.context.bp == last.context.bp
      && (f.bpValid <==> last.bpValid && (location % TWO_64 - 8) % TWO_64 != last.context.bp && last.context.bp >= sp)
  }

  lemma AboveLocation(location: int)
    ensures (location % TWO_64 + 8) % TWO_64 == (location + 8) % TWO_64
  {
  }

  lemma Amd64ScanFinds(w: Stackwalker, count: nat, last: Frame)
    requires w.Memory().Some?
    ensures var found := w.scan(last.context.sp, count == 1);
            var frame := w.Amd64ByScan(count, last);
            && (frame == None <==> found == None)
            && (found.Some? ==>
                  var (location, value) := found.value;
                  && frame.value.trust.TrustScan? && frame.value.context.ip == value % TWO_64
                  && frame.value.context.sp == (location + 8) % TWO_64
                  && HasScannedBp(w, last, location, (location + 8) % TWO_64, frame.value))
  {
    hide Region.Read, Stackwalker.Memory;
    var found := w.scan(last.context.sp, count == 1);
    if found.Some? {
      AboveLocation(found.value.0);
    }
  }

  /** What an amd64 scan finds: the return address, the stack pointer above it, and the frame pointer if it is plausible. */
  lemma Amd64ScannedCaller(w: Stackwalker, count: nat, last: Frame)
    requires w.cpu.Amd64? && !w.isNacl && w.Memory().Some? && w.cfi(count, last) == None && w.Amd64ByFramePointer(last) == None
    ensures var found := w.scan(last.context.sp, count == 1);
            var caller := w.GetCallerFrame(count, last, true);
            if found == None then caller == None
            else
              var (location, value) := found.value;
              var (ip, sp) := (value % TWO_64, (location + 8) % TWO_64);
              if IsRefused(Amd64, ip, sp, last.context.sp) then caller == None
              else
                && caller.Some? && caller.value.trust.TrustScan? && caller.value.instruction == ip - 1
                && caller.value.context.ip == ip && caller.value.context.sp == sp
                && HasScannedBp(w, last, location, sp, caller.value)
  {
    hide Region.Read, Stackwalker.Amd64ByFramePointer, Stackwalker.Amd64ByScan, Stackwalker.Memory, IsRestoredBp;
    Amd64ScanFinds(w, count, last);
  }

  /** What an x86 scan finds: the return address, the stack pointer above it, and the word below it as %ebp if it is plausible. */
  lemma X86ScannedCaller(w: Stackwalker, count: nat, last: Frame)
    requires w.cpu.X86? && w.Memory().Some? && !HasCfi(w, count, last)
    requires w.Memory().value.Read((last.context.bp + 4) % TWO_32, 4).None? || w.Memory().value.Read(last.context.bp % TWO_32, 4).None?
    ensures w.GetCallerFrame(count, last, false) == None
    ensures var found := w.scan(last.context.sp, count == 1);
            w.GetCallerFrame(count, last, true) ==
              if found == None then None
              else
                var (location, value) := found.value;
                var (ip, sp) := (value % TWO_32, (location + 4) % TWO_32);
                var below := w.Memory().value.Read((location - 4) % TWO_32, 4);
                var kept := below.None? || below.value <= (location - 4) % TWO_32 || below.value > (location - 4) % TWO_32 + 128 * 1024;
                if IsRefused(X86, ip, sp, last.context.sp) then None
                else Some(Frame(Registers(ip, sp, if kept then last.context.bp else below.value), true, TrustScan, ip - 1, None))
  {
    hide Region.Read;
    if w.scan(last.context.sp, count == 1).Some? {
      BelowLocation(w.scan(last.context.sp, count == 1).value.0);
    }
  }

  lemma BelowLocation(location: int)
    ensures ((location + 4) % TWO_32 - 8) % TWO_32 == (location - 4) % TWO_32
  {
  }

  /** The sandbox cuts registers to 32 bits, checks the caller again, and changes nothing else. */
  lemma SandboxOnlyTruncates(w: Stackwalker, count: nat, last: Frame, scanAllowed: bool, plain: Stackwalker)
    requires w.cpu.Amd64? && w.isNacl && plain == w.(isNacl := false)
    ensures var outside := plain.GetCallerFrame(count, last, scanAllowed);
            var inside := w.GetCallerFrame(count, last, scanAllowed);
            if outside == None then inside == None
            else
              var r := outside.value.context;
              var cut := Registers(r.ip % TWO_32, r.sp % TWO_32, r.bp % TWO_32);
              inside == if IsRefused(Amd64, cut.ip, cut.sp, last.context.sp) then None
                        else Some(outside.value.(context := cut, instruction := cut.ip - 1))
  {
    hide Region.Read, Stackwalker.Amd64ByFramePointer, Stackwalker.Amd64ByScan, Stackwalker.Amd64ByCfi;
    SameRecovery(w, plain, count, last);
    RecoveredSp(w, count, last);
    CutIsNotLarger();
  }

  lemma RecoveredSp(w: Stackwalker, count: nat, last: Frame)
    ensures w.Amd64ByCfi(count, last).Some? ==> w.Amd64ByCfi(count, last).value.context.sp >= 0
    ensures w.Memory().Some? && w.Amd64ByFramePointer(last).Some? ==> w.Amd64ByFramePointer(last).value.context.sp >= 0
    ensures w.Memory().Some? && w.Amd64ByScan(count, last).Some? ==> w.Amd64ByScan(count, last).value.context.sp >= 0
  {
    hide Region.Read;
  }

  lemma CutIsNotLarger()
    ensures forall v {:trigger v % TWO_32} :: v >= 0 ==> v % TWO_32 <= v
  {
  }

  lemma SameRecovery(w: Stackwalker, plain: Stackwalker, count: nat, last: Frame)
    requires plain == w.(isNacl := false)
    ensures w.Memory() == plain.Memory()
    ensures w.Amd64ByCfi(count, last) == plain.Amd64ByCfi(count, last)
    ensures w.Memory().Some? ==> w.Amd64ByFramePointer(last) == plain.Amd64ByFramePointer(last)
    ensures w.Memory().Some? ==> w.Amd64ByScan(count, last) == plain.Amd64ByScan(count, last)
  {
    hide Region.Read;
  }

  /** Without readable stack memory there is no caller; on x86 memory beyond 32 bits is refused. */
  lemma NoMemoryNoCaller(w: Stackwalker, count: nat, last: Frame, scanAllowed: bool)
    ensures w.Memory().None? ==> w.GetCallerFrame(count, last, scanAllowed) == None
    ensures w.stack.None? ==> w.Memory() == None
    ensures w.stack.Some? && w.stack.value.bytes != [] && w.stack.value.base + |w.stack.value.bytes| <= TWO_64 ==>
      w.Memory() == if w.cpu.X86? && w.stack.value.base + |w.stack.value.bytes| > TWO_32 then None else w.stack
  {
    hide Region.Read;
  }

  /** In the sandbox only the low 32 bits of the recovered registers count. */
  lemma SandboxRegisters(w: Stackwalker, count: nat, last: Frame, scanAllowed: bool)
    requires w.cpu.Amd64? && w.isNacl && w.GetCallerFrame(count, last, scanAllowed).Some?
    ensures var r := w.GetCallerFrame(count, last, scanAllowed).value.context;
            Is32Bit(r)
  {
    hide Region.Read;
  }

  /** A frame pointer that may be used on: on amd64 above the return address found, on x86 kept or plausibly restored. */
  predicate PlausibleAfterScan(cpu: Cpu, last: Frame, f: Frame) {
    if cpu.Amd64? then f.bpValid ==> last.bpValid && f.context.bp > f.context.sp - 8
    else
      var saved := (f.context.sp - 8) % TWO_32;
      f.context.bp == last.context.bp || saved < f.context.bp <= saved + MAX_REASONABLE_GAP_BETWEEN_FRAMES
  }

  lemma ScannedRegisters(w: Stackwalker, count: nat, last: Frame, scanAllowed: bool)
    requires !w.isNacl && w.GetCallerFrame(count, last, scanAllowed).Some?
    ensures var f := w.GetCallerFrame(count, last, scanAllowed).value;
            f.trust.TrustScan? ==> PlausibleAfterScan(w.cpu, last, f)
  {
    hide Region.Read;
  }

  /** A frame was guessed exactly if there is no caller without a scan. */
  lemma GuessedIffNoOther(w: Stackwalker, count: nat, last: Frame, scanAllowed: bool)
    requires w.GetCallerFrame(count, last, scanAllowed).Some?
    ensures var f := w.GetCallerFrame(count, last, scanAllowed).value;
            && (f.trust.TrustCfi? <==> HasCfi(w, count, last))
            && (IsDubious(f) <==> w.GetCallerFrame(count, last, false) == None)
            && (IsDubious(f) ==> f.trust.TrustScan? && scanAllowed)
  {
    RecoveryOrder(w, count, last, scanAllowed);
    if HasCfi(w, count, last) {
      hide Region.Read;
      assert w.GetCallerFrame(count, last, false) == w.GetCallerFrame(count, last, scanAllowed);
    }
  }

  /** CFI was used for the frame exactly if it was at hand, and a scan exactly if nothing else gave a caller. */
  predicate IsLastResort(w: Stackwalker, frames: seq<Frame>, i: nat)
    requires 1 <= i < |frames|
  {
    && (frames[i].trust.TrustCfi? <==> HasCfi(w, i, frames[i - 1]))
    && (IsDubious(frames[i]) <==> w.GetCallerFrame(i, frames[i - 1], false) == None)
    && (IsDubious(frames[i]) ==> frames[i].trust.TrustScan? && ScannedCount(frames[..i]) < w.maxFramesScanned)
  }

  lemma GuessIsLastResort(w: Stackwalker, frames: seq<Frame>, i: nat)
    requires w.Linked(frames) && 1 <= i < |frames|
    ensures IsLastResort(w, frames, i)
  {
    hide Stackwalker.GetCallerFrame, HasCfi, ScannedCount;
    Link(w, frames, i);
    hide Stackwalker.Linked;
    GuessedIffNoOther(w, i, frames[i - 1], ScanAllowed(w, frames, i));
  }

  /**
   * In every walk: CFI is used exactly where it is at hand, and a frame is guessed
   * exactly where there is no caller without a scan and the limit allows one.
   */
  lemma GuessesAreLastResort(w: Stackwalker, frames: seq<Frame>, completed: bool)
    requires w.Walked(frames, completed)
    ensures forall i :: 1 <= i < |frames| ==> IsLastResort(w, frames, i)
  {
    hide IsLastResort, Stackwalker.Linked, Stackwalker.Next;
    forall i | 1 <= i < |frames| ensures IsLastResort(w, frames, i) {
      GuessIsLastResort(w, frames, i);
    }
  }

  predicate Is32Bit(r: Registers) {
    0 < r.ip < TWO_32 && 0 <= r.sp < TWO_32 && 0 <= r.bp < TWO_32
  }

  /** In the sandbox every caller frame of a walk has 32-bit registers and stays off address 0. */
  lemma WalkStaysInSandbox(w: Stackwalker, frames: seq<Frame>, completed: bool)
    requires w.cpu.Amd64? && w.isNacl && w.Walked(frames, completed)
    ensures forall i :: 1 <= i < |frames| ==> Is32Bit(frames[i].context)
  {
    hide Stackwalker.GetCallerFrame, Stackwalker.Linked, Stackwalker.Next, ScanAllowed, Is32Bit;
    forall i | 1 <= i < |frames| ensures Is32Bit(frames[i].context) {
      Link(w, frames, i);
      SandboxRegisters(w, i, frames[i - 1], ScanAllowed(w, frames, i));
    }
  }

  lemma GuessedFramePointer(w: Stackwalker, frames: seq<Frame>, i: nat)
    requires !w.isNacl && w.Linked(frames) && 1 <= i < |frames| && frames[i].trust.TrustScan?
    ensures PlausibleAfterScan(w.cpu, frames[i - 1], frames[i])
  {
    hide Stackwalker.GetCallerFrame, ScanAllowed, Stackwalker.Linked;
    Link(w, frames, i);
    ScannedRegisters(w, i, frames[i - 1], ScanAllowed(w, frames, i));
  }

  /** Outside the sandbox the frame pointer of every guessed frame of a walk is plausible. */
  lemma GuessedFramePointers(w: Stackwalker, frames: seq<Frame>, completed: bool)
    requires !w.isNacl && w.Walked(frames, completed)
    ensures forall i :: 1 <= i < |frames| && frames[i].trust.TrustScan? ==>
      PlausibleAfterScan(w.cpu, frames[i - 1], frames[i])
  {
    hide Stackwalker.Linked, Stackwalker.Next, PlausibleAfterScan;
    forall i | 1 <= i < |frames| && frames[i].trust.TrustScan?
      ensures PlausibleAfterScan(w.cpu, frames[i - 1], frames[i])
    {
      GuessedFramePointer(w, frames, i);
    }
  }

  /** A scan that hits the return address above the saved frame pointer finds what the frame pointer gives. */
  lemma ScanAgreesWithFramePointer(w: Stackwalker, count: nat, last: Frame, ip: int, bp: int)
    requires w.cpu.Amd64? && w.Memory().Some? && last.bpValid
    requires 0 <= last.context.bp && last.context.bp + 16 < TWO_64 && 0 <= ip < TWO_64
    requires w.Memory().value.Read(last.context.bp + 8, 8) == Some(ip)
    requires w.Memory().value.Read(last.context.bp, 8) == Some(bp)
    requires w.scan(last.context.sp, count == 1) == Some((last.context.bp + 8, ip))
    requires w.Amd64ByFramePointer(last).Some? && bp > last.context.bp + 8
    ensures w.Amd64ByScan(count, last) == Some(w.Amd64ByFramePointer(last).value.(trust := TrustScan))
  {
    hide Region.Read;
  }

  // ----- The special attention lists -----

  ghost predicate Distinct(s: seq<ModuleRef>) {
    forall i, j :: 0 <= i < j < |s| ==> s[i] != s[j]
  }

  /** Every frame has the module that the symbolizer found for it, and none was interrupted. */
  lemma SymbolizedFrame(w: Stackwalker, frames: seq<Frame>, i: nat)
    requires w.Linked(frames) && i < |frames|
    ensures frames[i].module_ == w.symbolizer(i, frames[i].instruction).1
    ensures !w.symbolizer(i, frames[i].instruction).0.Interrupt?
  {
    hide Stackwalker.Next;
    var f := frames[i];
  }

  lemma LinkedPrefix(w: Stackwalker, frames: seq<Frame>, n: nat)
    requires w.Linked(frames) && n <= |frames|
    ensures w.Linked(frames[..n])
  {
    hide Stackwalker.Next, Stackwalker.Symbolized;
    forall i | 0 <= i < n
      ensures var before := frames[..n][..i];
              w.Next(before).Some? && w.Symbolized(i, w.Next(before).value) == Some(frames[..n][i])
    {
      var f := frames[i];
      assert frames[..n][..i] == frames[..i];
    }
  }

  /** Some frame got the module from the symbolizer along with one of the verdicts. */
  ghost predicate IsFlagged(w: Stackwalker, frames: seq<Frame>, verdicts: set<SymbolizerResult>, m: ModuleRef) {
    exists i :: 0 <= i < |frames|
      && w.symbolizer(i, frames[i].instruction).0 in verdicts && w.symbolizer(i, frames[i].instruction).1 == Some(m)
  }

  /**
   * After every walk the list keeps what it had, gains exactly the modules that the
   * symbolizer gave one of the verdicts, and nothing twice.
   */
  lemma {:induction false} FlaggedModules(w: Stackwalker, frames: seq<Frame>, verdicts: set<SymbolizerResult>, before: seq<ModuleRef>)
    requires w.Linked(frames)
    ensures before <= w.Flagged(frames, verdicts, before)
    ensures Distinct(before) ==> Distinct(w.Flagged(frames, verdicts, before))
    ensures forall m :: m in w.Flagged(frames, verdicts, before) <==> m in before || IsFlagged(w, frames, verdicts, m)
    decreases |frames|
  {
    hide Stackwalker.Linked;
    if frames != [] {
      var n := |frames| - 1;
      LinkedPrefix(w, frames, n);
      SymbolizedFrame(w, frames, n);
      FlaggedModules(w, frames[..n], verdicts, before);
      forall m: ModuleRef
        ensures IsFlagged(w, frames, verdicts, m) <==>
          || IsFlagged(w, frames[..n], verdicts, m)
          || (w.symbolizer(n, frames[n].instruction).0 in verdicts && w.symbolizer(n, frames[n].instruction).1 == Some(m))
      {
        FlaggedAtLast(w, frames, verdicts, m);
      }
    }
  }

  lemma FlaggedAtLast(w: Stackwalker, frames: seq<Frame>, verdicts: set<SymbolizerResult>, m: ModuleRef)
    requires frames != []
    ensures var n := |frames| - 1;
            IsFlagged(w, frames, verdicts, m) <==>
              || IsFlagged(w, frames[..n], verdicts, m)
              || (w.symbolizer(n, frames[n].instruction).0 in verdicts && w.symbolizer(n, frames[n].instruction).1 == Some(m))
  {
    var n := |frames| - 1;
    assert forall i :: 0 <= i < n ==> frames[..n][i] == frames[i];
  }

  // ----- How far a walk goes -----

  /** The guessed frames among the first n. */
  ghost function Guessed(frames: seq<Frame>, n: nat): set<nat>
    requires n <= |frames|
  {
    set k: nat | k < n && frames[k].trust.TrustScan?
  }

  /** The frames counted as dubious are the guessed ones. */
  lemma {:induction false} GuessesAreCounted(w: Stackwalker, frames: seq<Frame>, n: nat)
    requires w.Linked(frames) && n <= |frames|
    ensures ScannedCount(frames[..n]) == |Guessed(frames, n)|
    decreases n
  {
    hide Stackwalker.Linked;
    if n > 0 {
      GuessesAreCounted(w, frames, n - 1);
      assert frames[..n][..n - 1] == frames[..n - 1];
      if n == 1 {
        FirstFrame(w, frames);
      } else {
        GuessIsLastResort(w, frames, n - 1);
      }
      OneMoreGuess(frames, n);
    }
  }

  lemma OneMoreGuess(frames: seq<Frame>, n: nat)
    requires 1 <= n <= |frames|
    ensures |Guessed(frames, n)| == |Guessed(frames, n - 1)| + (if frames[n - 1].trust.TrustScan? then 1 else 0)
  {
    var before, after := Guessed(frames, n - 1), Guessed(frames, n);
    assert forall k :: k in after <==> k in before || (k == n - 1 && frames[n - 1].trust.TrustScan?);
    assert n - 1 !in before;
    if frames[n - 1].trust.TrustScan? {
      assert after == before + {n - 1};
    } else {
      assert after == before;
    }
  }

  /** The frame that follows n frames of a walk: the context, or the caller, with a scan if some are left. */
  ghost function Successor(w: Stackwalker, frames: seq<Frame>, n: nat): Option<Frame>
    requires n <= |frames|
  {
    if n == 0 then
      if w.initial.None? then None else Some(Frame(w.initial.value, true, TrustContext, w.initial.value.ip, None))
    else w.GetCallerFrame(n, frames[n - 1], |Guessed(frames, n)| < w.maxFramesScanned)
  }

  lemma NextIsSuccessor(w: Stackwalker, frames: seq<Frame>, n: nat)
    requires w.Linked(frames) && n <= |frames|
    ensures w.Next(frames[..n]) == Successor(w, frames, n)
  {
    hide Stackwalker.Linked, Stackwalker.GetCallerFrame, ScannedCount;
    GuessesAreCounted(w, frames, n);
    if n > 0 {
      assert frames[..n][n - 1] == frames[n - 1];
    }
  }

  /**
   * A walk starts at the context, goes from each frame to its successor, gives it the
   * symbolizer's module, and ends only at an interrupt, at the frame limit, or where
   * there is no successor although scans that are left were allowed.
   */
  lemma WalkIsExact(w: Stackwalker, frames: seq<Frame>, completed: bool)
    requires w.Walked(frames, completed)
    ensures |Guessed(frames, |frames|)| <= w.maxFramesScanned
    ensures forall i :: 0 <= i < |frames| ==>
      && Successor(w, frames, i).Some?
      && frames[i] == Successor(w, frames, i).value.(module_ := w.symbolizer(i, frames[i].instruction).1)
      && !w.symbolizer(i, frames[i].instruction).0.Interrupt?
    ensures var next := Successor(w, frames, |frames|);
            if completed then |frames| == w.maxFrames + 1 || next == None
            else |frames| <= w.maxFrames && next.Some? && w.symbolizer(|frames|, next.value.instruction).0.Interrupt?
  {
    hide Stackwalker.Linked, Stackwalker.Next, Successor, Guessed;
    assert frames[..|frames|] == frames;
    NextIsSuccessor(w, frames, |frames|);
    GuessesAreCounted(w, frames, |frames|);
    ScansStayBelowLimit(w, frames, |frames|);
    forall i | 0 <= i < |frames|
      ensures && Successor(w, frames, i).Some?
              && frames[i] == Successor(w, frames, i).value.(module_ := w.symbolizer(i, frames[i].instruction).1)
              && !w.symbolizer(i, frames[i].instruction).0.Interrupt?
    {
      NextIsSuccessor(w, frames, i);
      SymbolizedFrame(w, frames, i);
      FrameIsNext(w, frames, i);
    }
  }

  lemma FrameIsNext(w: Stackwalker, frames: seq<Frame>, i: nat)
    requires w.Linked(frames) && i < |frames|
    ensures w.Next(frames[..i]).Some?
    ensures frames[i] == w.Next(frames[..i]).value.(module_ := frames[i].module_)
  {
    hide Stackwalker.Next;
    var f := frames[i];
  }

  // ----- Unwinding a run of calls -----

  function WordSize(cpu: Cpu): nat {
    if cpu.Amd64? then 8 else 4
  }

  /** The outermost frame pointer must not lie below the frame of the outermost call. */
  predicate KeepsOutermost(cpu: Cpu, bottom: Machine) {
    cpu.X86? || bottom.fp >= bottom.sp - 16
  }

  /** The stack pointer has not moved above the caller's; on x86 it has not even reached it. */
  predicate InsideFrame(cpu: Cpu, sp: int, fp: int) {
    if cpu.Amd64? then sp <= fp + 16 else sp < fp + 8
  }

  /**
   * The walker looks at the stack left behind by a run of calls: each returns to
   * some canonical address other than 0, no CFI is at hand, the sandbox is off, and
   * on amd64 every call happened at an aligned stack pointer.  The innermost function
   * may have moved its stack pointer anywhere inside its frame.
   */
  ghost predicate LooksAtRun(w: Stackwalker, states: seq<Machine>, calls: seq<CallSite>) {
    && IsRun(states, calls, WordSize(w.cpu))
    && w.Memory() == Some(states[|calls|].memory)
    && w.initial.Some?
    && w.initial.value.bp == states[|calls|].fp && InsideFrame(w.cpu, w.initial.value.sp, states[|calls|].fp)
    && !w.isNacl
    && (forall count, last :: w.cfi(count, last) == None)
    && (forall k :: 0 <= k < |calls| ==> calls[k].returnAddress != 0)
    && states[0].sp < WordLimit(WordSize(w.cpu))
    && (w.cpu.Amd64? ==>
          && (forall k :: 0 <= k < |calls| ==> states[k].sp % 8 == 0)
          && (forall k :: 0 <= k < |calls| ==> !IsNonCanonical(calls[k].returnAddress)))
  }

  /** The frame the walker should find for the caller that made call k. */
  function CallerFrame(states: seq<Machine>, calls: seq<CallSite>, k: nat): Frame
    requires k < |calls| < |states|
  {
    Frame(Registers(calls[k].returnAddress, states[k].sp, states[k].fp), true, TrustFp, calls[k].returnAddress - 1, None)
  }

  lemma {:induction false} StackPointersOfRun(states: seq<Machine>, calls: seq<CallSite>, word: nat, k: nat)
    requires IsRun(states, calls, word) && k <= |calls|
    ensures states[k].sp <= states[0].sp
    ensures k > 0 ==> states[k].sp <= states[k].fp == states[k - 1].sp - 2 * word
    decreases k
  {
    if k > 0 {
      StackPointersOfRun(states, calls, word, k - 1);
    }
  }

  lemma Amd64FollowsSavedPair(w: Stackwalker, count: nat, last: Frame, scanAllowed: bool, ip: int, bp: int)
    requires w.cpu.Amd64? && w.Memory().Some? && !w.isNacl && w.cfi(count, last) == None
    requires last.context.bp % 8 == 0 && 0 <= last.context.bp && last.context.bp + 16 < TWO_64
    requires w.Memory().value.Read(last.context.bp + 8, 8) == Some(ip)
    requires w.Memory().value.Read(last.context.bp, 8) == Some(bp)
    ensures w.Amd64ByFramePointer(last) ==
      if IsNonCanonical(ip) || IsEndOfStack(ip, last.context.bp + 16, last.context.sp) || bp < last.context.bp then None
      else Some(Frame(Registers(ip, last.context.bp + 16, bp), true, TrustFp, 0, None))
    ensures w.Amd64ByFramePointer(last).Some? ==>
      w.GetCallerFrame(count, last, scanAllowed) == Some(w.Amd64ByFramePointer(last).value.(instruction := ip - 1))
    ensures w.Amd64ByFramePointer(last).None? && !scanAllowed ==> w.GetCallerFrame(count, last, scanAllowed) == None
  {
    hide Region.Read, WordLimit, Decode;
  }

  lemma X86FollowsSavedPair(w: Stackwalker, count: nat, last: Frame, scanAllowed: bool, ip: int, bp: int)
    requires w.cpu.X86? && w.Memory().Some? && w.cfi(count, last) == None
    requires 0 <= last.context.bp && last.context.bp + 8 < TWO_32
    requires w.Memory().value.Read(last.context.bp + 4, 4) == Some(ip)
    requires w.Memory().value.Read(last.context.bp, 4) == Some(bp)
    ensures w.GetCallerFrame(count, last, scanAllowed) ==
      if ip == 0 || last.context.bp + 8 <= last.context.sp then None
      else Some(Frame(Registers(ip, last.context.bp + 8, bp), true, TrustFp, ip - 1, None))
  {
    hide Region.Read, WordLimit, Decode;
  }

  lemma RunLength(states: seq<Machine>, calls: seq<CallSite>, word: nat)
    requires IsRun(states, calls, word)
    ensures |states| == |calls| + 1
  {
  }

  /** An address is canonical when its upper 17 bits are all equal. */
  lemma CanonicalAddress(address: int)
    requires 0 <= address < TWO_64
    ensures IsNonCanonical(address) <==> address / 0x8000_0000_0000 != 0 && address / 0x8000_0000_0000 != 0x1_ffff
  {
  }

  /** One step of the walker undoes one call: return address, stack pointer and frame pointer. */
  lemma StepUndoesCall(w: Stackwalker, states: seq<Machine>, calls: seq<CallSite>, k: nat, count: nat, last: Frame, scanAllowed: bool)
    requires LooksAtRun(w, states, calls) && k < |calls|
    requires InsideFrame(w.cpu, last.context.sp, states[k + 1].fp) && last.context.bp == states[k + 1].fp
    requires k > 0 || KeepsOutermost(w.cpu, states[0])
    ensures w.GetCallerFrame(count, last, scanAllowed) == Some(CallerFrame(states, calls, k))
  {
    WordLimits();
    hide Region.Read, Region.Write, Decode, Encode, WordLimit, IsRun, AfterCall, CanCall, Stackwalker.GetCallerFrame;
    var word := WordSize(w.cpu);
    RunLength(states, calls, word);
    SavedPair(states, calls, word, k, |calls|);
    StackPointersOfRun(states, calls, word, k);
    StackPointersOfRun(states, calls, word, k + 1);
    if w.cpu.Amd64? {
      Amd64FollowsSavedPair(w, count, last, scanAllowed, calls[k].returnAddress, states[k].fp);
    } else {
      X86FollowsSavedPair(w, count, last, scanAllowed, calls[k].returnAddress, states[k].fp);
    }
  }

  /** Without the outermost frame pointer the amd64 walker does not recover the outermost call. */
  lemma OutermostIsLost(w: Stackwalker, states: seq<Machine>, calls: seq<CallSite>, count: nat, last: Frame)
    requires LooksAtRun(w, states, calls) && |calls| > 0
    requires last.context.bp == states[1].fp
    requires !KeepsOutermost(w.cpu, states[0])
    ensures w.GetCallerFrame(count, last, false) == None
  {
    WordLimits();
    hide Region.Read, Region.Write, Decode, Encode, WordLimit, IsRun, AfterCall, CanCall, Stackwalker.GetCallerFrame;
    RunLength(states, calls, 8);
    SavedPair(states, calls, 8, 0, |calls|);
    StackPointersOfRun(states, calls, 8, 1);
    Amd64FollowsSavedPair(w, count, last, false, calls[0].returnAddress, states[0].fp);
  }

  /** How many of the calls the walker can recover. */
  function Recoverable(cpu: Cpu, bottom: Machine, calls: seq<CallSite>): nat {
    if calls == [] || KeepsOutermost(cpu, bottom) then |calls| else |calls| - 1
  }

  lemma {:induction false} FramesUndoCalls(w: Stackwalker, states: seq<Machine>, calls: seq<CallSite>, frames: seq<Frame>, i: nat)
    requires LooksAtRun(w, states, calls) && w.Linked(frames) && i < |frames|
    requires i <= Recoverable(w.cpu, states[0], calls)
    ensures var n := |calls|;
            if i == 0 then frames[0].context == w.initial.value && frames[0].trust.TrustContext?
            else frames[i] == CallerFrame(states, calls, n - i).(module_ := frames[i].module_)
    decreases i
  {
    hide Stackwalker.Linked, Stackwalker.GetCallerFrame, ScanAllowed, LooksAtRun, IsRun, InsideFrame, KeepsOutermost;
    if i == 0 {
      FirstFrame(w, frames);
    } else {
      var k := |calls| - i;
      FramesUndoCalls(w, states, calls, frames, i - 1);
      Link(w, frames, i);
      CalleeFrame(w, states, calls, k);
      StepUndoesCall(w, states, calls, k, i, frames[i - 1], ScanAllowed(w, frames, i));
    }
  }

  /** The callee's registers, as the walk or its start gives them, are inside the frame of call k. */
  lemma CalleeFrame(w: Stackwalker, states: seq<Machine>, calls: seq<CallSite>, k: nat)
    requires LooksAtRun(w, states, calls) && k < |calls|
    ensures |states| == |calls| + 1
    ensures k + 1 == |calls| ==>
      w.initial.Some? && w.initial.value.bp == states[k + 1].fp && InsideFrame(w.cpu, w.initial.value.sp, states[k + 1].fp)
    ensures k + 1 < |calls| ==> InsideFrame(w.cpu, states[k + 1].sp, states[k + 1].fp)
  {
    RunLength(states, calls, WordSize(w.cpu));
    StackPointersOfRun(states, calls, WordSize(w.cpu), k + 1);
    hide IsRun;
  }

  /**
   * A completed walk over the stack of a run of calls finds the return addresses,
   * stack pointers and frame pointers of the callers, innermost first, up to the
   * frame limit; with scanning allowed or not.
   */
  lemma WalkUndoesCalls(w: Stackwalker, states: seq<Machine>, calls: seq<CallSite>, frames: seq<Frame>)
    requires LooksAtRun(w, states, calls) && w.Walked(frames, true)
    ensures var found := Recoverable(w.cpu, states[0], calls);
            && |frames| >= (if found <= w.maxFrames then found + 1 else w.maxFrames + 1)
            && forall i :: 1 <= i < |frames| && i <= found ==>
                 frames[i] == CallerFrame(states, calls, |calls| - i).(module_ := frames[i].module_)
  {
    hide Stackwalker.GetCallerFrame, Stackwalker.Memory;
    var found := Recoverable(w.cpu, states[0], calls);
    var n := |frames|;
    if n <= found && n <= w.maxFrames {
      if n > 0 {
        FramesUndoCalls(w, states, calls, frames, n - 1);
        StackPointersOfRun(states, calls, WordSize(w.cpu), |calls| - n + 1);
        StepUndoesCall(w, states, calls, |calls| - n, n, frames[n - 1], ScannedCount(frames) < w.maxFramesScanned);
      }
      assert false;
    }
    forall i | 1 <= i < |frames| && i <= found
      ensures frames[i] == CallerFrame(states, calls, |calls| - i).(module_ := frames[i].module_)
    {
      FramesUndoCalls(w, states, calls, frames, i);
    }
  }

  /**
   * The tests that end the walk at a frame, on the registers of the frame and the
   * stack: a frame pointer that is misaligned or leads outside the stack, a saved
   * frame pointer or return address that is not plausible, or a stack pointer
   * already past the pair.
   */
  predicate EndsWalk(cpu: Cpu, memory: Region, fp: int, sp: int) {
    if cpu.Amd64? then
      var returnAddress := memory.Read((fp + 8) % TWO_64, 8);
      var saved := memory.Read(fp % TWO_64, 8);
      || fp % 8 != 0
      || returnAddress.None?
      || saved.None?
      || returnAddress.value == 0
      || IsNonCanonical(returnAddress.value)
      || (fp + 16) % TWO_64 < sp
      || saved.value < fp
    else
      var returnAddress := memory.Read((fp + 4) % TWO_32, 4);
      || returnAddress.None?
      || memory.Read(fp % TWO_32, 4).None?
      || returnAddress.value == 0
      || (fp + 8) % TWO_32 <= sp
  }

  /** Without CFI, sandbox and scan, exactly these tests decide whether there is a caller. */
  lemma StopsWhereTestsSay(w: Stackwalker, count: nat, last: Frame)
    requires w.Memory().Some? && !w.isNacl && w.cfi(count, last) == None
    ensures w.GetCallerFrame(count, last, false) == None <==>
      EndsWalk(w.cpu, w.Memory().value, last.context.bp, last.context.sp)
    ensures !EndsWalk(w.cpu, w.Memory().value, last.context.bp, last.context.sp) ==>
      var (word, limit) := if w.cpu.Amd64? then (8, TWO_64) else (4, TWO_32);
      var ip := w.Memory().value.Read((last.context.bp + word) % limit, word).value;
      var bp := w.Memory().value.Read(last.context.bp % limit, word).value;
      w.GetCallerFrame(count, last, false)
        == Some(Frame(Registers(ip, (last.context.bp + 2 * word) % limit, bp), true, TrustFp, ip - 1, None))
  {
    hide Region.Read;
  }

  /** The stack pointer of the frame at the bottom of the run. */
  function BottomSp(w: Stackwalker, states: seq<Machine>, calls: seq<CallSite>): int
    requires states != [] && (calls == [] ==> w.initial.Some?)
  {
    if calls == [] then w.initial.value.sp else states[0].sp
  }

  /** The outermost caller is lost and the walk ends there, unless the frame limit ended it before. */
  lemma LostCallEndsWalk(w: Stackwalker, states: seq<Machine>, calls: seq<CallSite>, frames: seq<Frame>)
    requires LooksAtRun(w, states, calls) && w.Walked(frames, true) && w.maxFramesScanned == 0
    requires calls != [] && !KeepsOutermost(w.cpu, states[0])
    ensures |frames| <= |calls|
  {
    RunLength(states, calls, WordSize(w.cpu));
    hide Stackwalker.GetCallerFrame, Stackwalker.Memory, IsRun, KeepsOutermost;
    var n := |calls|;
    if |frames| > n {
      FramesUndoCalls(w, states, calls, frames, n - 1);
      Link(w, frames, n);
      ScansStayBelowLimit(w, frames, n);
      OutermostIsLost(w, states, calls, n, frames[n - 1]);
    }
  }

  /** Whether a completed walk has a frame after the n-th is decided by that frame. */
  lemma WalkGoesOn(w: Stackwalker, frames: seq<Frame>, n: nat)
    requires w.Walked(frames, true) && w.maxFramesScanned == 0
    requires n < |frames| && n < w.maxFrames
    ensures |frames| == n + 1 <==> w.GetCallerFrame(n + 1, frames[n], false) == None
  {
    hide Stackwalker.GetCallerFrame;
    ScansStayBelowLimit(w, frames, n + 1);
    if |frames| > n + 1 {
      Link(w, frames, n + 1);
    } else {
      assert frames[..n + 1] == frames;
    }
  }

  lemma RunIsLookedAt(w: Stackwalker, states: seq<Machine>, calls: seq<CallSite>)
    requires LooksAtRun(w, states, calls)
    ensures |states| == |calls| + 1 && w.Memory() == Some(states[|calls|].memory)
    ensures w.initial.Some? && w.initial.value.bp == states[|calls|].fp
    ensures !w.isNacl && forall count, last :: w.cfi(count, last) == None
  {
    RunLength(states, calls, WordSize(w.cpu));
    hide IsRun, Stackwalker.Memory, InsideFrame, IsNonCanonical, WordLimit;
  }

  lemma BottomFrame(w: Stackwalker, states: seq<Machine>, calls: seq<CallSite>, frames: seq<Frame>)
    requires LooksAtRun(w, states, calls) && w.Linked(frames) && |frames| > |calls|
    requires calls == [] || KeepsOutermost(w.cpu, states[0])
    ensures |states| == |calls| + 1 && w.Memory() == Some(states[|calls|].memory)
    ensures var bottom := frames[|calls|];
            && bottom.context.bp == states[0].fp && bottom.context.sp == BottomSp(w, states, calls)
            && !w.isNacl && w.cfi(|calls| + 1, bottom) == None
  {
    RunIsLookedAt(w, states, calls);
    assert Recoverable(w.cpu, states[0], calls) == |calls|;
    hide LooksAtRun, Stackwalker.Memory, Stackwalker.Linked, KeepsOutermost, Recoverable;
    if calls == [] {
      FirstFrame(w, frames);
    } else {
      FramesUndoCalls(w, states, calls, frames, |calls|);
    }
  }

  /** With every call found, the walk ends exactly if one of the tests ends it at the bottom. */
  lemma BottomEndsWalk(w: Stackwalker, states: seq<Machine>, calls: seq<CallSite>, frames: seq<Frame>)
    requires LooksAtRun(w, states, calls) && w.Walked(frames, true) && w.maxFramesScanned == 0
    requires calls == [] || KeepsOutermost(w.cpu, states[0])
    requires |calls| < w.maxFrames && |frames| > |calls|
    ensures |states| == |calls| + 1
    ensures |frames| == |calls| + 1 <==>
      EndsWalk(w.cpu, states[|calls|].memory, states[0].fp, BottomSp(w, states, calls))
  {
    BottomFrame(w, states, calls, frames);
    hide LooksAtRun, Stackwalker.GetCallerFrame, Stackwalker.Memory, Stackwalker.Linked, KeepsOutermost, EndsWalk;
    StopsWhereTestsSay(w, |calls| + 1, frames[|calls|]);
    WalkGoesOn(w, frames, |calls|);
  }

  /**
   * With scanning off the walk finds exactly the recoverable calls, up to the frame
   * limit.  If the outermost saved frame pointer lies below the frame it was saved in
   * (amd64), that is all but the outermost; else it is all of them, and then nothing
   * more exactly if one of the walker's tests fails for the bottom frame.
   */
  lemma WalkWithoutScanIsExact(w: Stackwalker, states: seq<Machine>, calls: seq<CallSite>, frames: seq<Frame>)
    requires LooksAtRun(w, states, calls) && w.Walked(frames, true) && w.maxFramesScanned == 0
    ensures calls != [] && !KeepsOutermost(w.cpu, states[0]) ==>
      |frames| == (if |calls| <= w.maxFrames then |calls| else w.maxFrames + 1)
    ensures calls == [] || KeepsOutermost(w.cpu, states[0]) ==>
      if |calls| >= w.maxFrames then |frames| == w.maxFrames + 1
      else
        && |frames| > |calls|
        && (|frames| == |calls| + 1 <==>
              EndsWalk(w.cpu, states[|calls|].memory, states[0].fp, BottomSp(w, states, calls)))
  {
    RunLength(states, calls, WordSize(w.cpu));
    WalkUndoesCalls(w, states, calls, frames);
    if calls != [] && !KeepsOutermost(w.cpu, states[0]) {
      LostCallEndsWalk(w, states, calls, frames);
    } else if |calls| < w.maxFrames {
      BottomEndsWalk(w, states, calls, frames);
    }
  }

  /**
   * A frame pointer of 0 in the outermost frame, as the ABI has it, makes the amd64
   * walk without scanning miss exactly the outermost caller.
   */
  lemma ZeroFramePointerLosesOutermost(w: Stackwalker, states: seq<Machine>, calls: seq<CallSite>, frames: seq<Frame>)
    requires w.cpu.Amd64? && LooksAtRun(w, states, calls) && w.Walked(frames, true)
    requires states[0].fp == 0 && states[0].memory.base > 0
    requires w.maxFramesScanned == 0 && 1 <= |calls| <= w.maxFrames
    ensures |frames| == |calls|
    ensures forall i :: 1 <= i < |frames| ==>
      frames[i] == CallerFrame(states, calls, |calls| - i).(module_ := frames[i].module_)
  {
    RunLength(states, calls, 8);
    assert CanCall(states[0], calls[0], 8);
    assert !KeepsOutermost(w.cpu, states[0]);
    hide LooksAtRun, IsRun, KeepsOutermost;
    WalkWithoutScanIsExact(w, states, calls, frames);
    WalkUndoesCalls(w, states, calls, frames);
  }

  /** One call from an outermost frame with frame pointer 0 into a function without locals. */
  function OutermostState(): Machine {
    Machine(Region(4096, seq(64, _ => 0)), 4144, 0)
  }

  function OutermostCall(): CallSite {
    CallSite(0x40_0000, 0)
  }

  function CallingWalker(): Stackwalker {
    Stackwalker(
      Amd64,
      Some(AfterCall(OutermostState(), OutermostCall(), 8).memory),
      Some(Registers(0x40_1000, 4128, 4128)),
      false, 10, 0,
      (i, instruction) => (NoError, None),
      (count, last) => None,
      (sp, isContext) => None)
  }

  lemma CallingWalkerLooksAtRun()
    ensures LooksAtRun(CallingWalker(), [OutermostState(), AfterCall(OutermostState(), OutermostCall(), 8)], [OutermostCall()])
  {
    WordLimits();
    hide Encode;
  }

  lemma WalkOfOne(w: Stackwalker, frames: seq<Frame>, f: Frame)
    requires w.GetContextFrame().Some? && w.Symbolized(0, w.GetContextFrame().value) == Some(f)
    requires w.maxFramesScanned == 0 && w.GetCallerFrame(1, f, false) == None
    ensures |frames| == 1 ==> (w.Walked(frames, true) <==> frames == [f])
  {
    hide Stackwalker.GetCallerFrame, Stackwalker.GetContextFrame, Stackwalker.Symbolized;
    if |frames| == 1 {
      assert frames[..0] == [] && frames == [frames[0]];
    }
  }

  /** Such a stack exists: the one walk over it has only the context frame and misses the caller. */
  lemma CallerIsMissed(frames: seq<Frame>)
    ensures var states := [OutermostState(), AfterCall(OutermostState(), OutermostCall(), 8)];
            LooksAtRun(CallingWalker(), states, [OutermostCall()])
    ensures CallingWalker().Walked(frames, true) <==>
      frames == [Frame(Registers(0x40_1000, 4128, 4128), true, TrustContext, 0x40_1000, None)]
  {
    var w, states := CallingWalker(), [OutermostState(), AfterCall(OutermostState(), OutermostCall(), 8)];
    var context := Frame(Registers(0x40_1000, 4128, 4128), true, TrustContext, 0x40_1000, None);
    CallingWalkerLooksAtRun();
    hide LooksAtRun, AfterCall, Stackwalker.Walked, Stackwalker.GetCallerFrame;
    OutermostIsLost(w, states, [OutermostCall()], 1, context);
    WalkOfOne(w, frames, context);
    if w.Walked(frames, true) {
      ZeroFramePointerLosesOutermost(w, states, [OutermostCall()], frames);
    }
  }

  /** An x86 stack whose outermost frame returns to address 0 stops the walk there, scanning or not. */
  lemma X86ChainEndsAtZero(w: Stackwalker, states: seq<Machine>, calls: seq<CallSite>, frames: seq<Frame>)
    requires w.cpu.X86? && LooksAtRun(w, states, calls) && w.Walked(frames, true)
    requires states[0].fp + 4 < TWO_32
    requires w.Memory().value.Read(states[0].fp + 4, 4) == Some(0) && w.Memory().value.Read(states[0].fp, 4).Some?
    ensures |frames| == (if |calls| <= w.maxFrames then |calls| + 1 else w.maxFrames + 1)
    ensures forall i :: 1 <= i < |frames| ==>
      frames[i] == CallerFrame(states, calls, |calls| - i).(module_ := frames[i].module_)
  {
    hide Stackwalker.GetCallerFrame, Stackwalker.Memory, Region.Read, WordLimit, IsRun;
    assert |states| == |calls| + 1 by {
      RunLength(states, calls, 4);
    }
    WalkUndoesCalls(w, states, calls, frames);
    if |frames| > |calls| + 1 {
      FramesUndoCalls(w, states, calls, frames, |calls|);
      Link(w, frames, |calls| + 1);
      ZeroStops(w, states[0], |calls| + 1, frames[|calls|], ScanAllowed(w, frames, |calls| + 1));
    }
  }

  lemma ZeroStops(w: Stackwalker, bottom: Machine, count: nat, last: Frame, scanAllowed: bool)
    requires w.cpu.X86? && w.Memory().Some? && w.cfi(count, last) == None
    requires bottom.fp + 4 < TWO_32 && last.context.bp == bottom.fp
    requires w.Memory().value.Read(bottom.fp + 4, 4) == Some(0) && w.Memory().value.Read(bottom.fp, 4).Some?
    ensures w.GetCallerFrame(count, last, scanAllowed) == None
  {
    hide Region.Read, Decode;
  }
}
