/**
 * stackwalker.cc, stackwalker_amd64.cc and stackwalker_x86.cc: the walk from the
 * context frame through its callers, for the two frame-pointer processors.
 */
module Stackwalkers {
  import opened Wrappers
  import opened FixedWidth
  import opened StackMemory
  import opened SymbolCache

  datatype Cpu = Amd64 | X86

  /** A code module, known by the address of its object. */
  type ModuleRef = nat

  datatype Registers = Registers(ip: int, sp: int, bp: int)

  datatype Trust = TrustNone | TrustScan | TrustCfiScan | TrustFp | TrustCfi | TrustContext

  datatype Frame = Frame(
    context: Registers,
    bpValid: bool,
    trust: Trust,
    instruction: int,
    module_: Option<ModuleRef>)

  const MAX_REASONABLE_GAP_BETWEEN_FRAMES: int := 128 * 1024

  class CallStack {
    var frames: seq<Frame>

    constructor ()
      ensures frames == []
    {
      frames := [];
    }
  }

  class ModuleList {
    var modules: seq<ModuleRef>

    constructor ()
      ensures modules == []
    {
      modules := [];
    }
  }

  /** `InsertSpecialAttentionModule`: appends a module that is not listed yet. */
  method InsertSpecialAttentionModule(result: SymbolizerResult, module_: Option<ModuleRef>, list: ModuleList)
    requires module_.Some? ==> result.Error? || result.WarningCorruptSymbols?
    modifies list
    ensures list.modules == Inserted(old(list.modules), module_)
  {
    if module_.None? {
      return;
    }
    var found := false;
    var i := 0;
    while i < |list.modules|
      invariant 0 <= i <= |list.modules|
      invariant !found && module_.value !in list.modules[..i]
    {
      if list.modules[i] == module_.value {
        found := true;
        break;
      }
      i := i + 1;
    }
    if !found {
      list.modules := list.modules + [module_.value];
    }
  }

  function Inserted(modules: seq<ModuleRef>, module_: Option<ModuleRef>): seq<ModuleRef> {
    if module_.None? || module_.value in modules then modules else modules + [module_.value]
  }

  predicate IsEndOfStack(callerIp: int, callerSp: int, calleeSp: int) {
    callerIp == 0 || callerSp < calleeSp
  }

  predicate IsNonCanonical(address: int) {
    0x7FFF_FFFF_FFFF < address < 0xFFFF_8000_0000_0000
  }

  /** Frames that were guessed rather than recovered. */
  predicate IsDubious(f: Frame) {
    f.trust.TrustNone? || f.trust.TrustScan? || f.trust.TrustCfiScan?
  }

  function ScannedCount(frames: seq<Frame>): (n: nat)
    ensures n <= |frames|
  {
    if frames == [] then 0
    else ScannedCount(frames[..|frames| - 1]) + (if IsDubious(frames[|frames| - 1]) then 1 else 0)
  }

  /**
   * What a walk works on.  The symbolizer, the CFI register recovery and the scan
   * for a return address are oracles: `symbolizer` is asked about the i-th frame's
   * instruction, `cfi` about the caller of the last frame, and `scan` about the
   * stack from a stack pointer on, answering with a location and what it holds.
   */
  datatype Stackwalker = Stackwalker(
    cpu: Cpu,
    stack: Option<Region>,
    initial: Option<Registers>,
    isNacl: bool,
    maxFrames: nat,
    maxFramesScanned: nat,
    symbolizer: (nat, int) -> (SymbolizerResult, Option<ModuleRef>),
    cfi: (nat, Frame) -> Option<(Registers, bool)>,
    scan: (int, bool) -> Option<(int, int)>)
  {
    /** The x86 walker refuses memory beyond the 32-bit address space. */
    function Memory(): Option<Region> {
      if cpu.X86? && stack.Some? && (stack.value.base + |stack.value.bytes| - 1) % TWO_64 > 0xffff_ffff then None
      else stack
    }

    function GetContextFrame(): Option<Frame> {
      if initial.None? then None
      else Some(Frame(initial.value, true, TrustContext, initial.value.ip, None))
    }

    // ----- amd64 -----

    function Amd64ByCfi(count: nat, last: Frame): Option<Frame> {
      match cfi(count, last)
      case None => None
      case Some((r, bpValid)) =>
        Some(Frame(Registers(r.ip % TWO_64, r.sp % TWO_64, r.bp % TWO_64), bpValid, TrustCfi, 0, None))
    }

    function Amd64ByFramePointer(last: Frame): Option<Frame>
      requires Memory().Some?
    {
      var lastBp := last.context.bp;
      if lastBp % 8 != 0 then None
      else
        var callerIp := Memory().value.Read((lastBp + 8) % TWO_64, 8);
        var callerBp := Memory().value.Read(lastBp % TWO_64, 8);
        if callerIp.None? || callerBp.None? then None
        else
          var callerSp := (lastBp + 16) % TWO_64;
          if IsNonCanonical(callerIp.value) then None
          else if IsEndOfStack(callerIp.value, callerSp, last.context.sp) || callerBp.value < lastBp then None
          else Some(Frame(Registers(callerIp.value, callerSp, callerBp.value), true, TrustFp, 0, None))
    }

    function Amd64ByScan(count: nat, last: Frame): Option<Frame>
      requires Memory().Some?
    {
      match scan(last.context.sp, count == 1)
      case None => None
      case Some((location, value)) =>
        var at := location % TWO_64;
        var sp := (at + 8) % TWO_64;
        var frame := Frame(Registers(value % TWO_64, sp, last.context.bp), false, TrustScan, 0, None);
        if !last.bpValid then Some(frame)
        else if (at - 8) % TWO_64 == last.context.bp then
          var callerBp := Memory().value.Read(last.context.bp % TWO_64, 8);
          if callerBp.Some? && callerBp.value > at then
            Some(frame.(context := frame.context.(bp := callerBp.value), bpValid := true))
          else Some(frame)
        else if last.context.bp >= sp then Some(frame.(bpValid := true))
        else Some(frame)
    }

    function Amd64Caller(count: nat, last: Frame, scanAllowed: bool): Option<Frame> {
      if Memory().None? then None
      else
        var byCfi := Amd64ByCfi(count, last);
        var byFp := if byCfi.Some? then byCfi else Amd64ByFramePointer(last);
        var found := if scanAllowed && byFp.None? then Amd64ByScan(count, last) else byFp;
        if found.None? then None
        else
          var r := found.value.context;
          var context := if isNacl then Registers(r.ip % TWO_32, r.sp % TWO_32, r.bp % TWO_32) else r;
          if IsEndOfStack(context.ip, context.sp, last.context.sp) then None
          else Some(found.value.(context := context, instruction := context.ip - 1))
    }

    // ----- x86 -----

    function X86ByCfi(count: nat, last: Frame): Option<Frame> {
      match cfi(count, last)
      case None => None
      case Some((r, bpValid)) =>
        if !bpValid then None
        else Some(Frame(Registers(r.ip % TWO_32, r.sp % TWO_32, r.bp % TWO_32), true, TrustCfi, 0, None))
    }

    function X86ByBasePointer(count: nat, last: Frame, scanAllowed: bool): Option<Frame>
      requires Memory().Some?
    {
      var lastBp := last.context.bp;
      var callerIp := Memory().value.Read((lastBp + 4) % TWO_32, 4);
      var callerBp := Memory().value.Read(lastBp % TWO_32, 4);
      if callerIp.Some? && callerBp.Some? then
        Some(Frame(Registers(callerIp.value, (lastBp + 8) % TWO_32, callerBp.value), true, TrustFp, 0, None))
      else if !scanAllowed then None
      else
        match scan(last.context.sp, count == 1)
        case None => None
        case Some((location, value)) =>
          var sp := (location + 4) % TWO_32;
          var saved := (sp - 8) % TWO_32;
          var restored := Memory().value.Read(saved, 4);
          var bp := if restored.None? || restored.value <= saved
                       || restored.value - saved > MAX_REASONABLE_GAP_BETWEEN_FRAMES
                    then lastBp else restored.value;
          Some(Frame(Registers(value % TWO_32, sp, bp), true, TrustScan, 0, None))
    }

    function X86Caller(count: nat, last: Frame, scanAllowed: bool): Option<Frame> {
      if Memory().None? then None
      else
        var byCfi := X86ByCfi(count, last);
        var found := if byCfi.Some? then byCfi else X86ByBasePointer(count, last, scanAllowed);
        if found.None? || found.value.context.ip == 0 || found.value.context.sp <= last.context.sp then None
        else Some(found.value.(instruction := found.value.context.ip - 1))
    }

    // ----- The walk -----

    function GetCallerFrame(count: nat, last: Frame, scanAllowed: bool): Option<Frame> {
      if cpu.Amd64? then Amd64Caller(count, last, scanAllowed) else X86Caller(count, last, scanAllowed)
    }

    /** The frame that follows the given ones, before it is symbolized. */
    function Next(frames: seq<Frame>): Option<Frame> {
      if frames == [] then GetContextFrame()
      else GetCallerFrame(|frames|, frames[|frames| - 1], ScannedCount(frames) < maxFramesScanned)
    }

    /** The i-th frame with its module, unless the symbolizer interrupts the walk. */
    function Symbolized(i: nat, f: Frame): Option<Frame> {
      var (result, module_) := symbolizer(i, f.instruction);
      if result.Interrupt? then None else Some(f.(module_ := module_))
    }

    /** Every frame is the symbolized successor of the ones before it. */
    ghost predicate Linked(frames: seq<Frame>) {
      forall i {:trigger frames[i]} :: 0 <= i < |frames| ==>
        Next(frames[..i]).Some? && Symbolized(i, Next(frames[..i]).value) == Some(frames[i])
    }

    lemma LinkedExtends(frames: seq<Frame>, f: Frame)
      requires Linked(frames) && Next(frames).Some? && Symbolized(|frames|, Next(frames).value) == Some(f)
      ensures Linked(frames + [f])
    {
      var longer := frames + [f];
      forall i | 0 <= i < |longer|
        ensures Next(longer[..i]).Some? && Symbolized(i, Next(longer[..i]).value) == Some(longer[i])
      {
        assert longer[..i] == frames[..i];
        if i < |frames| {
          assert longer[i] == frames[i];
        } else {
          assert frames[..i] == frames;
        }
      }
    }

    /** The frames a walk leaves behind, and whether it ran to its end. */
    ghost predicate Walked(frames: seq<Frame>, completed: bool) {
      && |frames| <= maxFrames + 1
      && Linked(frames)
      && if completed then |frames| == maxFrames + 1 || Next(frames).None?
         else |frames| <= maxFrames && Next(frames).Some? && Symbolized(|frames|, Next(frames).value).None?
    }

    /** The list after the modules of the frames with one of the verdicts were inserted. */
    function Flagged(frames: seq<Frame>, verdicts: set<SymbolizerResult>, before: seq<ModuleRef>): seq<ModuleRef> {
      if frames == [] then before
      else
        var n := |frames| - 1;
        var rest := Flagged(frames[..n], verdicts, before);
        if symbolizer(n, frames[n].instruction).0 in verdicts then Inserted(rest, frames[n].module_) else rest
    }

    lemma NothingWalked(verdicts: set<SymbolizerResult>, before: seq<ModuleRef>)
      ensures Next([]) == GetContextFrame() && Linked([]) && ScannedCount([]) == 0
      ensures Flagged([], verdicts, before) == before
    {
    }

    lemma FlaggedGrows(frames: seq<Frame>, f: Frame, verdicts: set<SymbolizerResult>, before: seq<ModuleRef>)
      ensures Flagged(frames + [f], verdicts, before)
           == if symbolizer(|frames|, f.instruction).0 in verdicts then Inserted(Flagged(frames, verdicts, before), f.module_)
              else Flagged(frames, verdicts, before)
    {
      assert (frames + [f])[..|frames|] == frames;
    }

    lemma NextAfter(frames: seq<Frame>, f: Frame)
      ensures ScannedCount(frames + [f]) == ScannedCount(frames) + (if IsDubious(f) then 1 else 0)
      ensures Next(frames + [f]) == GetCallerFrame(|frames| + 1, f, ScannedCount(frames + [f]) < maxFramesScanned)
    {
      assert (frames + [f])[..|frames|] == frames;
    }

    /** One list may be passed for both kinds of modules. */
    method Walk(callStack: CallStack, withoutSymbols: ModuleList, corruptSymbols: ModuleList) returns (completed: bool)
      modifies callStack, withoutSymbols, corruptSymbols
      ensures Walked(callStack.frames, completed)
      ensures forall i :: 0 <= i < |callStack.frames| ==>
                && callStack.frames[i].module_ == symbolizer(i, callStack.frames[i].instruction).1
                && !symbolizer(i, callStack.frames[i].instruction).0.Interrupt?
      ensures withoutSymbols != corruptSymbols ==>
                && withoutSymbols.modules == Flagged(callStack.frames, {Error}, old(withoutSymbols.modules))
                && corruptSymbols.modules == Flagged(callStack.frames, {WarningCorruptSymbols}, old(corruptSymbols.modules))
      ensures withoutSymbols == corruptSymbols ==>
                withoutSymbols.modules == Flagged(callStack.frames, {Error, WarningCorruptSymbols}, old(withoutSymbols.modules))
    {
      ghost var shared := withoutSymbols == corruptSymbols;
      ghost var forErrors := if shared then {Error, WarningCorruptSymbols} else {Error};
      ghost var forCorrupt := if shared then {Error, WarningCorruptSymbols} else {WarningCorruptSymbols};
      hide Flagged, Linked, Next, ScannedCount, GetCallerFrame, Inserted;
      callStack.frames := [];
      var scannedFrames := 0;
      var frame := GetContextFrame();
      NothingWalked(forErrors, withoutSymbols.modules);
      NothingWalked(forCorrupt, corruptSymbols.modules);
      while frame.Some?
        invariant frame == Next(callStack.frames) && |callStack.frames| <= maxFrames
        invariant scannedFrames == ScannedCount(callStack.frames)
        invariant Linked(callStack.frames)
        invariant forall i :: 0 <= i < |callStack.frames| ==>
          && callStack.frames[i].module_ == symbolizer(i, callStack.frames[i].instruction).1
          && !symbolizer(i, callStack.frames[i].instruction).0.Interrupt?
        invariant withoutSymbols.modules == Flagged(callStack.frames, forErrors, old(withoutSymbols.modules))
        invariant corruptSymbols.modules == Flagged(callStack.frames, forCorrupt, old(corruptSymbols.modules))
        decreases maxFrames + 1 - |callStack.frames|
      {
        ghost var before := callStack.frames;
        var f := frame.value;
        var (result, module_) := symbolizer(|callStack.frames|, f.instruction);
        f := f.(module_ := module_);
        match result {
          case Interrupt => return false;
          case Error => InsertSpecialAttentionModule(result, f.module_, withoutSymbols);
          case WarningCorruptSymbols => InsertSpecialAttentionModule(result, f.module_, corruptSymbols);
          case NoError =>
        }
        if IsDubious(f) {
          scannedFrames := scannedFrames + 1;
        }
        callStack.frames := callStack.frames + [f];
        LinkedExtends(before, f);
        NextAfter(before, f);
        FlaggedGrows(before, f, forErrors, old(withoutSymbols.modules));
        FlaggedGrows(before, f, forCorrupt, old(corruptSymbols.modules));
        if |callStack.frames| > maxFrames {
          break;
        }
        var scanAllowed := scannedFrames < maxFramesScanned;
        frame := GetCallerFrame(|callStack.frames|, f, scanAllowed);
      }
      completed := true;
    }
  }
}
