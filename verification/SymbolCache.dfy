/**
 * stack_frame_symbolizer.cc and source_line_resolver_base.cc: which modules have
 * symbols, which are corrupt, and when the symbol supplier is asked.
 */
module SymbolCache {
  import opened Wrappers

  /** What parsing a module's symbol data comes to; data with too many errors is corrupt. */
  datatype SymbolData = SymbolData(corrupt: bool)

  /** What the supplier answers; `OTHER` is a value outside its enumeration. */
  datatype SymbolResult = FOUND(data: SymbolData) | NOT_FOUND | INTERRUPT | OTHER

  datatype SymbolizerResult = NoError | Error | WarningCorruptSymbols | Interrupt

  /** The sets of code files the symbolizer and its resolver keep. */
  datatype Cache = Cache(noSymbols: set<string>, loaded: set<string>, corrupt: set<string>)

  const EMPTY := Cache({}, {}, {})

  // ----- The classes -----

  class SourceLineResolver {
    var modules: set<string>
    var corruptModules: set<string>

    constructor ()
      ensures modules == {} && corruptModules == {}
    {
      modules, corruptModules := {}, {};
    }

    predicate HasModule(codeFile: Option<string>)
      reads this
    {
      codeFile.Some? && codeFile.value in modules
    }

    predicate IsModuleCorrupt(codeFile: Option<string>)
      reads this
    {
      codeFile.Some? && codeFile.value in corruptModules
    }

    /** Corrupt symbols still count as loaded; a module is only loaded once. */
    method LoadModuleUsingMemoryBuffer(codeFile: Option<string>, data: SymbolData) returns (success: bool)
      modifies this
      ensures success <==> codeFile.Some? && codeFile.value !in old(modules)
      ensures modules == if success then old(modules) + {codeFile.value} else old(modules)
      ensures corruptModules == if success && data.corrupt then old(corruptModules) + {codeFile.value} else old(corruptModules)
    {
      if codeFile.None? {
        return false;
      }
      if codeFile.value in modules {
        return false;
      }
      modules := modules + {codeFile.value};
      if data.corrupt {
        corruptModules := corruptModules + {codeFile.value};
      }
      return true;
    }

    method UnloadModule(codeFile: Option<string>)
      modifies this
      ensures modules == if codeFile.Some? then old(modules) - {codeFile.value} else old(modules)
      ensures corruptModules ==
        if codeFile.Some? && codeFile.value in old(modules) then old(corruptModules) - {codeFile.value} else old(corruptModules)
      ensures codeFile.Some? ==> forall missing, hasSupplier ::
                After(Cache(missing, old(modules), old(corruptModules)), hasSupplier, Unload(codeFile.value))
                  == Cache(missing, modules, corruptModules)
    {
      if codeFile.None? {
        return;
      }
      if codeFile.value in modules {
        corruptModules := corruptModules - {codeFile.value};
        modules := modules - {codeFile.value};
      }
    }
  }

  class StackFrameSymbolizer {
    var noSymbolModules: set<string>
    const resolver: SourceLineResolver?
    const hasSupplier: bool

    constructor (resolver: SourceLineResolver?, hasSupplier: bool)
      ensures this.resolver == resolver && this.hasSupplier == hasSupplier && noSymbolModules == {}
    {
      this.resolver, this.hasSupplier := resolver, hasSupplier;
      noSymbolModules := {};
    }

    function Sets(): Cache
      reads this, resolver
    {
      if resolver == null then Cache(noSymbolModules, {}, {})
      else Cache(noSymbolModules, resolver.modules, resolver.corruptModules)
    }

    /**
     * `FillSourceLineInfo` for a frame in the given module, if it is in one, when
     * the supplier would give the given answer.
     */
    method FillSourceLineInfo(codeFile: Option<string>, answer: SymbolResult) returns (result: SymbolizerResult, asked: bool)
      modifies this, resolver
      ensures asked <==>
                && codeFile.Some? && resolver != null && hasSupplier
                && codeFile.value !in old(noSymbolModules) && codeFile.value !in old(resolver.modules)
      ensures noSymbolModules == if asked && answer.NOT_FOUND? then old(noSymbolModules) + {codeFile.value} else old(noSymbolModules)
      ensures resolver != null ==>
                && resolver.modules == (if asked && answer.FOUND? then old(resolver.modules) + {codeFile.value} else old(resolver.modules))
                && resolver.corruptModules ==
                     (if asked && answer.FOUND? && answer.data.corrupt then old(resolver.corruptModules) + {codeFile.value}
                      else old(resolver.corruptModules))
      ensures result.NoError? <==>
                && codeFile.Some? && codeFile.value !in noSymbolModules
                && resolver != null && codeFile.value in resolver.modules && codeFile.value !in resolver.corruptModules
      ensures result.WarningCorruptSymbols? <==>
                && codeFile.Some? && codeFile.value !in noSymbolModules
                && resolver != null && codeFile.value in resolver.modules && codeFile.value in resolver.corruptModules
      ensures result.Interrupt? <==> asked && answer.INTERRUPT?
      ensures asked <==> resolver != null && Asks(old(Sets()), hasSupplier, Fill(codeFile, answer))
      ensures (Sets(), result) ==
        if resolver == null then (old(Sets()), Error) else Symbolize(old(Sets()), hasSupplier, codeFile, answer)
    {
      if codeFile.None? {
        return Error, false;
      }
      if resolver == null {
        return Error, false;
      }
      if codeFile.value in noSymbolModules {
        return Error, false;
      }
      if resolver.HasModule(codeFile) {
        result := if resolver.IsModuleCorrupt(codeFile) then WarningCorruptSymbols else NoError;
        return result, false;
      }
      if !hasSupplier {
        return Error, false;
      }
      asked := true;
      match answer {
        case FOUND(data) =>
          var loadSuccess := resolver.LoadModuleUsingMemoryBuffer(codeFile, data);
          if loadSuccess {
            result := if resolver.IsModuleCorrupt(codeFile) then WarningCorruptSymbols else NoError;
          } else {
            // The module was not loaded a moment ago, so loading it succeeds.
            assert false;
          }
        case NOT_FOUND =>
          noSymbolModules := noSymbolModules + {codeFile.value};
          result := Error;
        case INTERRUPT =>
          result := Interrupt;
        case OTHER =>
          result := Error;
      }
    }
  }

  // ----- Runs -----

  /** A call of the symbolizer, or a module unloaded from its resolver. */
  datatype Event = Fill(codeFile: Option<string>, answer: SymbolResult) | Unload(unloaded: string)

  /** The event makes the symbolizer ask the supplier. */
  predicate Asks(c: Cache, hasSupplier: bool, e: Event) {
    && e.Fill? && e.codeFile.Some? && hasSupplier
    && e.codeFile.value !in c.noSymbols && e.codeFile.value !in c.loaded
  }

  predicate Decides(answer: SymbolResult) {
    answer.FOUND? || answer.NOT_FOUND?
  }

  function Verdict(c: Cache, codeFile: string): SymbolizerResult {
    if codeFile in c.noSymbols then Error
    else if codeFile in c.corrupt then WarningCorruptSymbols else NoError
  }

  function Symbolize(c: Cache, hasSupplier: bool, codeFile: Option<string>, answer: SymbolResult): (Cache, SymbolizerResult) {
    if codeFile.None? then (c, Error)
    else
      var f := codeFile.value;
      if f in c.noSymbols || f in c.loaded then (c, Verdict(c, f))
      else if !hasSupplier then (c, Error)
      else
        match answer
        case FOUND(data) =>
          var next := c.(loaded := c.loaded + {f}, corrupt := if data.corrupt then c.corrupt + {f} else c.corrupt);
          (next, if f in next.corrupt then WarningCorruptSymbols else NoError)
        case NOT_FOUND => (c.(noSymbols := c.noSymbols + {f}), Error)
        case INTERRUPT => (c, Interrupt)
        case OTHER => (c, Error)
  }

  function After(c: Cache, hasSupplier: bool, e: Event): Cache {
    match e
    case Fill(codeFile, answer) => Symbolize(c, hasSupplier, codeFile, answer).0
    case Unload(f) =>
      if f in c.loaded then c.(loaded := c.loaded - {f}, corrupt := c.corrupt - {f}) else c
  }

  ghost predicate IsHistory(caches: seq<Cache>, events: seq<Event>, hasSupplier: bool) {
    && |caches| == |events| + 1
    && caches[0] == EMPTY
    && forall k :: 0 <= k < |events| ==> caches[k + 1] == After(caches[k], hasSupplier, events[k])
  }

  /** A module is decided once it has symbols, good or corrupt, or is known to have none. */
  predicate Decided(c: Cache, codeFile: string) {
    codeFile in c.noSymbols || codeFile in c.loaded
  }

  /** No module both has and lacks symbols, and only loaded ones are corrupt. */
  lemma {:induction false} SetsStayConsistent(caches: seq<Cache>, events: seq<Event>, hasSupplier: bool, k: nat)
    requires IsHistory(caches, events, hasSupplier) && k <= |events|
    ensures caches[k].noSymbols !! caches[k].loaded
    ensures caches[k].corrupt <= caches[k].loaded
    decreases k
  {
    if k > 0 {
      SetsStayConsistent(caches, events, hasSupplier, k - 1);
      assert caches[k] == After(caches[k - 1], hasSupplier, events[k - 1]);
    }
  }

  ghost predicate UnloadedBetween(events: seq<Event>, codeFile: string, i: nat, j: nat) {
    exists k :: i <= k < j <= |events| && events[k] == Unload(codeFile)
  }

  /** Once decided, a verdict stays until the module is unloaded; that symbols are missing is never forgotten. */
  lemma {:induction false} VerdictIsStable(caches: seq<Cache>, events: seq<Event>, hasSupplier: bool, codeFile: string, i: nat, j: nat)
    requires IsHistory(caches, events, hasSupplier) && i <= j <= |events|
    requires Decided(caches[i], codeFile)
    requires codeFile in caches[i].noSymbols || !UnloadedBetween(events, codeFile, i, j)
    ensures Decided(caches[j], codeFile) && Verdict(caches[j], codeFile) == Verdict(caches[i], codeFile)
    ensures codeFile in caches[i].noSymbols <==> codeFile in caches[j].noSymbols
    decreases j - i
  {
    if i < j {
      if codeFile !in caches[i].noSymbols && UnloadedBetween(events, codeFile, i, j - 1) {
        assert UnloadedBetween(events, codeFile, i, j);
      }
      VerdictIsStable(caches, events, hasSupplier, codeFile, i, j - 1);
      SetsStayConsistent(caches, events, hasSupplier, j - 1);
      assert caches[j] == After(caches[j - 1], hasSupplier, events[j - 1]);
      if events[j - 1] == Unload(codeFile) {
        assert codeFile in caches[i].noSymbols || UnloadedBetween(events, codeFile, i, j);
      }
    }
  }

  /**
   * In every run each answer of the symbolizer is the right one for what is known
   * afterwards: good if the module is loaded and not corrupt, corrupt if it is loaded
   * and corrupt, interrupted if the supplier was asked and said so, else an error.
   */
  lemma AnswersAreRight(caches: seq<Cache>, events: seq<Event>, hasSupplier: bool, i: nat)
    requires IsHistory(caches, events, hasSupplier) && i < |events| && events[i].Fill?
    ensures var (codeFile, answer) := (events[i].codeFile, events[i].answer);
            var result := Symbolize(caches[i], hasSupplier, codeFile, answer).1;
            var loaded := codeFile.Some? && codeFile.value in caches[i + 1].loaded;
            && (result.NoError? <==> loaded && codeFile.value !in caches[i + 1].corrupt)
            && (result.WarningCorruptSymbols? <==> loaded && codeFile.value in caches[i + 1].corrupt)
            && (result.Interrupt? <==> Asks(caches[i], hasSupplier, events[i]) && answer.INTERRUPT?)
            && (Asks(caches[i], hasSupplier, events[i]) <==>
                  codeFile.Some? && hasSupplier && codeFile.value !in caches[i].noSymbols && codeFile.value !in caches[i].loaded)
  {
    SetsStayConsistent(caches, events, hasSupplier, i);
    SetsStayConsistent(caches, events, hasSupplier, i + 1);
    assert caches[i + 1] == After(caches[i], hasSupplier, events[i]);
  }

  /** A deciding answer is remembered from the next call on. */
  lemma AnswerDecides(caches: seq<Cache>, events: seq<Event>, hasSupplier: bool, i: nat)
    requires IsHistory(caches, events, hasSupplier) && i < |events|
    requires Asks(caches[i], hasSupplier, events[i]) && Decides(events[i].answer)
    ensures var f := events[i].codeFile.value;
            && Decided(caches[i + 1], f)
            && Verdict(caches[i + 1], f) == Symbolize(caches[i], hasSupplier, events[i].codeFile, events[i].answer).1
            && (f in caches[i + 1].noSymbols <==> events[i].answer.NOT_FOUND?)
            && (f in caches[i + 1].corrupt <==> events[i].answer.FOUND? && events[i].answer.data.corrupt)
  {
    SetsStayConsistent(caches, events, hasSupplier, i);
    assert caches[i + 1] == After(caches[i], hasSupplier, events[i]);
  }

  /**
   * The supplier is asked about a code file again only if its earlier answer decided
   * nothing, or if it found symbols that were unloaded since; in particular at most
   * one deciding answer per code file in a run without unloading.
   */
  lemma AskedAgainOnlyIfUndecided(caches: seq<Cache>, events: seq<Event>, hasSupplier: bool, i: nat, j: nat)
    requires IsHistory(caches, events, hasSupplier) && i < j < |events|
    requires Asks(caches[i], hasSupplier, events[i]) && Asks(caches[j], hasSupplier, events[j])
    requires events[i].codeFile == events[j].codeFile
    ensures || !Decides(events[i].answer)
            || (events[i].answer.FOUND? && UnloadedBetween(events, events[i].codeFile.value, i + 1, j))
  {
    var f := events[i].codeFile.value;
    if Decides(events[i].answer) {
      AnswerDecides(caches, events, hasSupplier, i);
      if events[i].answer.NOT_FOUND? || !UnloadedBetween(events, f, i + 1, j) {
        VerdictIsStable(caches, events, hasSupplier, f, i + 1, j);
      }
    }
  }

  /**
   * Without unloading, every call after a deciding answer reports what the deciding
   * call reported, whatever the supplier would say, and changes nothing.
   */
  lemma LaterCallsAgree(caches: seq<Cache>, events: seq<Event>, hasSupplier: bool, i: nat, j: nat)
    requires IsHistory(caches, events, hasSupplier) && i < j < |events|
    requires Asks(caches[i], hasSupplier, events[i]) && Decides(events[i].answer)
    requires events[j].Fill? && events[j].codeFile == events[i].codeFile
    requires !UnloadedBetween(events, events[i].codeFile.value, i + 1, j)
    ensures !Asks(caches[j], hasSupplier, events[j])
    ensures Symbolize(caches[j], hasSupplier, events[j].codeFile, events[j].answer)
         == (caches[j], Symbolize(caches[i], hasSupplier, events[i].codeFile, events[i].answer).1)
  {
    AnswerDecides(caches, events, hasSupplier, i);
    VerdictIsStable(caches, events, hasSupplier, events[i].codeFile.value, i + 1, j);
  }
}
