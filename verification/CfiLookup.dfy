/**
 * basic_source_line_resolver.cc: the STACK CFI records of a module, and the rules
 * in force at an address, built by applying delta records over an INIT record.
 */
module CfiLookup {
  import opened Wrappers
  import opened CfiRules
  import opened CStrings
  import opened CfiRecords

  /** A STACK CFI INIT record. */
  datatype InitRecord = InitRecord(base: nat, size: nat, rules: string) {
    predicate Covers(address: nat) {
      base <= address < base + size
    }
  }

  /** A STACK CFI delta record. */
  datatype DeltaRecord = DeltaRecord(address: nat, rules: string)

  ghost predicate DisjointRanges(inits: seq<InitRecord>) {
    forall i, j, a :: 0 <= i < j < |inits| && inits[i].Covers(a) ==> !inits[j].Covers(a)
  }

  /** The record is not empty and shares no address with those stored. */
  ghost predicate IsFree(inits: seq<InitRecord>, record: InitRecord) {
    record.size > 0 && forall k, a :: 0 <= k < |inits| && record.Covers(a) ==> !inits[k].Covers(a)
  }

  /** The order in which a std::map iterates: by address, each once. */
  ghost predicate InOrder(deltas: seq<DeltaRecord>) {
    forall i, j :: 0 <= i < j < |deltas| ==> deltas[i].address < deltas[j].address
  }

  /** What the map holds at an address. */
  ghost predicate Holds(deltas: seq<DeltaRecord>, address: nat, rules: string) {
    DeltaRecord(address, rules) in deltas
  }

  /** The rules a record's text reports, whether or not the text is accepted as a whole. */
  function RulesOf(text: string): seq<Rule> {
    Parsed(text).1
  }

  function Reports(deltas: seq<DeltaRecord>): seq<Rule> {
    if deltas == [] then []
    else Reports(deltas[..|deltas| - 1]) + RulesOf(deltas[|deltas| - 1].rules)
  }

  /** The deltas whose address lies in [from, to]. */
  function Window(deltas: seq<DeltaRecord>, from: nat, to: nat): seq<DeltaRecord> {
    if deltas == [] then []
    else
      var n := |deltas| - 1;
      Window(deltas[..n], from, to) + (if from <= deltas[n].address <= to then [deltas[n]] else [])
  }

  /** The deltas of an INIT record up to an address. */
  function DeltasUpTo(init: InitRecord, deltas: seq<DeltaRecord>, address: nat): seq<DeltaRecord> {
    Window(deltas, init.base, address)
  }

  /** What FindCFIFrameInfo should answer: the INIT rules, then every delta up to the address. */
  function RulesAt(inits: seq<InitRecord>, deltas: seq<DeltaRecord>, address: nat): Option<RuleSet> {
    var init := Covering(inits, address);
    if init.None? || !Parsed(init.value.rules).0 then None
    else Some(ApplyAll(NO_RULES, RulesOf(init.value.rules) + Reports(DeltasUpTo(init.value, deltas, address))))
  }

  /** The text is a list of names, each followed by its expression. */
  ghost predicate IsRuleText(text: string) {
    exists entries :: entries != [] && AllValid(entries) && Written(entries) == Tokens(CString(text))
  }

  /** With disjoint INIT records there is an answer exactly where one covers the address and its text is well-formed. */
  lemma AnsweredIff(inits: seq<InitRecord>, deltas: seq<DeltaRecord>, address: nat)
    requires DisjointRanges(inits)
    ensures RulesAt(inits, deltas, address).Some? <==>
      exists init :: init in inits && init.Covers(address) && IsRuleText(init.rules)
  {
    hide IsRuleText, ApplyAll, Reports;
    var found := Covering(inits, address);
    if found.Some? {
      RuleTextParses(found.value.rules);
      forall init | init in inits && init.Covers(address) ensures init == found.value {
        CoveringIsUnique(inits, init, address);
      }
    }
  }

  lemma RuleTextParses(text: string)
    ensures Parsed(text).0 <==> IsRuleText(text)
  {
    hide Tokens, CString, Outcome, Written;
    ParseAcceptsExactlyTheGrammar(text);
  }

  function Covering(inits: seq<InitRecord>, address: nat): (r: Option<InitRecord>)
    ensures r.Some? ==> r.value in inits && r.value.Covers(address)
    ensures r.None? ==> forall k :: 0 <= k < |inits| ==> !inits[k].Covers(address)
  {
    if inits == [] then None
    else if inits[0].Covers(address) then Some(inits[0])
    else Covering(inits[1..], address)
  }

  class Module {
    var cfiInitialRules: seq<InitRecord>
    var cfiDeltaRules: seq<DeltaRecord>

    ghost predicate Valid()
      reads this
    {
      DisjointRanges(cfiInitialRules) && InOrder(cfiDeltaRules)
    }

    constructor ()
      ensures Valid() && cfiInitialRules == [] && cfiDeltaRules == []
    {
      cfiInitialRules, cfiDeltaRules := [], [];
    }

    /** An INIT record is stored unless it is empty or overlaps a stored one. */
    method StoreInit(record: InitRecord)
      requires Valid()
      modifies this`cfiInitialRules
      ensures Valid()
      ensures cfiInitialRules ==
        if IsFree(old(cfiInitialRules), record) then old(cfiInitialRules) + [record] else old(cfiInitialRules)
    {
      var overlaps := record.size == 0;
      for i := 0 to |cfiInitialRules|
        invariant !overlaps <==> IsFree(cfiInitialRules[..i], record)
      {
        var other := cfiInitialRules[i];
        assert cfiInitialRules[..i + 1] == cfiInitialRules[..i] + [other];
        if other.size > 0 && record.base < other.base + other.size && other.base < record.base + record.size {
          ghost var shared := if record.base < other.base then other.base else record.base;
          assert record.size > 0 ==> record.Covers(shared) && cfiInitialRules[i].Covers(shared);
          overlaps := true;
        }
      }
      assert cfiInitialRules[..|cfiInitialRules|] == cfiInitialRules;
      if !overlaps {
        cfiInitialRules := cfiInitialRules + [record];
      }
    }

    /** `cfi_delta_rules_[address] = rules`: a later record for the same address replaces the earlier one. */
    method StoreDelta(address: nat, rules: string)
      requires Valid()
      modifies this`cfiDeltaRules
      ensures Valid()
      ensures forall a, r :: Holds(cfiDeltaRules, a, r) <==>
        if a == address then r == rules else Holds(old(cfiDeltaRules), a, r)
    {
      var i := LowerBound(address);
      var d := DeltaRecord(address, rules);
      if i < |cfiDeltaRules| && cfiDeltaRules[i].address == address {
        cfiDeltaRules := cfiDeltaRules[..i] + [d] + cfiDeltaRules[i + 1..];
      } else {
        cfiDeltaRules := cfiDeltaRules[..i] + [d] + cfiDeltaRules[i..];
      }
      StoredAt(old(cfiDeltaRules), i, d);
    }

    /** `ParseCFIFrameInfo`: stores the record of a line, if it is one; an INIT record that is refused still counts as parsed. */
    method ParseCFIFrameInfo(line: string) returns (parsed: bool)
      requires Valid()
      modifies this
      ensures Valid()
      ensures parsed <==> ReadRecord(line).Some?
      ensures (parsed && ReadRecord(line).value.Init? ==>
                 var record := InitRecord(ReadRecord(line).value.base, ReadRecord(line).value.size, ReadRecord(line).value.initialRules);
                 cfiInitialRules == if IsFree(old(cfiInitialRules), record) then old(cfiInitialRules) + [record] else old(cfiInitialRules))
      ensures !(parsed && ReadRecord(line).value.Init?) ==> cfiInitialRules == old(cfiInitialRules)
      ensures (parsed && ReadRecord(line).value.Delta? ==>
                 forall a, r :: Holds(cfiDeltaRules, a, r) <==>
                   if a == ReadRecord(line).value.address then r == ReadRecord(line).value.deltaRules else Holds(old(cfiDeltaRules), a, r))
      ensures !(parsed && ReadRecord(line).value.Delta?) ==> cfiDeltaRules == old(cfiDeltaRules)
    {
      hide StrTok, StrToUl;
      var initOrAddress := StrTok(line, " \r\n");
      if initOrAddress.None? {
        return false;
      }
      if initOrAddress.value.0 == "INIT" {
        var addressField := StrTok(initOrAddress.value.1, " \r\n");
        if addressField.None? {
          return false;
        }
        var sizeField := StrTok(addressField.value.1, " \r\n");
        if sizeField.None? {
          return false;
        }
        var initialRules := StrTok(sizeField.value.1, "\r\n");
        if initialRules.None? {
          return false;
        }
        StoreInit(InitRecord(StrToUl(addressField.value.0), StrToUl(sizeField.value.0), initialRules.value.0));
        return true;
      }
      var deltaRules := StrTok(initOrAddress.value.1, "\r\n");
      if deltaRules.None? {
        return false;
      }
      StoreDelta(StrToUl(initOrAddress.value.0), deltaRules.value.0);
      return true;
    }

    /** std::map::lower_bound: the first delta at or after the address. */
    method LowerBound(address: nat) returns (i: nat)
      requires Valid()
      ensures i <= |cfiDeltaRules|
      ensures forall k :: 0 <= k < i ==> cfiDeltaRules[k].address < address
      ensures forall k :: i <= k < |cfiDeltaRules| ==> address <= cfiDeltaRules[k].address
    {
      i := 0;
      while i < |cfiDeltaRules| && cfiDeltaRules[i].address < address
        invariant i <= |cfiDeltaRules|
        invariant forall k :: 0 <= k < i ==> cfiDeltaRules[k].address < address
      {
        i := i + 1;
      }
    }

    method FindCFIFrameInfo(address: nat) returns (rules: CFIFrameInfo?)
      requires Valid()
      ensures rules != null <==>
        exists init :: init in cfiInitialRules && init.Covers(address) && IsRuleText(init.rules)
      ensures rules == null <==> RulesAt(cfiInitialRules, cfiDeltaRules, address).None?
      ensures rules != null ==> fresh(rules) && Some(rules.Rules()) == RulesAt(cfiInitialRules, cfiDeltaRules, address)
    {
      hide ApplyAll, Window, Reports, Parsed, DisjointRanges, IsRuleText;
      AnsweredIff(cfiInitialRules, cfiDeltaRules, address);
      var initial := Covering(cfiInitialRules, address);
      if initial.None? {
        return null;
      }
      rules := new CFIFrameInfo();
      var parser := new CFIRuleParser(rules);
      var accepted := parser.Parse(initial.value.rules);
      if !accepted {
        return null;
      }
      ghost var reports := RulesOf(initial.value.rules);
      var delta := LowerBound(initial.value.base);
      WindowOfBelow(cfiDeltaRules[..delta], initial.value.base, address);
      assert Reports([]) == [] by {
        NoReports();
      }
      assert reports + [] == reports;
      while delta < |cfiDeltaRules| && cfiDeltaRules[delta].address <= address
        invariant delta <= |cfiDeltaRules| && fresh(rules)
        invariant forall k :: delta <= k < |cfiDeltaRules| ==> initial.value.base <= cfiDeltaRules[k].address
        invariant rules.Rules() == ApplyAll(NO_RULES, reports + Reports(Window(cfiDeltaRules[..delta], initial.value.base, address)))
        modifies rules
      {
        parser := new CFIRuleParser(rules);
        var ignored := parser.Parse(cfiDeltaRules[delta].rules);
        ReportsGrow(cfiDeltaRules, delta, initial.value.base, address, reports);
        delta := delta + 1;
      }
      WindowOfRest(cfiDeltaRules, delta, initial.value.base, address);
    }
  }

  lemma NoReports()
    ensures Reports([]) == []
  {
  }

  lemma StoredAt(deltas: seq<DeltaRecord>, i: nat, d: DeltaRecord)
    requires InOrder(deltas) && i <= |deltas|
    requires forall k :: 0 <= k < i ==> deltas[k].address < d.address
    requires forall k :: i <= k < |deltas| ==> d.address <= deltas[k].address
    ensures var next := if i < |deltas| && deltas[i].address == d.address then i + 1 else i;
            var stored := deltas[..i] + [d] + deltas[next..];
            && InOrder(stored)
            && forall a, r :: Holds(stored, a, r) <==> if a == d.address then r == d.rules else Holds(deltas, a, r)
  {
    var next := if i < |deltas| && deltas[i].address == d.address then i + 1 else i;
    var stored := deltas[..i] + [d] + deltas[next..];
    forall a, r
      ensures Holds(stored, a, r) <==> if a == d.address then r == d.rules else Holds(deltas, a, r)
    {
      StoredMember(deltas, i, next, d, DeltaRecord(a, r));
    }
  }

  lemma StoredMember(deltas: seq<DeltaRecord>, i: nat, next: nat, d: DeltaRecord, x: DeltaRecord)
    requires i <= next <= |deltas|
    requires forall k :: 0 <= k < i ==> deltas[k].address < d.address
    requires forall k :: i <= k < next ==> deltas[k].address == d.address
    requires forall k :: next <= k < |deltas| ==> d.address < deltas[k].address
    ensures x in deltas[..i] + [d] + deltas[next..] <==> if x.address == d.address then x == d else x in deltas
  {
    assert deltas == deltas[..i] + deltas[i..next] + deltas[next..];
    assert x in deltas <==> x in deltas[..i] || x in deltas[i..next] || x in deltas[next..];
  }

  lemma {:induction false} WindowOfBelow(deltas: seq<DeltaRecord>, from: nat, to: nat)
    requires forall k :: 0 <= k < |deltas| ==> deltas[k].address < from || to < deltas[k].address
    ensures Window(deltas, from, to) == []
    decreases |deltas|
  {
    if deltas != [] {
      WindowOfBelow(deltas[..|deltas| - 1], from, to);
    }
  }

  lemma {:induction false} WindowConcat(a: seq<DeltaRecord>, b: seq<DeltaRecord>, from: nat, to: nat)
    ensures Window(a + b, from, to) == Window(a, from, to) + Window(b, from, to)
    decreases |b|
  {
    if b == [] {
      assert a + b == a;
    } else {
      assert (a + b)[..|a + b| - 1] == a + b[..|b| - 1];
      WindowConcat(a, b[..|b| - 1], from, to);
    }
  }

  lemma ReportsGrow(deltas: seq<DeltaRecord>, i: nat, from: nat, to: nat, reports: seq<Rule>)
    requires i < |deltas| && from <= deltas[i].address <= to
    ensures ApplyAll(ApplyAll(NO_RULES, reports + Reports(Window(deltas[..i], from, to))), RulesOf(deltas[i].rules))
         == ApplyAll(NO_RULES, reports + Reports(Window(deltas[..i + 1], from, to)))
  {
    assert deltas[..i + 1][..i] == deltas[..i];
    var before := Window(deltas[..i], from, to);
    assert (before + [deltas[i]])[..|before|] == before;
    assert reports + (Reports(before) + RulesOf(deltas[i].rules)) == reports + Reports(before) + RulesOf(deltas[i].rules);
    ApplyAllConcat(NO_RULES, reports + Reports(before), RulesOf(deltas[i].rules));
  }

  lemma WindowOfRest(deltas: seq<DeltaRecord>, i: nat, from: nat, to: nat)
    requires InOrder(deltas) && i <= |deltas| && (i < |deltas| ==> to < deltas[i].address)
    ensures Window(deltas[..i], from, to) == Window(deltas, from, to)
  {
    assert deltas == deltas[..i] + deltas[i..];
    WindowOfBelow(deltas[i..], from, to);
    WindowConcat(deltas[..i], deltas[i..], from, to);
  }

  // ----- Latest mention wins -----

  function Lookup(s: RuleSet, name: string): Option<string> {
    if name == ".cfa" then (if s.cfa == "" then None else Some(s.cfa))
    else if name == ".ra" then (if s.ra == "" then None else Some(s.ra))
    else if name in s.registers then Some(s.registers[name])
    else None
  }

  ghost predicate Mentions(rules: seq<Rule>, name: string) {
    exists k :: 0 <= k < |rules| && rules[k].name == name
  }

  /** The last rule in a list that names the register. */
  ghost predicate LastMention(rules: seq<Rule>, name: string, k: nat) {
    k < |rules| && rules[k].name == name && forall j :: k < j < |rules| ==> rules[j].name != name
  }

  lemma {:induction false} LastMentionWins(rules: seq<Rule>, name: string)
    requires forall k :: 0 <= k < |rules| ==> rules[k].expression != ""
    ensures Lookup(ApplyAll(NO_RULES, rules), name).Some? <==> Mentions(rules, name)
    ensures forall k: nat :: LastMention(rules, name, k) ==> Lookup(ApplyAll(NO_RULES, rules), name) == Some(rules[k].expression)
    decreases |rules|
  {
    if rules != [] {
      var init, last := rules[..|rules| - 1], rules[|rules| - 1];
      LastMentionWins(init, name);
      ApplyLast(ApplyAll(NO_RULES, init), last, name);
      if last.name != name {
        SameMentions(init, last, name);
        assert rules == init + [last];
        hide ApplyAll, Lookup, Mentions;
      } else {
        assert Mentions(rules, name);
        assert forall k: nat :: LastMention(rules, name, k) ==> k == |rules| - 1;
        hide Lookup, Mentions;
      }
    }
  }

  lemma ApplyLast(s: RuleSet, r: Rule, name: string)
    requires r.expression != ""
    ensures Lookup(Apply(s, r), name) == if r.name == name then Some(r.expression) else Lookup(s, name)
  {
  }

  lemma SameMentions(rules: seq<Rule>, r: Rule, name: string)
    requires r.name != name
    ensures Mentions(rules + [r], name) <==> Mentions(rules, name)
    ensures forall k: nat :: LastMention(rules + [r], name, k) ==> LastMention(rules, name, k) && (rules + [r])[k] == rules[k]
  {
    var all := rules + [r];
    assert forall k :: 0 <= k < |rules| ==> all[k] == rules[k];
  }

  /** Reported rules never have an empty expression. */
  lemma {:induction false} ReportedExpressions(tokens: seq<string>, name: string, expression: string)
    ensures forall k :: 0 <= k < |Outcome(tokens, name, expression).1| ==> Outcome(tokens, name, expression).1[k].expression != ""
    decreases |tokens|
  {
    if tokens != [] {
      if !IsNameToken(tokens[0]) {
        ReportedExpressions(tokens[1..], name, Extend(expression, tokens[0]));
      } else {
        ReportedExpressions(tokens[1..], tokens[0][..|tokens[0]| - 1], "");
      }
    }
  }

  lemma {:induction false} ReportsHaveExpressions(deltas: seq<DeltaRecord>)
    ensures forall k :: 0 <= k < |Reports(deltas)| ==> Reports(deltas)[k].expression != ""
    decreases |deltas|
  {
    if deltas != [] {
      ReportsHaveExpressions(deltas[..|deltas| - 1]);
      ReportedExpressions(Tokens(CString(deltas[|deltas| - 1].rules)), "", "");
    }
  }

  /** The delta record of a list that is the last to name a register. */
  ghost predicate LastToName(deltas: seq<DeltaRecord>, d: nat, name: string) {
    && d < |deltas|
    && Mentions(RulesOf(deltas[d].rules), name)
    && forall j :: d < j < |deltas| ==> !Mentions(RulesOf(deltas[j].rules), name)
  }

  ghost predicate NoneNames(deltas: seq<DeltaRecord>, name: string) {
    forall j :: 0 <= j < |deltas| ==> !Mentions(RulesOf(deltas[j].rules), name)
  }

  lemma {:induction false} WindowMember(deltas: seq<DeltaRecord>, from: nat, to: nat, d: DeltaRecord)
    ensures d in Window(deltas, from, to) <==> d in deltas && from <= d.address <= to
    decreases |deltas|
  {
    if deltas != [] {
      var n := |deltas| - 1;
      WindowMember(deltas[..n], from, to, d);
      assert d in deltas <==> d in deltas[..n] || d == deltas[n];
    }
  }

  lemma {:induction false} LastDeltaDecides(deltas: seq<DeltaRecord>, d: nat, name: string, k: nat)
    requires LastToName(deltas, d, name) && LastMention(RulesOf(deltas[d].rules), name, k)
    ensures exists i: nat :: LastMention(Reports(deltas), name, i) && Reports(deltas)[i] == RulesOf(deltas[d].rules)[k]
    decreases |deltas|
  {
    hide RulesOf;
    var n := |deltas| - 1;
    var before, last := Reports(deltas[..n]), RulesOf(deltas[n].rules);
    assert Reports(deltas) == before + last;
    if d == n {
      LastMentionOfSuffix(before, last, name, k);
    } else {
      LastDeltaDecides(deltas[..n], d, name, k);
      var i: nat :| LastMention(before, name, i) && before[i] == RulesOf(deltas[d].rules)[k];
      assert LastMention(Reports(deltas), name, i) && Reports(deltas)[i] == before[i];
    }
  }

  lemma {:induction false} UnnamedByDeltas(deltas: seq<DeltaRecord>, name: string)
    requires NoneNames(deltas, name)
    ensures !Mentions(Reports(deltas), name)
    decreases |deltas|
  {
    if deltas != [] {
      UnnamedByDeltas(deltas[..|deltas| - 1], name);
    }
  }

  /** The reports behind the rules at an address: those of the INIT record, then those of the deltas up to it. */
  ghost function AllReports(inits: seq<InitRecord>, deltas: seq<DeltaRecord>, address: nat): seq<Rule>
    requires Covering(inits, address).Some?
  {
    var init := Covering(inits, address).value;
    RulesOf(init.rules) + Reports(DeltasUpTo(init, deltas, address))
  }

  lemma LookupAt(inits: seq<InitRecord>, deltas: seq<DeltaRecord>, address: nat, name: string)
    requires RulesAt(inits, deltas, address).Some?
    ensures var all := AllReports(inits, deltas, address);
            var found := Lookup(RulesAt(inits, deltas, address).value, name);
            && (found.Some? <==> Mentions(all, name))
            && forall k: nat :: LastMention(all, name, k) ==> found == Some(all[k].expression)
  {
    var init := Covering(inits, address).value;
    ReportedExpressions(Tokens(CString(init.rules)), "", "");
    ReportsHaveExpressions(DeltasUpTo(init, deltas, address));
    LastMentionWins(AllReports(inits, deltas, address), name);
  }

  /** The delta applies at the address: it lies between the INIT record's start and the address. */
  predicate AppliesAt(init: InitRecord, d: DeltaRecord, address: nat) {
    init.base <= d.address <= address
  }

  lemma {:induction false} WindowInOrder(deltas: seq<DeltaRecord>, from: nat, to: nat)
    requires InOrder(deltas)
    ensures InOrder(Window(deltas, from, to))
    decreases |deltas|
  {
    if deltas != [] {
      var n := |deltas| - 1;
      WindowInOrder(deltas[..n], from, to);
      forall d | d in Window(deltas[..n], from, to) ensures d.address < deltas[n].address {
        WindowMember(deltas[..n], from, to, d);
      }
      assert forall k :: 0 <= k < |Window(deltas[..n], from, to)| ==> Window(deltas[..n], from, to)[k] in Window(deltas[..n], from, to);
    }
  }

  /** Where in the window the delta with the highest address that names the register stands. */
  lemma HighestIsLast(deltas: seq<DeltaRecord>, from: nat, to: nat, name: string, d: DeltaRecord) returns (i: nat)
    requires InOrder(deltas) && d in deltas && from <= d.address <= to && Mentions(RulesOf(d.rules), name)
    requires forall e :: e in deltas && d.address < e.address <= to ==> !Mentions(RulesOf(e.rules), name)
    ensures LastToName(Window(deltas, from, to), i, name) && Window(deltas, from, to)[i] == d
  {
    hide RulesOf, Window;
    var window := Window(deltas, from, to);
    WindowMember(deltas, from, to, d);
    WindowInOrder(deltas, from, to);
    i :| 0 <= i < |window| && window[i] == d;
    forall j | i < j < |window| ensures !Mentions(RulesOf(window[j].rules), name) {
      WindowMember(deltas, from, to, window[j]);
    }
  }

  /**
   * The rule in force for a register at a covered address is the last one in the
   * delta that names it with the highest address in [initial base, address] ...
   */
  lemma LatestDeltaWins(inits: seq<InitRecord>, deltas: seq<DeltaRecord>, address: nat, name: string, d: DeltaRecord, k: nat)
    requires RulesAt(inits, deltas, address).Some? && InOrder(deltas)
    requires d in deltas && AppliesAt(Covering(inits, address).value, d, address)
    requires LastMention(RulesOf(d.rules), name, k)
    requires forall e :: e in deltas && d.address < e.address <= address ==> !Mentions(RulesOf(e.rules), name)
    ensures Lookup(RulesAt(inits, deltas, address).value, name) == Some(RulesOf(d.rules)[k].expression)
  {
    var init := Covering(inits, address).value;
    var window := DeltasUpTo(init, deltas, address);
    var first := RulesOf(init.rules);
    LookupAt(inits, deltas, address, name);
    var at := HighestIsLast(deltas, init.base, address, name, d);
    LastDeltaDecides(window, at, name, k);
    hide RulesAt, DeltasUpTo, RulesOf, Reports, Lookup, LastToName;
    var i: nat :| LastMention(Reports(window), name, i) && Reports(window)[i] == RulesOf(d.rules)[k];
    LastMentionOfSuffix(first, Reports(window), name, i);
  }

  lemma LastMentionOfSuffix(first: seq<Rule>, later: seq<Rule>, name: string, i: nat)
    requires LastMention(later, name, i)
    ensures LastMention(first + later, name, |first| + i) && (first + later)[|first| + i] == later[i]
  {
    forall j | |first| + i < j < |first + later| ensures (first + later)[j].name != name {
      assert (first + later)[j] == later[j - |first|];
    }
  }

  /** ... else the last one in the INIT record, and there is none if that does not name it either. */
  lemma InitRuleElse(inits: seq<InitRecord>, deltas: seq<DeltaRecord>, address: nat, name: string)
    requires RulesAt(inits, deltas, address).Some?
    requires forall e :: e in deltas && AppliesAt(Covering(inits, address).value, e, address) ==> !Mentions(RulesOf(e.rules), name)
    ensures var first := RulesOf(Covering(inits, address).value.rules);
            var found := Lookup(RulesAt(inits, deltas, address).value, name);
            && (found.Some? <==> Mentions(first, name))
            && forall k: nat :: LastMention(first, name, k) ==> found == Some(first[k].expression)
  {
    var init := Covering(inits, address).value;
    var later := Reports(DeltasUpTo(init, deltas, address));
    var first := RulesOf(init.rules);
    LookupAt(inits, deltas, address, name);
    var window := DeltasUpTo(init, deltas, address);
    forall j | 0 <= j < |window| ensures !Mentions(RulesOf(window[j].rules), name) {
      WindowMember(deltas, init.base, address, window[j]);
    }
    UnnamedByDeltas(window, name);
    hide RulesAt, DeltasUpTo, RulesOf, Reports, Lookup;
    MentionsOfPrefix(first, later, name);
  }

  lemma MentionsOfPrefix(first: seq<Rule>, later: seq<Rule>, name: string)
    requires !Mentions(later, name)
    ensures Mentions(first + later, name) <==> Mentions(first, name)
    ensures forall k: nat :: LastMention(first, name, k) ==> LastMention(first + later, name, k) && (first + later)[k] == first[k]
  {
    var all := first + later;
    assert forall k :: 0 <= k < |first| ==> all[k] == first[k];
    assert forall k :: |first| <= k < |all| ==> all[k] == later[k - |first|];
  }

  /** Between two addresses of one INIT record without a delta in between the rules do not change. */
  lemma SameRulesBetweenDeltas(inits: seq<InitRecord>, deltas: seq<DeltaRecord>, a: nat, b: nat)
    requires DisjointRanges(inits) && InOrder(deltas) && a <= b
    requires Covering(inits, a).Some? && Covering(inits, a).value.Covers(b)
    requires forall k :: 0 <= k < |deltas| ==> !(a < deltas[k].address <= b)
    ensures RulesAt(inits, deltas, a) == RulesAt(inits, deltas, b)
  {
    CoveringIsUnique(inits, Covering(inits, a).value, b);
    SameWindow(deltas, Covering(inits, a).value.base, a, b);
  }

  lemma {:induction false} SameWindow(deltas: seq<DeltaRecord>, from: nat, a: nat, b: nat)
    requires a <= b && forall k :: 0 <= k < |deltas| ==> !(a < deltas[k].address <= b)
    ensures Window(deltas, from, a) == Window(deltas, from, b)
    decreases |deltas|
  {
    if deltas != [] {
      SameWindow(deltas[..|deltas| - 1], from, a, b);
    }
  }

  /** Disjoint ranges: whichever record covers the address is the one that is found. */
  lemma {:induction false} CoveringIsUnique(inits: seq<InitRecord>, record: InitRecord, address: nat)
    requires DisjointRanges(inits) && record in inits && record.Covers(address)
    ensures Covering(inits, address) == Some(record)
    decreases |inits|
  {
    if !inits[0].Covers(address) {
      assert record in inits[1..];
      CoveringIsUnique(inits[1..], record, address);
    }
  }
}
