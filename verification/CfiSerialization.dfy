/** Parsing the serialized text of a rule set restores it, exactly when the rule set could have been parsed. */
module CfiSerialization {
  import opened CfiRules
  import opened CStrings

  ghost predicate NoNul(s: string) {
    forall k :: 0 <= k < |s| ==> s[k] != '\0'
  }

  ghost predicate GoodName(name: string) {
    name != "" && NoBreaks(name) && NoNul(name)
  }

  /** Tokens joined by single spaces, none of which looks like a name. */
  ghost predicate GoodExpression(e: string) {
    && NoNul(e)
    && Tokens(e) != []
    && e == ExpressionOf(Tokens(e))
    && forall k :: 0 <= k < |Tokens(e)| ==> !IsNameToken(Tokens(e)[k])
  }

  ghost predicate GoodRule(r: Rule) {
    GoodName(r.name) && GoodExpression(r.expression)
  }

  ghost predicate GoodRules(s: RuleSet) {
    && (s.cfa == "" || GoodExpression(s.cfa))
    && (s.ra == "" || GoodExpression(s.ra))
    && forall n :: n in s.registers ==> GoodRule(Rule(n, s.registers[n])) && n != ".cfa" && n != ".ra"
  }

  // ----- From rules to text and back -----

  lemma {:induction false} TokensOfExpression(tokens: seq<string>)
    requires forall k :: 0 <= k < |tokens| ==> tokens[k] != "" && NoBreaks(tokens[k])
    ensures Tokens(ExpressionOf(tokens)) == tokens
    decreases |tokens|
  {
    if tokens != [] {
      var init, last := tokens[..|tokens| - 1], tokens[|tokens| - 1];
      TokensOfExpression(init);
      TokensOfSingle(last);
      if init != [] {
        ExpressionNotEmpty(init);
        TokensSplit(ExpressionOf(init), last);
      }
      assert tokens == init + [last];
    }
  }

  function ToEntry(r: Rule): Entry {
    Entry(r.name, Tokens(r.expression))
  }

  function ToEntries(rules: seq<Rule>): (entries: seq<Entry>)
    ensures |entries| == |rules|
  {
    seq(|rules|, k requires 0 <= k < |rules| => ToEntry(rules[k]))
  }

  lemma {:induction false} WrittenAppend(a: seq<Entry>, b: seq<Entry>)
    ensures Written(a + b) == Written(a) + Written(b)
    decreases |a|
  {
    if a == [] {
      assert a + b == b;
    } else {
      assert (a + b)[1..] == a[1..] + b;
      WrittenAppend(a[1..], b);
    }
  }

  /** What a good rule gives the parser to read. */
  lemma GoodRuleParts(r: Rule)
    requires GoodRule(r)
    ensures r.name != "" && NoBreaks(r.name + ":") && NoNul(r.name) && NoNul(r.expression)
    ensures ToEntry(r).Valid() && ToEntry(r).ToRule() == r
  {
    assert forall k :: 0 <= k < |r.name| ==> (r.name + ":")[k] == r.name[k];
  }

  lemma TokensOfText(r: Rule)
    requires GoodRule(r)
    ensures Tokens(Text(r)) == Written([ToEntry(r)])
  {
    hide GoodRule, NoBreaks, Tokens, NoNul, Entry.Valid, Entry.ToRule;
    GoodRuleParts(r);
    TokensSplit(r.name + ":", r.expression);
    TokensOfSingle(r.name + ":");
    assert Text(r) == r.name + ":" + " " + r.expression;
    assert [ToEntry(r)][1..] == [];
  }

  lemma JoinedUnfolds(rules: seq<Rule>)
    requires rules != []
    ensures var init, last := rules[..|rules| - 1], rules[|rules| - 1];
            Joined(rules) == if init == [] then Text(last) else Joined(init) + " " + Text(last)
  {
    hide Text;
  }

  lemma {:induction false} TokensOfJoined(rules: seq<Rule>)
    requires forall k :: 0 <= k < |rules| ==> GoodRule(rules[k])
    ensures Tokens(Joined(rules)) == Written(ToEntries(rules))
    decreases |rules|
  {
    hide GoodRule, Tokens, Joined, Text, Written, ToEntry;
    if rules == [] {
      NothingJoined();
      assert ToEntries(rules) == [];
    } else {
      var init, last := rules[..|rules| - 1], rules[|rules| - 1];
      JoinedUnfolds(rules);
      TokensOfText(last);
      assert ToEntries(rules) == ToEntries(init) + [ToEntry(last)];
      if init == [] {
        assert ToEntries(rules) == [ToEntry(last)];
      } else {
        WrittenAppend(ToEntries(init), [ToEntry(last)]);
        TokensOfJoined(init);
        TokensSplit(Joined(init), Text(last));
      }
    }
  }

  lemma NothingJoined()
    ensures Tokens(Joined([])) == Written([])
  {
  }

  lemma {:induction false} JoinedHasNoNul(rules: seq<Rule>)
    requires forall k :: 0 <= k < |rules| ==> GoodRule(rules[k])
    ensures NoNul(Joined(rules))
    decreases |rules|
  {
    hide GoodRule, Text, ToEntry;
    if rules != [] {
      TextHasNoNul(rules[|rules| - 1]);
      JoinedHasNoNul(rules[..|rules| - 1]);
      JoinedUnfolds(rules);
    }
  }

  lemma TextHasNoNul(r: Rule)
    requires GoodRule(r)
    ensures NoNul(Text(r))
  {
    hide GoodRule, ToEntry;
    GoodRuleParts(r);
  }

  /** Writing good rules and parsing the text reports exactly those rules. */
  lemma JoinedIsParsed(rules: seq<Rule>)
    requires rules != [] && forall k :: 0 <= k < |rules| ==> GoodRule(rules[k])
    ensures CfiRules.Parsed(Joined(rules)) == (true, rules)
  {
    hide GoodRule, Joined, Tokens, Written, Outcome, ToEntry, Entry.Valid, Entry.ToRule;
    JoinedHasNoNul(rules);
    TokensOfJoined(rules);
    var entries := ToEntries(rules);
    forall k | 0 <= k < |entries| ensures entries[k].Valid() && entries[k].ToRule() == rules[k] {
      GoodRuleParts(rules[k]);
    }
    WrittenIsAccepted(entries);
    assert ToRules(entries) == rules;
    WholeText(Joined(rules));
  }

  lemma WholeText(s: string)
    requires NoNul(s)
    ensures CString(s) == s
  {
  }

  lemma {:induction false} RegisterRulesRestore(registers: map<string, string>, order: seq<string>, start: RuleSet)
    requires forall k :: 0 <= k < |order| ==> order[k] in registers && order[k] != ".cfa" && order[k] != ".ra"
    requires start.registers == map[]
    ensures var done := ApplyAll(start, RegisterRules(registers, order));
            && done.cfa == start.cfa && done.ra == start.ra
            && done.registers == map n | n in registers && n in order :: registers[n]
    decreases |order|
  {
    if order != [] {
      var init, last := order[..|order| - 1], order[|order| - 1];
      RegisterRulesRestore(registers, init, start);
      var rules := RegisterRules(registers, order);
      assert rules[..|rules| - 1] == RegisterRules(registers, init);
      assert forall n :: n in order <==> n in init || n == last;
    }
  }

  lemma {:induction false} RegisterRulesAreGood(s: RuleSet, order: seq<string>)
    requires GoodRules(s) && forall k :: 0 <= k < |order| ==> order[k] in s.registers
    ensures |RegisterRules(s.registers, order)| == |order|
    ensures forall k :: 0 <= k < |order| ==> GoodRule(RegisterRules(s.registers, order)[k])
    decreases |order|
  {
    if order != [] {
      RegisterRulesAreGood(s, order[..|order| - 1]);
    }
  }

  lemma SpecialNamesAreGood()
    ensures GoodName(".cfa") && GoodName(".ra")
  {
  }

  lemma AllRulesAreGood(s: RuleSet, order: seq<string>)
    requires Enumerates(order, s.registers) && GoodRules(s) && s != NO_RULES
    ensures var rules := SpecialRules(s) + RegisterRules(s.registers, order);
            rules != [] && forall k :: 0 <= k < |rules| ==> GoodRule(rules[k])
  {
    SpecialNamesAreGood();
    hide GoodRule;
    RegisterRulesAreGood(s, order);
    SpecialRulesAreGood(s);
    if order == [] {
      assert s.registers == map[];
    }
  }

  lemma SpecialRulesAreGood(s: RuleSet)
    requires GoodRules(s)
    ensures forall k :: 0 <= k < |SpecialRules(s)| ==> GoodRule(SpecialRules(s)[k])
  {
    SpecialNamesAreGood();
  }

  lemma GoodRulesRoundTrip(s: RuleSet, order: seq<string>)
    requires Enumerates(order, s.registers) && GoodRules(s) && s != NO_RULES
    ensures var (accepted, rules) := CfiRules.Parsed(Serialized(s, order));
            accepted && ApplyAll(NO_RULES, rules) == s
  {
    AllRulesAreGood(s, order);
    RegistersAreEnumerated(s.registers, order);
    assert forall k :: 0 <= k < |order| ==> order[k] in s.registers && order[k] != ".cfa" && order[k] != ".ra";
    var special, registers := SpecialRules(s), RegisterRules(s.registers, order);
    hide SpecialRules, RegisterRules, GoodRule, GoodRules, ApplyAll, Joined, Enumerates;
    JoinedIsParsed(special + registers);
    ApplyAllConcat(NO_RULES, special, registers);
    SpecialRulesRestore(s);
    RegisterRulesRestore(s.registers, order, ApplyAll(NO_RULES, special));
  }

  lemma RegistersAreEnumerated(registers: map<string, string>, order: seq<string>)
    requires Enumerates(order, registers)
    ensures registers == map n | n in registers && n in order :: registers[n]
  {
  }

  lemma SpecialRulesRestore(s: RuleSet)
    ensures ApplyAll(NO_RULES, SpecialRules(s)) == RuleSet(s.cfa, s.ra, map[])
  {
    var cfa := if s.cfa == "" then [] else [Rule(".cfa", s.cfa)];
    var ra := if s.ra == "" then [] else [Rule(".ra", s.ra)];
    ApplyAllConcat(NO_RULES, cfa, ra);
    assert ApplyAll(NO_RULES, cfa) == RuleSet(s.cfa, "", map[]);
  }

  // ----- Whatever was parsed is good -----

  lemma {:induction false} ExpressionHasNoNul(tokens: seq<string>)
    requires forall k :: 0 <= k < |tokens| ==> NoNul(tokens[k])
    ensures NoNul(ExpressionOf(tokens))
    decreases |tokens|
  {
    if tokens != [] {
      ExpressionHasNoNul(tokens[..|tokens| - 1]);
    }
  }

  lemma {:induction false} TokensHaveNoNul(s: string)
    requires NoNul(s)
    ensures forall k :: 0 <= k < |Tokens(s)| ==> NoNul(Tokens(s)[k])
    decreases |s|
  {
    if s != "" {
      if IsBreak(s[0]) {
        assert Tokens(s) == Tokens(s[1..]);
        TokensHaveNoNul(s[1..]);
      } else {
        TokensHaveNoNul(s[TokenLength(s)..]);
      }
    }
  }

  lemma {:induction false} WrittenTokens(entries: seq<Entry>, k: nat)
    requires k < |entries|
    ensures entries[k].name + ":" in Written(entries)
    ensures forall t :: t in entries[k].tokens ==> t in Written(entries)
    decreases |entries|
  {
    if k > 0 {
      WrittenTokens(entries[1..], k - 1);
    }
  }

  lemma EntryRuleIsGood(e: Entry)
    requires e.Valid() && NoBreaks(e.name + ":") && NoNul(e.name + ":")
    requires forall i :: 0 <= i < |e.tokens| ==> NoBreaks(e.tokens[i]) && NoNul(e.tokens[i])
    ensures GoodRule(e.ToRule())
  {
    assert forall i :: 0 <= i < |e.name| ==> e.name[i] == (e.name + ":")[i];
    TokensOfExpression(e.tokens);
    ExpressionHasNoNul(e.tokens);
  }

  /** Every rule an accepted text reports has a good name and a good expression. */
  lemma ParsedRulesAreGood(text: string)
    requires CfiRules.Parsed(text).0
    ensures CfiRules.Parsed(text).1 != []
    ensures forall k :: 0 <= k < |CfiRules.Parsed(text).1| ==> GoodRule(CfiRules.Parsed(text).1[k])
  {
    hide GoodRule, NoBreaks, NoNul, Written, Outcome, ExpressionOf, Entry.ToRule, Entry.Valid, CString;
    var tokens := Tokens(CString(text));
    CStringHasNoNul(text);
    TokensHaveNoNul(CString(text));
    var entries := AcceptedIsWritten(tokens);
    forall k | 0 <= k < |entries| ensures GoodRule(ToRules(entries)[k]) {
      var e := entries[k];
      WrittenTokens(entries, k);
      forall t | t in tokens ensures NoBreaks(t) && NoNul(t) {
      }
      forall i | 0 <= i < |e.tokens| ensures NoBreaks(e.tokens[i]) && NoNul(e.tokens[i]) {
        assert e.tokens[i] in Written(entries);
      }
      EntryRuleIsGood(e);
    }
  }

  lemma CStringHasNoNul(text: string)
    ensures NoNul(CString(text))
  {
  }

  lemma GoodExpressionIsNotEmpty(e: string)
    requires GoodExpression(e)
    ensures e != ""
  {
    assert Tokens("") == [];
  }

  lemma ApplyKeepsGood(s: RuleSet, r: Rule)
    requires GoodRules(s) && GoodRule(r)
    ensures GoodRules(Apply(s, r)) && Apply(s, r) != NO_RULES
  {
    hide GoodName, GoodExpression;
    GoodExpressionIsNotEmpty(r.expression);
    assert r.name != ".cfa" && r.name != ".ra" ==> r.name in Apply(s, r).registers;
  }

  lemma {:induction false} AppliedRulesAreGood(rules: seq<Rule>)
    requires forall k :: 0 <= k < |rules| ==> GoodRule(rules[k])
    ensures GoodRules(ApplyAll(NO_RULES, rules))
    ensures rules != [] ==> ApplyAll(NO_RULES, rules) != NO_RULES
    decreases |rules|
  {
    hide GoodRule, Apply;
    if rules != [] {
      AppliedRulesAreGood(rules[..|rules| - 1]);
      ApplyKeepsGood(ApplyAll(NO_RULES, rules[..|rules| - 1]), rules[|rules| - 1]);
    }
  }

  /**
   * Parsing what was serialized restores the rule set exactly when it is not empty,
   * its register names are non-empty, free of breaks and NULs and not ".cfa" or
   * ".ra", and its expressions are single-space-joined tokens not ending in ':';
   * whatever order the registers are written in.
   */
  lemma ParseRestoresSerialized(s: RuleSet, order: seq<string>)
    requires Enumerates(order, s.registers)
    ensures (var (accepted, rules) := CfiRules.Parsed(Serialized(s, order));
             accepted && ApplyAll(NO_RULES, rules) == s)
       <==> s != NO_RULES && GoodRules(s)
  {
    var (accepted, rules) := CfiRules.Parsed(Serialized(s, order));
    if accepted {
      ParsedRulesAreGood(Serialized(s, order));
      AppliedRulesAreGood(rules);
    }
    if s != NO_RULES && GoodRules(s) {
      GoodRulesRoundTrip(s, order);
    }
  }
}
