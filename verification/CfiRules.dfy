/**
 * cfi_frame_info.cc: STACK CFI rule sets, their text form, the parser that reports
 * the rules of a text one by one, and the serializer.
 */
module CfiRules {
  import opened Wrappers
  import opened CStrings

  // ----- Tokens -----

  predicate IsBreak(c: char) {
    c == ' ' || c == '\t' || c == '\r' || c == '\n'
  }

  predicate NoBreaks(s: string) {
    forall k :: 0 <= k < |s| ==> !IsBreak(s[k])
  }

  function TokenLength(s: string): (n: nat)
    ensures n <= |s| && NoBreaks(s[..n])
    ensures n < |s| ==> IsBreak(s[n])
  {
    if s == "" || IsBreak(s[0]) then 0 else 1 + TokenLength(s[1..])
  }

  /** One `strtok_r` call: the next token and what is left after it. */
  function NextToken(s: string): (r: Option<(string, string)>)
    ensures r.Some? ==> |r.value.1| < |s| && r.value.0 != "" && NoBreaks(r.value.0)
  {
    if s == "" then None
    else if IsBreak(s[0]) then NextToken(s[1..])
    else
      var n := TokenLength(s);
      Some((s[..n], s[n..]))
  }

  function Tokens(s: string): (ts: seq<string>)
    ensures forall k :: 0 <= k < |ts| ==> ts[k] != "" && NoBreaks(ts[k])
    decreases |s|
  {
    match NextToken(s)
    case None => []
    case Some((token, rest)) => [token] + Tokens(rest)
  }

  lemma TokensOfToken(t: string, rest: string)
    requires t != "" && NoBreaks(t) && (rest == "" || IsBreak(rest[0]))
    ensures NextToken(t + rest) == Some((t, rest))
  {
    LengthOfToken(t, rest);
  }

  lemma {:induction false} LengthOfToken(t: string, rest: string)
    requires NoBreaks(t) && (rest == "" || IsBreak(rest[0]))
    ensures TokenLength(t + rest) == |t|
  {
    if t == "" {
      assert t + rest == rest;
    } else {
      assert (t + rest)[1..] == t[1..] + rest;
      LengthOfToken(t[1..], rest);
    }
  }

  /** A break separates the tokens of two texts. */
  lemma {:induction false} TokensSplitAt(a: string, gap: char, b: string)
    requires IsBreak(gap)
    ensures Tokens(a + [gap] + b) == Tokens(a) + Tokens(b)
    decreases |a|
  {
    var whole := a + [gap] + b;
    if a == "" {
      assert whole[1..] == b;
    } else if IsBreak(a[0]) {
      assert whole[1..] == a[1..] + [gap] + b;
      TokensSplitAt(a[1..], gap, b);
    } else {
      var n := TokenLength(a);
      var t, rest := a[..n], a[n..];
      assert whole == t + (rest + [gap] + b);
      TokensOfToken(t, rest + [gap] + b);
      TokensSplitAt(rest, gap, b);
    }
  }

  lemma TokensSplit(a: string, b: string)
    ensures Tokens(a + " " + b) == Tokens(a) + Tokens(b)
  {
    TokensSplitAt(a, ' ', b);
  }

  lemma TokensOfSingle(t: string)
    requires t != "" && NoBreaks(t)
    ensures Tokens(t) == [t]
  {
    TokensOfToken(t, "");
    assert t + "" == t;
  }

  /** Blanks, tabs and line ends separate tokens and are part of none; other text is a token. */
  lemma TokensMean(a: string, gap: char, b: string)
    ensures Tokens("") == []
    ensures gap in " \t\r\n" ==> Tokens(a + [gap] + b) == Tokens(a) + Tokens(b)
    ensures a != "" && (forall k :: 0 <= k < |a| ==> a[k] !in " \t\r\n") ==> Tokens(a) == [a]
  {
    if gap in " \t\r\n" {
      TokensSplitAt(a, gap, b);
    }
    if a != "" && forall k :: 0 <= k < |a| ==> a[k] !in " \t\r\n" {
      TokensOfSingle(a);
    }
  }

  // ----- Rules -----

  /** A rule as the parser reports it. */
  datatype Rule = Rule(name: string, expression: string)

  /** The rules in force at an address: the fields of a CFIFrameInfo. */
  datatype RuleSet = RuleSet(cfa: string, ra: string, registers: map<string, string>)

  const NO_RULES := RuleSet("", "", map[])

  /** What a handler does with a reported rule. */
  function Apply(s: RuleSet, r: Rule): RuleSet {
    if r.name == ".cfa" then s.(cfa := r.expression)
    else if r.name == ".ra" then s.(ra := r.expression)
    else s.(registers := s.registers[r.name := r.expression])
  }

  function ApplyAll(s: RuleSet, rules: seq<Rule>): RuleSet {
    if rules == [] then s else Apply(ApplyAll(s, rules[..|rules| - 1]), rules[|rules| - 1])
  }

  lemma {:induction false} ApplyAllConcat(s: RuleSet, a: seq<Rule>, b: seq<Rule>)
    ensures ApplyAll(s, a + b) == ApplyAll(ApplyAll(s, a), b)
    decreases |b|
  {
    if b == [] {
      assert a + b == a;
    } else {
      assert (a + b)[..|a + b| - 1] == a + b[..|b| - 1];
      ApplyAllConcat(s, a, b[..|b| - 1]);
    }
  }

  // ----- Parsing -----

  predicate IsNameToken(t: string) {
    t != "" && t[|t| - 1] == ':'
  }

  function Extend(expression: string, token: string): string {
    if expression == "" then token else expression + " " + token
  }

  /**
   * What the parser reports for the remaining tokens, given the pending name and
   * expression, and whether it accepts.
   */
  function Outcome(tokens: seq<string>, name: string, expression: string): (bool, seq<Rule>) {
    if tokens == [] then
      if name == "" || expression == "" then (false, []) else (true, [Rule(name, expression)])
    else if !IsNameToken(tokens[0]) then
      Outcome(tokens[1..], name, Extend(expression, tokens[0]))
    else if |tokens[0]| < 2 then (false, [])
    else
      var next := tokens[0][..|tokens[0]| - 1];
      if name == "" && expression == "" then Outcome(tokens[1..], next, "")
      else if name == "" || expression == "" then (false, [])
      else
        var (accepted, rules) := Outcome(tokens[1..], next, "");
        (accepted, [Rule(name, expression)] + rules)
  }

  function Parsed(text: string): (bool, seq<Rule>) {
    Outcome(Tokens(CString(text)), "", "")
  }

  lemma ApplyAllMore(s: RuleSet, rules: seq<Rule>, r: Rule)
    ensures ApplyAll(s, []) == s
    ensures ApplyAll(s, rules + [r]) == Apply(ApplyAll(s, rules), r)
  {
    assert (rules + [r])[..|rules|] == rules;
  }

  /** Part of the tokens is read: `reports` were handed to the handler, and the rest gives what is left of the outcome. */
  ghost predicate Reading(start: RuleSet, now: RuleSet, whole: (bool, seq<Rule>), reports: seq<Rule>,
                          tokens: seq<string>, name: string, expression: string)
  {
    var rest := Outcome(tokens, name, expression);
    whole == (rest.0, reports + rest.1) && now == ApplyAll(start, reports)
  }

  lemma ReadingStarts(start: RuleSet, tokens: seq<string>)
    ensures Reading(start, start, Outcome(tokens, "", ""), [], tokens, "", "")
  {
    hide Outcome;
    var whole := Outcome(tokens, "", "");
    assert [] + whole.1 == whole.1;
  }

  lemma ReadingEnds(start: RuleSet, now: RuleSet, whole: (bool, seq<Rule>), reports: seq<Rule>, name: string, expression: string)
    requires Reading(start, now, whole, reports, [], name, expression)
    ensures whole.0 <==> name != "" && expression != ""
    ensures ApplyAll(start, whole.1) == if whole.0 then Apply(now, Rule(name, expression)) else now
  {
    hide Apply, ApplyAll;
    ApplyAllMore(start, reports, Rule(name, expression));
    assert reports + [] == reports;
  }

  lemma ReadingFails(start: RuleSet, now: RuleSet, whole: (bool, seq<Rule>), reports: seq<Rule>,
                     tokens: seq<string>, name: string, expression: string)
    requires Reading(start, now, whole, reports, tokens, name, expression) && tokens != [] && IsNameToken(tokens[0])
    requires |tokens[0]| < 2 || (name == "") != (expression == "")
    ensures !whole.0 && ApplyAll(start, whole.1) == now
  {
    hide Apply, ApplyAll;
    assert reports + [] == reports;
  }

  lemma ReadingFirstName(start: RuleSet, now: RuleSet, whole: (bool, seq<Rule>), reports: seq<Rule>, tokens: seq<string>)
    requires Reading(start, now, whole, reports, tokens, "", "") && tokens != []
    requires IsNameToken(tokens[0]) && |tokens[0]| >= 2
    ensures Reading(start, now, whole, reports, tokens[1..], tokens[0][..|tokens[0]| - 1], "")
  {
    hide Apply, ApplyAll;
  }

  lemma ReadingNextName(start: RuleSet, now: RuleSet, whole: (bool, seq<Rule>), reports: seq<Rule>,
                        tokens: seq<string>, name: string, expression: string)
    requires Reading(start, now, whole, reports, tokens, name, expression) && tokens != []
    requires IsNameToken(tokens[0]) && |tokens[0]| >= 2 && name != "" && expression != ""
    ensures Reading(start, Apply(now, Rule(name, expression)), whole, reports + [Rule(name, expression)],
                    tokens[1..], tokens[0][..|tokens[0]| - 1], "")
  {
    hide Apply, ApplyAll;
    var r := Rule(name, expression);
    var later := Outcome(tokens[1..], tokens[0][..|tokens[0]| - 1], "");
    ApplyAllMore(start, reports, r);
    assert Outcome(tokens, name, expression) == (later.0, [r] + later.1);
    assert reports + ([r] + later.1) == reports + [r] + later.1;
  }

  lemma ReadingExpression(start: RuleSet, now: RuleSet, whole: (bool, seq<Rule>), reports: seq<Rule>,
                          tokens: seq<string>, name: string, expression: string)
    requires Reading(start, now, whole, reports, tokens, name, expression) && tokens != [] && !IsNameToken(tokens[0])
    ensures Reading(start, now, whole, reports, tokens[1..], name, Extend(expression, tokens[0]))
  {
    hide Apply, ApplyAll;
  }

  lemma TokensUnfold(s: string)
    ensures Tokens(s) == (match NextToken(s) case None => [] case Some((token, rest)) => [token] + Tokens(rest))
  {
  }

  class CFIFrameInfo {
    var cfaRule: string
    var raRule: string
    var registerRules: map<string, string>

    function Rules(): RuleSet
      reads this
    {
      RuleSet(cfaRule, raRule, registerRules)
    }

    constructor ()
      ensures Rules() == NO_RULES
    {
      cfaRule, raRule, registerRules := "", "", map[];
    }

    method SerializeSpecial() returns (stream: string)
      ensures stream == Joined(SpecialRules(Rules()))
    {
      stream := "";
      if cfaRule != "" {
        stream := stream + (".cfa: " + cfaRule);
      }
      if raRule != "" {
        if |stream| != 0 {
          stream := stream + " ";
        }
        stream := stream + (".ra: " + raRule);
      }
      JoinedSpecialRules(Rules());
    }

    /** Appends every rule to a text, `order` being the iteration order of the register map. */
    method Serialize(order: seq<string>) returns (stream: string)
      requires Enumerates(order, registerRules)
      ensures stream == Serialized(Rules(), order)
    {
      assert forall k :: 0 <= k < |order| ==> order[k] in registerRules;
      hide Joined, Enumerates;
      stream := SerializeSpecial();
      assert SpecialRules(Rules()) + [] == SpecialRules(Rules());
      assert order[..0] == [];
      hide SpecialRules, RegisterRules, Text;
      var i := 0;
      while i < |order|
        invariant 0 <= i <= |order|
        invariant stream == Joined(SpecialRules(Rules()) + RegisterRules(registerRules, order[..i]))
      {
        ghost var before := SpecialRules(Rules()) + RegisterRules(registerRules, order[..i]);
        if |stream| != 0 {
          stream := stream + " ";
        }
        stream := stream + (order[i] + ": " + registerRules[order[i]]);
        RegisterRulesGrow(Rules(), order, i);
        JoinedAppend(before, order[i], registerRules[order[i]]);
        i := i + 1;
      }
      assert order[..|order|] == order;
    }
  }

  class CFIRuleParser {
    var name: string
    var expression: string
    const handler: CFIFrameInfo

    constructor (handler: CFIFrameInfo)
      ensures this.handler == handler
    {
      this.handler := handler;
      name, expression := "", "";
    }

    method Report() returns (reported: bool)
      modifies handler
      ensures reported <==> name != "" && expression != ""
      ensures handler.Rules() == if reported then Apply(old(handler.Rules()), Rule(name, expression)) else old(handler.Rules())
    {
      if name == "" || expression == "" {
        return false;
      }
      if name == ".cfa" {
        handler.cfaRule := expression;
      } else if name == ".ra" {
        handler.raRule := expression;
      } else {
        handler.registerRules := handler.registerRules[name := expression];
      }
      return true;
    }

    method Parse(ruleSet: string) returns (accepted: bool)
      modifies this, handler
      ensures accepted == Parsed(ruleSet).0
      ensures handler.Rules() == ApplyAll(old(handler.Rules()), Parsed(ruleSet).1)
    {
      hide Reading, Outcome, Apply, ApplyAll, Tokens, NextToken, CString, NoBreaks;
      var workingCopy := CString(ruleSet);
      name, expression := "", "";
      var cursor := NextToken(workingCopy);
      ghost var start, whole := handler.Rules(), Parsed(ruleSet);
      ghost var tokens := Tokens(workingCopy);
      ghost var reports := [];
      ReadingStarts(start, tokens);
      TokensUnfold(workingCopy);
      while true
        invariant tokens == if cursor.None? then [] else [cursor.value.0] + Tokens(cursor.value.1)
        invariant Reading(start, handler.Rules(), whole, reports, tokens, name, expression)
        decreases |tokens|
      {
        if cursor.None? {
          ReadingEnds(start, handler.Rules(), whole, reports, name, expression);
          accepted := Report();
          return;
        }
        var token := cursor.value.0;
        if |token| >= 1 && token[|token| - 1] == ':' {
          if |token| < 2 {
            ReadingFails(start, handler.Rules(), whole, reports, tokens, name, expression);
            return false;
          }
          if name != "" || expression != "" {
            if name == "" || expression == "" {
              ReadingFails(start, handler.Rules(), whole, reports, tokens, name, expression);
            } else {
              ReadingNextName(start, handler.Rules(), whole, reports, tokens, name, expression);
            }
            var reported := Report();
            if !reported {
              return false;
            }
            reports := reports + [Rule(name, expression)];
          } else {
            ReadingFirstName(start, handler.Rules(), whole, reports, tokens);
          }
          name := token[..|token| - 1];
          expression := "";
        } else {
          ReadingExpression(start, handler.Rules(), whole, reports, tokens, name, expression);
          assert "" + token == token;
          if expression != "" {
            expression := expression + " ";
          }
          expression := expression + token;
        }
        TokensUnfold(cursor.value.1);
        cursor := NextToken(cursor.value.1);
        tokens := tokens[1..];
      }
    }
  }

  // ----- The grammar the parser accepts -----

  /** A name and the expression tokens that follow it. */
  datatype Entry = Entry(name: string, tokens: seq<string>) {
    predicate Valid() {
      name != "" && tokens != [] && forall k :: 0 <= k < |tokens| ==> tokens[k] != "" && !IsNameToken(tokens[k])
    }

    function ToRule(): Rule {
      Rule(name, ExpressionOf(tokens))
    }
  }

  /** The expression that the tokens build up, one after the other. */
  function ExpressionOf(tokens: seq<string>): string {
    if tokens == [] then "" else Extend(ExpressionOf(tokens[..|tokens| - 1]), tokens[|tokens| - 1])
  }

  function Written(entries: seq<Entry>): seq<string> {
    if entries == [] then []
    else [entries[0].name + ":"] + entries[0].tokens + Written(entries[1..])
  }

  function ToRules(entries: seq<Entry>): (rules: seq<Rule>)
    ensures |rules| == |entries|
  {
    seq(|entries|, k requires 0 <= k < |entries| => entries[k].ToRule())
  }

  ghost predicate AllValid(entries: seq<Entry>) {
    forall k :: 0 <= k < |entries| ==> entries[k].Valid()
  }

  lemma ExpressionNotEmpty(tokens: seq<string>)
    requires forall k :: 0 <= k < |tokens| ==> tokens[k] != ""
    ensures ExpressionOf(tokens) == "" <==> tokens == []
  {
  }

  lemma ExpressionMore(tokens: seq<string>, token: string)
    ensures ExpressionOf(tokens + [token]) == Extend(ExpressionOf(tokens), token)
  {
    assert (tokens + [token])[..|tokens|] == tokens;
  }

  /** An expression is its tokens with single blanks in between. */
  lemma {:induction false} ExpressionIsJoined(tokens: seq<string>)
    requires forall k :: 0 <= k < |tokens| ==> tokens[k] != ""
    ensures ExpressionOf(tokens) == Join(tokens, ' ')
    decreases |tokens|
  {
    if |tokens| >= 2 {
      var n := |tokens| - 1;
      ExpressionIsJoined(tokens[..n]);
      ExpressionNotEmpty(tokens[..n]);
      JoinAppend(tokens[..n], tokens[n], ' ');
      assert tokens == tokens[..n] + [tokens[n]];
    }
  }

  /** Expression tokens accumulate into the pending expression. */
  lemma {:induction false} ExpressionTokens(before: seq<string>, tokens: seq<string>, rest: seq<string>, name: string)
    requires forall k :: 0 <= k < |tokens| ==> !IsNameToken(tokens[k])
    ensures Outcome(tokens + rest, name, ExpressionOf(before)) == Outcome(rest, name, ExpressionOf(before + tokens))
    decreases |tokens|
  {
    if tokens == [] {
      assert tokens + rest == rest && before + tokens == before;
    } else {
      var more := before + [tokens[0]];
      ExpressionMore(before, tokens[0]);
      assert (tokens + rest)[1..] == tokens[1..] + rest;
      assert more + tokens[1..] == before + tokens;
      ExpressionTokens(more, tokens[1..], rest, name);
    }
  }

  lemma NameToken(name: string)
    requires name != ""
    ensures IsNameToken(name + ":") && (name + ":")[..|name + ":"| - 1] == name && |name + ":"| >= 2
  {
  }

  /** A name token starts a new entry, whose expression tokens come next. */
  lemma EntryIsRead(entries: seq<Entry>)
    requires entries != [] && AllValid(entries)
    ensures var first := entries[0];
            && Written(entries) != [] && Written(entries)[0] == first.name + ":"
            && Outcome(Written(entries)[1..], first.name, "") == Outcome(Written(entries[1..]), first.name, ExpressionOf(first.tokens))
  {
    hide Outcome, Written, ExpressionOf, IsNameToken;
    var first := entries[0];
    var rest := Written(entries[1..]);
    WrittenUnfolds(entries);
    NoEntries();
    NothingBefore(first.tokens);
    assert first.Valid();
    ExpressionTokens([], first.tokens, rest, first.name);
  }

  lemma WrittenUnfolds(entries: seq<Entry>)
    requires entries != []
    ensures Written(entries) != [] && Written(entries)[0] == entries[0].name + ":"
    ensures Written(entries)[1..] == entries[0].tokens + Written(entries[1..])
  {
    FirstAndRest(entries[0].name + ":", entries[0].tokens, Written(entries[1..]));
  }

  lemma FirstAndRest<T>(first: T, middle: seq<T>, last: seq<T>)
    ensures ([first] + middle + last)[0] == first && ([first] + middle + last)[1..] == middle + last
  {
  }

  lemma NothingBefore<T>(s: seq<T>)
    ensures [] + s == s
  {
  }

  lemma RulesOfEntries(entries: seq<Entry>)
    requires entries != []
    ensures ToRules(entries) == [entries[0].ToRule()] + ToRules(entries[1..])
  {
  }

  lemma {:induction false} WrittenIsAcceptedAfter(e: Entry, entries: seq<Entry>)
    requires e.Valid() && AllValid(entries)
    ensures Outcome(Written(entries), e.name, ExpressionOf(e.tokens)) == (true, [e.ToRule()] + ToRules(entries))
    decreases |entries|
  {
    ExpressionNotEmpty(e.tokens);
    if entries != [] {
      EntryIsRead(entries);
      NameToken(entries[0].name);
      RulesOfEntries(entries);
      WrittenIsAcceptedAfter(entries[0], entries[1..]);
    } else {
      assert [e.ToRule()] + ToRules(entries) == [e.ToRule()];
    }
  }

  /** Every non-empty list of valid entries is accepted and reported in order. */
  lemma WrittenIsAccepted(entries: seq<Entry>)
    requires entries != [] && AllValid(entries)
    ensures Outcome(Written(entries), "", "") == (true, ToRules(entries))
  {
    EntryIsRead(entries);
    NameToken(entries[0].name);
    RulesOfEntries(entries);
    WrittenIsAcceptedAfter(entries[0], entries[1..]);
  }

  /** The entries behind an accepted token list, of which a name and some expression tokens were read before. */
  lemma {:induction false} AcceptedAfterName(tokens: seq<string>, name: string, pending: seq<string>) returns (entries: seq<Entry>)
    requires forall k :: 0 <= k < |tokens| ==> tokens[k] != ""
    requires forall k :: 0 <= k < |pending| ==> pending[k] != "" && !IsNameToken(pending[k])
    requires name != "" && Outcome(tokens, name, ExpressionOf(pending)).0
    ensures entries != [] && AllValid(entries)
    ensures Written(entries) == [name + ":"] + pending + tokens
    ensures Outcome(tokens, name, ExpressionOf(pending)).1 == ToRules(entries)
    decreases |tokens|
  {
    ExpressionNotEmpty(pending);
    NoEntries();
    hide ExpressionOf, Extend, Written, ToRules;
    if tokens == [] {
      entries := [Entry(name, pending)] + [];
      PrependEntry(Entry(name, pending), []);
    } else if !IsNameToken(tokens[0]) {
      ExpressionMore(pending, tokens[0]);
      Regroup(name + ":", pending, tokens);
      entries := AcceptedAfterName(tokens[1..], name, pending + [tokens[0]]);
    } else {
      var next := tokens[0][..|tokens[0]| - 1];
      NameOfToken(tokens[0]);
      Restart(name + ":", pending, tokens);
      var rest := AcceptedAfterName(tokens[1..], next, []);
      entries := [Entry(name, pending)] + rest;
      PrependEntry(Entry(name, pending), rest);
    }
  }

  lemma NameOfToken(t: string)
    requires IsNameToken(t)
    ensures t[..|t| - 1] + ":" == t
  {
  }

  lemma Regroup<T>(first: T, pending: seq<T>, rest: seq<T>)
    requires rest != []
    ensures [first] + (pending + [rest[0]]) + rest[1..] == [first] + pending + rest
  {
  }

  lemma Restart<T>(first: T, pending: seq<T>, rest: seq<T>)
    requires rest != []
    ensures [first] + pending + ([rest[0]] + [] + rest[1..]) == [first] + pending + rest
    ensures [rest[0]] + [] + rest[1..] == rest
  {
  }

  /** The entries behind an accepted token list. */
  lemma AcceptedIsWritten(tokens: seq<string>) returns (entries: seq<Entry>)
    requires forall k :: 0 <= k < |tokens| ==> tokens[k] != ""
    requires Outcome(tokens, "", "").0
    ensures entries != [] && AllValid(entries)
    ensures Written(entries) == tokens
    ensures Outcome(tokens, "", "").1 == ToRules(entries)
  {
    NoEntries();
    if !IsNameToken(tokens[0]) {
      ExpressionMore([], tokens[0]);
      UnnamedIsRejected(tokens[1..], [] + [tokens[0]]);
    }
    hide ExpressionOf, Extend, Written, ToRules;
    NameOfToken(tokens[0]);
    Restart("", [], tokens);
    entries := AcceptedAfterName(tokens[1..], tokens[0][..|tokens[0]| - 1], []);
  }

  lemma NoEntries()
    ensures Written([]) == [] && ToRules([]) == [] && ExpressionOf([]) == ""
  {
  }

  lemma PrependEntry(e: Entry, entries: seq<Entry>)
    requires e.Valid() && AllValid(entries)
    ensures AllValid([e] + entries)
    ensures Written([e] + entries) == [e.name + ":"] + e.tokens + Written(entries)
    ensures ToRules([e] + entries) == [e.ToRule()] + ToRules(entries)
  {
    assert ([e] + entries)[1..] == entries;
  }

  /** Expression tokens before the first name are never accepted. */
  lemma {:induction false} UnnamedIsRejected(tokens: seq<string>, pending: seq<string>)
    requires forall k :: 0 <= k < |tokens| ==> tokens[k] != ""
    requires pending != [] && forall k :: 0 <= k < |pending| ==> pending[k] != ""
    ensures !Outcome(tokens, "", ExpressionOf(pending)).0
    decreases |tokens|
  {
    ExpressionNotEmpty(pending);
    if tokens != [] && !IsNameToken(tokens[0]) {
      var more := pending + [tokens[0]];
      ExpressionMore(pending, tokens[0]);
      UnnamedIsRejected(tokens[1..], more);
    }
  }

  /**
   * `Parse` accepts exactly the texts whose tokens are names, each followed by one
   * or more expression tokens, and reports those entries in order.
   */
  lemma ParseAcceptsExactlyTheGrammar(text: string)
    ensures Parsed(text).0 <==> exists entries :: entries != [] && AllValid(entries) && Written(entries) == Tokens(CString(text))
    ensures forall entries :: entries != [] && AllValid(entries) && Written(entries) == Tokens(CString(text)) ==>
      Parsed(text) == (true, ToRules(entries))
  {
    var tokens := Tokens(CString(text));
    if Parsed(text).0 {
      var entries := AcceptedIsWritten(tokens);
      assert Written(entries) == tokens;
    }
    forall entries | entries != [] && AllValid(entries) && Written(entries) == tokens
      ensures Parsed(text) == (true, ToRules(entries))
    {
      WrittenIsAccepted(entries);
    }
  }

  // ----- What is reported before a mistake -----

  /** Entries were read up to the end, or up to the name token that starts the rest. */
  ghost predicate IsReadUpTo(entries: seq<Entry>, rest: seq<string>, tokens: seq<string>) {
    && AllValid(entries)
    && tokens == Written(entries) + rest
    && (entries == [] || rest == [] || (IsNameToken(rest[0]) && |rest[0]| >= 2))
  }

  lemma NameIsRead(tokens: seq<string>, name: string, expression: string)
    requires tokens != [] && IsNameToken(tokens[0]) && |tokens[0]| >= 2 && name != "" && expression != ""
    ensures var later := Outcome(tokens[1..], tokens[0][..|tokens[0]| - 1], "");
            Outcome(tokens, name, expression) == (later.0, [Rule(name, expression)] + later.1)
  {
  }

  lemma FirstNameIsRead(tokens: seq<string>)
    requires tokens != [] && IsNameToken(tokens[0]) && |tokens[0]| >= 2
    ensures Outcome(tokens, "", "") == Outcome(tokens[1..], tokens[0][..|tokens[0]| - 1], "")
  {
  }

  lemma EndIsRead(name: string, expression: string)
    requires name != "" && expression != ""
    ensures Outcome([], name, expression) == (true, [Rule(name, expression)])
  {
  }

  /** The first entry is read, whatever follows the entries. */
  lemma EntryIsReadBefore(entries: seq<Entry>, rest: seq<string>)
    requires entries != [] && AllValid(entries)
    ensures var (first, all) := (entries[0], Written(entries) + rest);
            && all != [] && all[0] == first.name + ":"
            && Outcome(all[1..], first.name, "") == Outcome(Written(entries[1..]) + rest, first.name, ExpressionOf(first.tokens))
  {
    hide Outcome, ExpressionOf, Written, IsNameToken;
    var first := entries[0];
    var later := Written(entries[1..]) + rest;
    WrittenUnfolds(entries);
    NoEntries();
    NothingBefore(first.tokens);
    assert first.Valid();
    assert (Written(entries) + rest)[1..] == first.tokens + later;
    ExpressionTokens([], first.tokens, later, first.name);
  }

  /** Entries that were read up to the next name are reported, whatever follows. */
  lemma {:induction false} ReadIsReportedAfter(e: Entry, entries: seq<Entry>, rest: seq<string>)
    requires e.Valid() && AllValid(entries) && (rest == [] || (IsNameToken(rest[0]) && |rest[0]| >= 2))
    ensures [e.ToRule()] + ToRules(entries) <= Outcome(Written(entries) + rest, e.name, ExpressionOf(e.tokens)).1
    decreases |entries|
  {
    hide Outcome, ExpressionOf, Extend, Written, IsNameToken;
    var all := Written(entries) + rest;
    ExpressionNotEmpty(e.tokens);
    if entries != [] {
      NameToken(entries[0].name);
      EntryIsReadBefore(entries, rest);
      NameIsRead(all, e.name, ExpressionOf(e.tokens));
      ReadIsReportedAfter(entries[0], entries[1..], rest);
      RulesOfEntries(entries);
    } else {
      NoEntries();
      NothingBefore(rest);
      assert [e.ToRule()] + ToRules(entries) == [e.ToRule()];
      if rest == [] {
        EndIsRead(e.name, ExpressionOf(e.tokens));
      } else {
        NameIsRead(all, e.name, ExpressionOf(e.tokens));
      }
    }
  }

  /** The entries behind what is reported, when a name and some expression tokens were read before. */
  lemma {:induction false} ReportedAfterName(tokens: seq<string>, name: string, pending: seq<string>)
      returns (entries: seq<Entry>, rest: seq<string>)
    requires forall k :: 0 <= k < |tokens| ==> tokens[k] != ""
    requires forall k :: 0 <= k < |pending| ==> pending[k] != "" && !IsNameToken(pending[k])
    requires name != ""
    ensures IsReadUpTo(entries, rest, [name + ":"] + pending + tokens)
    ensures Outcome(tokens, name, ExpressionOf(pending)).1 == ToRules(entries)
    decreases |tokens|
  {
    hide ExpressionOf, Extend, Written, ToRules;
    ExpressionNotEmpty(pending);
    NoEntries();
    var whole := [name + ":"] + pending + tokens;
    if tokens != [] && !IsNameToken(tokens[0]) {
      ExpressionMore(pending, tokens[0]);
      Regroup(name + ":", pending, tokens);
      entries, rest := ReportedAfterName(tokens[1..], name, pending + [tokens[0]]);
    } else if pending == [] || (tokens != [] && |tokens[0]| < 2) {
      entries, rest := [], whole;
      NothingBefore(whole);
    } else if tokens == [] {
      entries, rest := [Entry(name, pending)] + [], [];
      PrependEntry(Entry(name, pending), []);
      assert Written(entries) + rest == whole;
    } else {
      var next := tokens[0][..|tokens[0]| - 1];
      NameOfToken(tokens[0]);
      Restart(name + ":", pending, tokens);
      var later;
      later, rest := ReportedAfterName(tokens[1..], next, []);
      entries := [Entry(name, pending)] + later;
      PrependEntry(Entry(name, pending), later);
      NothingBefore(rest);
      assert Written(entries) + rest == [name + ":"] + pending + (Written(later) + rest);
    }
  }

  /**
   * Accepted or not, a text reports exactly the longest list of entries that it can
   * be read as up to its end or up to a further name.
   */
  lemma ReportsLongestPrefix(text: string)
    ensures forall entries, rest :: IsReadUpTo(entries, rest, Tokens(CString(text))) ==> ToRules(entries) <= Parsed(text).1
    ensures exists entries, rest :: IsReadUpTo(entries, rest, Tokens(CString(text))) && ToRules(entries) == Parsed(text).1
  {
    var tokens := Tokens(CString(text));
    forall entries, rest | IsReadUpTo(entries, rest, tokens) ensures ToRules(entries) <= Outcome(tokens, "", "").1 {
      ReadIsReported(entries, rest);
    }
    var entries, rest := ReportedEntries(tokens);
    assert IsReadUpTo(entries, rest, tokens);
  }

  lemma ReadIsReported(entries: seq<Entry>, rest: seq<string>)
    requires IsReadUpTo(entries, rest, Written(entries) + rest)
    ensures ToRules(entries) <= Outcome(Written(entries) + rest, "", "").1
  {
    hide Outcome, ExpressionOf, Extend, Written, IsNameToken;
    if entries != [] {
      NameToken(entries[0].name);
      EntryIsReadBefore(entries, rest);
      FirstNameIsRead(Written(entries) + rest);
      ReadIsReportedAfter(entries[0], entries[1..], rest);
      RulesOfEntries(entries);
    }
  }

  lemma ReportedEntries(tokens: seq<string>) returns (entries: seq<Entry>, rest: seq<string>)
    requires forall k :: 0 <= k < |tokens| ==> tokens[k] != ""
    ensures IsReadUpTo(entries, rest, tokens) && ToRules(entries) == Outcome(tokens, "", "").1
  {
    hide Outcome, ExpressionOf, Extend, Written, ToRules;
    NoEntries();
    if tokens != [] && IsNameToken(tokens[0]) && |tokens[0]| >= 2 {
      NameOfToken(tokens[0]);
      Restart("", [], tokens);
      FirstNameIsRead(tokens);
      entries, rest := ReportedAfterName(tokens[1..], tokens[0][..|tokens[0]| - 1], []);
    } else {
      entries, rest := [], tokens;
      NothingBefore(tokens);
      NamelessReportsNothing(tokens);
    }
  }

  lemma NamelessReportsNothing(tokens: seq<string>)
    requires forall k :: 0 <= k < |tokens| ==> tokens[k] != ""
    requires tokens == [] || !IsNameToken(tokens[0]) || |tokens[0]| < 2
    ensures Outcome(tokens, "", "").1 == []
  {
    if tokens != [] && !IsNameToken(tokens[0]) {
      NoEntries();
      ExpressionMore([], tokens[0]);
      UnnamedReportsNothing(tokens[1..], [] + [tokens[0]]);
    }
  }

  lemma {:induction false} UnnamedReportsNothing(tokens: seq<string>, pending: seq<string>)
    requires forall k :: 0 <= k < |tokens| ==> tokens[k] != ""
    requires pending != [] && forall k :: 0 <= k < |pending| ==> pending[k] != ""
    ensures Outcome(tokens, "", ExpressionOf(pending)).1 == []
    decreases |tokens|
  {
    ExpressionNotEmpty(pending);
    if tokens != [] && !IsNameToken(tokens[0]) {
      ExpressionMore(pending, tokens[0]);
      UnnamedReportsNothing(tokens[1..], pending + [tokens[0]]);
    }
  }

  // ----- Serializing -----

  ghost predicate Enumerates(order: seq<string>, registers: map<string, string>) {
    && (forall k :: 0 <= k < |order| ==> order[k] in registers)
    && (forall n :: n in registers ==> n in order)
    && (forall i, j :: 0 <= i < j < |order| ==> order[i] != order[j])
  }

  function SpecialRules(s: RuleSet): seq<Rule> {
    (if s.cfa == "" then [] else [Rule(".cfa", s.cfa)]) + (if s.ra == "" then [] else [Rule(".ra", s.ra)])
  }

  function RegisterRules(registers: map<string, string>, order: seq<string>): seq<Rule>
    requires forall k :: 0 <= k < |order| ==> order[k] in registers
  {
    if order == [] then []
    else
      var n := order[|order| - 1];
      RegisterRules(registers, order[..|order| - 1]) + [Rule(n, registers[n])]
  }

  function Text(r: Rule): string {
    r.name + ": " + r.expression
  }

  function Joined(rules: seq<Rule>): string {
    if rules == [] then ""
    else if |rules| == 1 then Text(rules[0])
    else Joined(rules[..|rules| - 1]) + " " + Text(rules[|rules| - 1])
  }

  function Serialized(s: RuleSet, order: seq<string>): string
    requires forall k :: 0 <= k < |order| ==> order[k] in s.registers
  {
    Joined(SpecialRules(s) + RegisterRules(s.registers, order))
  }

  lemma RegisterRulesGrow(s: RuleSet, order: seq<string>, i: nat)
    requires i < |order| && forall k :: 0 <= k < |order| ==> order[k] in s.registers
    ensures SpecialRules(s) + RegisterRules(s.registers, order[..i + 1])
         == SpecialRules(s) + RegisterRules(s.registers, order[..i]) + [Rule(order[i], s.registers[order[i]])]
  {
    assert order[..i + 1][..i] == order[..i];
  }

  lemma JoinedSpecialRules(s: RuleSet)
    ensures Joined(SpecialRules(s)) ==
      if s.cfa == "" then (if s.ra == "" then "" else Text(Rule(".ra", s.ra)))
      else if s.ra == "" then Text(Rule(".cfa", s.cfa))
      else Text(Rule(".cfa", s.cfa)) + " " + Text(Rule(".ra", s.ra))
  {
    if s.cfa != "" && s.ra != "" {
      assert SpecialRules(s)[..1] == [Rule(".cfa", s.cfa)];
    }
  }

  lemma JoinedAppend(rules: seq<Rule>, name: string, expression: string)
    ensures Joined(rules + [Rule(name, expression)])
         == (if |Joined(rules)| != 0 then Joined(rules) + " " else Joined(rules)) + (name + ": " + expression)
  {
    var r := Rule(name, expression);
    assert Joined([r]) == Joined([]) + Text(r);
    assert (rules + [r])[..|rules|] == rules;
    if rules != [] {
      assert |Joined(rules)| >= 2;
    }
  }

  lemma {:induction false} JoinedMeansJoin(rules: seq<Rule>, texts: seq<string>)
    requires |texts| == |rules| && forall k :: 0 <= k < |rules| ==> texts[k] == rules[k].name + ": " + rules[k].expression
    ensures Joined(rules) == Join(texts, ' ')
    decreases |rules|
  {
    if |rules| >= 2 {
      var n := |rules| - 1;
      JoinedMeansJoin(rules[..n], texts[..n]);
      JoinAppend(texts[..n], texts[n], ' ');
      assert texts == texts[..n] + [texts[n]];
    }
  }

  lemma {:induction false} RegisterRulesInOrder(registers: map<string, string>, order: seq<string>)
    requires forall k :: 0 <= k < |order| ==> order[k] in registers
    ensures |RegisterRules(registers, order)| == |order|
    ensures forall k :: 0 <= k < |order| ==> RegisterRules(registers, order)[k] == Rule(order[k], registers[order[k]])
    decreases |order|
  {
    if order != [] {
      RegisterRulesInOrder(registers, order[..|order| - 1]);
    }
  }

  /** What is written, for any rule set: the special rules, then the registers in order, single blanks in between. */
  lemma SerializedText(s: RuleSet, order: seq<string>)
    requires forall k :: 0 <= k < |order| ==> order[k] in s.registers
    ensures Serialized(s, order) == Join(
      (if s.cfa == "" then [] else [".cfa: " + s.cfa])
      + (if s.ra == "" then [] else [".ra: " + s.ra])
      + seq(|order|, k requires 0 <= k < |order| => order[k] + ": " + s.registers[order[k]]), ' ')
  {
    var special := (if s.cfa == "" then [] else [".cfa: " + s.cfa]) + (if s.ra == "" then [] else [".ra: " + s.ra]);
    var registers := seq(|order|, k requires 0 <= k < |order| => order[k] + ": " + s.registers[order[k]]);
    RegisterRulesInOrder(s.registers, order);
    hide RegisterRules, Joined, Join;
    assert ".cfa" + ": " + s.cfa == ".cfa: " + s.cfa && ".ra" + ": " + s.ra == ".ra: " + s.ra;
    JoinedMeansJoin(SpecialRules(s) + RegisterRules(s.registers, order), special + registers);
  }
}
