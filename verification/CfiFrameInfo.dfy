/** Rules for recovering a caller's registers, as values and as text. */
module CfiFrameInfo {
  import opened Strtok
  import opened SymbolModule

  const BREAKS: string := " \t\r\n"

  /** How to compute a register: a postfix expression. */
  datatype Rule = Rule(name: string, expression: string) {
    /** A name is a word; the text of a rule is its name, a colon and its expression. */
    ghost predicate Proper() {
      name != "" && Solid(name, BREAKS) && ProperExpression(expression)
    }

    function Text(): string {
      name + ": " + expression
    }
  }

  /** What a `CFIFrameInfo` knows; an empty rule is no rule. */
  datatype Info = Info(cfa: string, ra: string, registers: map<string, string>) {
    function With(r: Rule): Info {
      if r.name == ".cfa" then this.(cfa := r.expression)
      else if r.name == ".ra" then this.(ra := r.expression)
      else this.(registers := registers[r.name := r.expression])
    }

    /** The rule in force for a register or pseudo-register. */
    function RuleFor(name: string): Option<string> {
      if name == ".cfa" then (if cfa == "" then None else Some(cfa))
      else if name == ".ra" then (if ra == "" then None else Some(ra))
      else if name in registers then Some(registers[name])
      else None
    }

    ghost predicate Proper() {
      && ".cfa" !in registers && ".ra" !in registers && (cfa != "" ==> ProperExpression(cfa))
      && (ra != "" ==> ProperExpression(ra))
      && forall name :: name in registers ==> Rule(name, registers[name]).Proper()
    }
  }

  const NOTHING := Info("", "", map[])

  function WithAll(info: Info, rules: seq<Rule>): Info
    decreases |rules|
  {
    if rules == [] then info else WithAll(info.With(rules[0]), rules[1..])
  }

  predicate IsName(token: string) {
    token != "" && token[|token| - 1] == ':'
  }

  function Spaced(expression: string, token: string): string {
    if expression == "" then token else expression + " " + token
  }

  function Joined(tokens: seq<string>): string {
    if tokens == [] then "" else Spaced(Joined(tokens[..|tokens| - 1]), tokens[|tokens| - 1])
  }

  /** Tokens joined by single spaces, none of which looks like a name. */
  ghost predicate ProperExpression(expression: string) {
    && expression != "" && Joined(Tokens(expression, BREAKS)) == expression
    && forall t :: t in Tokens(expression, BREAKS) ==> !IsName(t)
  }

  /** What a list of tokens says: the rules it gives, and whether it says nothing wrong. A rule may be begun. */
  function Reads(tokens: seq<string>, name: string, expression: string): (bool, seq<Rule>) {
    var complete := name != "" && expression != "";
    if tokens == [] then (complete, if complete then [Rule(name, expression)] else [])
    else if !IsName(tokens[0]) then Reads(tokens[1..], name, Spaced(expression, tokens[0]))
    else if |tokens[0]| < 2 || (!complete && (name != "" || expression != "")) then (false, [])
    else
      var (ok, rules) := Reads(tokens[1..], tokens[0][..|tokens[0]| - 1], "");
      (ok, (if complete then [Rule(name, expression)] else []) + rules)
  }

  /** A rule set as text: the rules, separated by spaces. */
  function Printed(rules: seq<Rule>): string {
    if rules == [] then "" else Spaced(Printed(rules[..|rules| - 1]), rules[|rules| - 1].Text())
  }

  ghost predicate ProperRules(rules: seq<Rule>) {
    forall r :: r in rules ==> r.Proper()
  }

  function TokensOfRules(rules: seq<Rule>): seq<string> {
    if rules == [] then []
    else [rules[0].name + ":"] + Tokens(rules[0].expression, BREAKS) + TokensOfRules(rules[1..])
  }

  lemma TokensOfRule(r: Rule)
    requires r.Proper()
    ensures Tokens(r.Text(), BREAKS) == [r.name + ":"] + Tokens(r.expression, BREAKS)
  {
    assert r.Text() == (r.name + ":") + [' '] + r.expression;
    TokensApart(r.name + ":", ' ', r.expression, BREAKS);
    OneToken(r.name + ":", BREAKS);
  }

  lemma {:induction false} MoreTokens(rules: seq<Rule>, r: Rule)
    ensures TokensOfRules(rules + [r]) == TokensOfRules(rules) + ([r.name + ":"] + Tokens(r.expression, BREAKS))
  {
    if rules == [] {
      assert rules + [r] == [r] && [r][1..] == [];
    } else {
      assert (rules + [r])[1..] == rules[1..] + [r];
      MoreTokens(rules[1..], r);
    }
  }

  lemma {:induction false} TokensOfPrinted(rules: seq<Rule>)
    requires ProperRules(rules)
    ensures Tokens(Printed(rules), BREAKS) == TokensOfRules(rules)
  {
    hide Rule.Proper, Rule.Text, TokensOfRules, Tokens;
    if rules == [] {
      NoTokens();
    } else {
      var n := |rules| - 1;
      var init, last := rules[..n], rules[n];
      assert last in rules && forall r :: r in init ==> r in rules;
      TokensOfPrinted(init);
      TokensOfRule(last);
      MoreTokens(init, last);
      assert init + [last] == rules;
      NoTokens();
      if Printed(init) != "" {
        assert Printed(rules) == Printed(init) + [' '] + last.Text();
        TokensApart(Printed(init), ' ', last.Text(), BREAKS);
      } else {
        assert TokensOfRules(init) == [];
      }
    }
  }

  lemma NoTokens()
    ensures Tokens("", BREAKS) == [] && TokensOfRules([]) == []
  {
  }

  /** Expression tokens are joined as they come. */
  lemma {:induction false} ReadsExpression(done: seq<string>, tokens: seq<string>, rest: seq<string>, name: string)
    requires forall t :: t in tokens ==> !IsName(t)
    ensures Reads(tokens + rest, name, Joined(done)) == Reads(rest, name, Joined(done + tokens))
    decreases |tokens|
  {
    if tokens == [] {
      assert tokens + rest == rest && done + tokens == done;
    } else {
      assert (tokens + rest)[1..] == tokens[1..] + rest;
      assert (done + [tokens[0]])[..|done|] == done;
      ReadsExpression(done + [tokens[0]], tokens[1..], rest, name);
      assert done + [tokens[0]] + tokens[1..] == done + tokens;
    }
  }

  lemma ReadsEnd(name: string, expression: string)
    requires name != "" && expression != ""
    ensures Reads([], name, expression) == (true, [Rule(name, expression)])
  {
  }

  /** A name completes the rule before it, if there is one, and begins the next. */
  lemma ReadsName(word: string, tokens: seq<string>, name: string, expression: string)
    requires word != "" && ((name == "") <==> (expression == ""))
    ensures Reads([word + ":"] + tokens, name, expression)
      == (Reads(tokens, word, "").0, (if name == "" then [] else [Rule(name, expression)]) + Reads(tokens, word, "").1)
  {
    var head := word + ":";
    assert head[..|head| - 1] == word && ([head] + tokens)[1..] == tokens;
  }

  lemma ReadsAfterName(r: Rule, rest: seq<string>)
    requires r.Proper()
    ensures Reads(Tokens(r.expression, BREAKS) + rest, r.name, "") == Reads(rest, r.name, r.expression)
  {
    hide Reads, Tokens;
    ReadsExpression([], Tokens(r.expression, BREAKS), rest, r.name);
    assert [] + Tokens(r.expression, BREAKS) == Tokens(r.expression, BREAKS) && Joined([]) == "";
  }

  lemma ProperHasText(r: Rule)
    requires r.Proper()
    ensures r.name != "" && r.expression != ""
  {
  }

  lemma FirstRule(rules: seq<Rule>)
    requires ProperRules(rules) && rules != []
    ensures rules[0].Proper() && ProperRules(rules[1..])
    ensures TokensOfRules(rules)
      == [rules[0].name + ":"] + (Tokens(rules[0].expression, BREAKS) + TokensOfRules(rules[1..]))
  {
    hide Rule.Proper, Tokens;
    assert rules[0] in rules;
    forall r | r in rules[1..] ensures r.Proper() {
      assert r in rules;
    }
  }

  /** Reading rules behind a complete or missing rule gives them all. */
  lemma {:induction false} ReadsRules(rules: seq<Rule>, name: string, expression: string)
    requires ProperRules(rules) && ((name == "") <==> (expression == "")) && (name == "" ==> rules != [])
    ensures Reads(TokensOfRules(rules), name, expression)
      == (true, (if name == "" then [] else [Rule(name, expression)]) + rules)
    decreases |rules|
  {
    hide Reads, Tokens, ProperRules, Rule.Proper;
    if rules == [] {
      ReadsEnd(name, expression);
      assert TokensOfRules(rules) == [] && [Rule(name, expression)] + rules == [Rule(name, expression)];
    } else {
      var r, rest := rules[0], TokensOfRules(rules[1..]);
      FirstRule(rules);
      ProperHasText(r);
      ReadsName(r.name, Tokens(r.expression, BREAKS) + rest, name, expression);
      ReadsAfterName(r, rest);
      ReadsRules(rules[1..], r.name, r.expression);
      assert [r] + rules[1..] == rules;
    }
  }

  /** What proper rules are printed as is read back as these rules, in order. */
  lemma PrintedReads(rules: seq<Rule>)
    requires ProperRules(rules) && rules != []
    ensures Reads(Tokens(Printed(rules), BREAKS), "", "") == (true, rules)
  {
    TokensOfPrinted(rules);
    ReadsRules(rules, "", "");
    assert [] + rules == rules;
  }

  /** A name that is more than its colon, with something behind it that is not a name. */
  predicate GoodName(tokens: seq<string>, i: nat)
    requires i < |tokens|
  {
    |tokens[i]| >= 2 && i + 1 < |tokens| && !IsName(tokens[i + 1])
  }

  ghost predicate GoodNames(tokens: seq<string>) {
    forall i :: 0 <= i < |tokens| && IsName(tokens[i]) ==> GoodName(tokens, i)
  }

  lemma GoodNamesFrom(tokens: seq<string>)
    requires tokens != []
    ensures GoodNames(tokens) <==> GoodNames(tokens[1..]) && (IsName(tokens[0]) ==> GoodName(tokens, 0))
  {
    hide IsName;
    assert forall i :: 0 <= i < |tokens| - 1 ==> tokens[1..][i] == tokens[i + 1];
    forall i | 0 <= i < |tokens| - 1 && IsName(tokens[i + 1])
      ensures GoodName(tokens[1..], i) <==> GoodName(tokens, i + 1)
    {
    }
    if GoodNames(tokens) {
      forall i | 0 <= i < |tokens| - 1 && IsName(tokens[1..][i]) ensures GoodName(tokens[1..], i) {
        assert GoodName(tokens, i + 1);
      }
    }
    if GoodNames(tokens[1..]) && (IsName(tokens[0]) ==> GoodName(tokens, 0)) {
      forall i | 0 <= i < |tokens| && IsName(tokens[i]) ensures GoodName(tokens, i) {
        assert i > 0 ==> GoodName(tokens[1..], i - 1);
      }
    }
  }

  /** With a name pending, the tokens are accepted if and only if its expression is or becomes complete and all
      names are good; with an expression that no name precedes, never. */
  lemma {:induction false} AcceptsFrom(tokens: seq<string>, name: string, expression: string)
    requires forall t :: t in tokens ==> t != ""
    ensures name != "" ==> (Reads(tokens, name, expression).0
      <==> GoodNames(tokens) && (expression != "" || (tokens != [] && !IsName(tokens[0]))))
    ensures name == "" && expression != "" ==> !Reads(tokens, name, expression).0
    decreases |tokens|
  {
    if tokens != [] {
      GoodNamesFrom(tokens);
      hide GoodNames;
      assert tokens[0] in tokens && forall t :: t in tokens[1..] ==> t in tokens;
      if IsName(tokens[0]) {
        AcceptsFrom(tokens[1..], tokens[0][..|tokens[0]| - 1], "");
      } else {
        AcceptsFrom(tokens[1..], name, Spaced(expression, tokens[0]));
      }
    }
  }

  /** A rule set is accepted if and only if it begins with a name, and each name is more than its colon and has an
      expression. */
  lemma AcceptsExactly(tokens: seq<string>)
    requires forall t :: t in tokens ==> t != ""
    ensures Reads(tokens, "", "").0 <==> tokens != [] && IsName(tokens[0]) && GoodNames(tokens)
  {
    if tokens != [] {
      GoodNamesFrom(tokens);
      hide GoodNames;
      assert tokens[0] in tokens && forall t :: t in tokens[1..] ==> t in tokens;
      if IsName(tokens[0]) {
        AcceptsFrom(tokens[1..], tokens[0][..|tokens[0]| - 1], "");
      } else {
        AcceptsFrom(tokens[1..], "", Spaced("", tokens[0]));
      }
    }
  }

  /** What comes before an error is reported all the same, but for the rule just before it. */
  lemma {:induction false} ReadsUpToError(rules: seq<Rule>, name: string, expression: string, more: seq<string>)
    requires ProperRules(rules) && ((name == "") <==> (expression == "")) && (name == "" ==> rules != [])
    ensures var all := (if name == "" then [] else [Rule(name, expression)]) + rules;
      Reads(TokensOfRules(rules) + ([":"] + more), name, expression) == (false, all[..|all| - 1])
    decreases |rules|
  {
    var tail := [":"] + more;
    hide Tokens, ProperRules, Rule.Proper;
    if rules == [] {
      assert TokensOfRules(rules) + tail == tail && ([Rule(name, expression)] + rules)[..0] == [];
      LoneColon(more, name, expression);
    } else {
      var r, rest := rules[0], TokensOfRules(rules[1..]) + tail;
      FirstRule(rules);
      ProperHasText(r);
      hide Reads, TokensOfRules;
      assert TokensOfRules(rules) + tail == [r.name + ":"] + (Tokens(r.expression, BREAKS) + rest);
      ReadsName(r.name, Tokens(r.expression, BREAKS) + rest, name, expression);
      ReadsAfterName(r, rest);
      ReadsUpToError(rules[1..], r.name, r.expression, more);
      AllButLast(if name == "" then [] else [Rule(name, expression)], r, rules[1..]);
      assert [r] + rules[1..] == rules;
    }
  }

  lemma LoneColon(more: seq<string>, name: string, expression: string)
    ensures Reads([":"] + more, name, expression) == (false, [])
  {
  }

  lemma AllButLast(first: seq<Rule>, r: Rule, others: seq<Rule>)
    ensures first + ([r] + others)[..|others|] == (first + ([r] + others))[..|first| + |others|]
  {
  }

  /** The rules of `info`, those for registers in the given order. */
  function RegisterRules(registers: map<string, string>, order: seq<string>): (rules: seq<Rule>)
    requires forall k :: k in order ==> k in registers
    ensures |rules| == |order| && forall i :: 0 <= i < |rules| ==> rules[i] == Rule(order[i], registers[order[i]])
  {
    seq(|order|, i requires 0 <= i < |order| => Rule(order[i], registers[order[i]]))
  }

  function SpecialRules(info: Info): seq<Rule> {
    (if info.cfa == "" then [] else [Rule(".cfa", info.cfa)]) + if info.ra == "" then [] else [Rule(".ra", info.ra)]
  }

  function RulesOf(info: Info, order: seq<string>): seq<Rule>
    requires forall k :: k in order ==> k in info.registers
  {
    SpecialRules(info) + RegisterRules(info.registers, order)
  }

  /** `order` passes each key once. */
  ghost predicate IsOrder(order: seq<string>, registers: map<string, string>)
    ensures IsOrder(order, registers) ==> forall k :: k in order ==> k in registers
  {
    Distinct(order) && forall k :: k in order <==> k in registers
  }

  /** The text holds the rules of `info`, each once, those for registers in some order. */
  ghost predicate IsSerialized(text: string, info: Info) {
    exists order :: IsOrder(order, info.registers) && text == Printed(RulesOf(info, order))
  }

  lemma InOrder(order: seq<string>, m: map<string, string>, k: string)
    requires IsOrder(order, m)
    ensures k in order <==> k in m
  {
  }

  lemma NotTwice(s: seq<string>, x: string)
    requires forall i :: 0 <= i < |s| ==> s[i] == x
    ensures |s| > 1 ==> !Distinct(s)
  {
    if |s| > 1 {
      assert s[0] == s[1];
    }
  }

  lemma OnlyOrder(name: string, expression: string, order: seq<string>)
    requires IsOrder(order, map[name := expression])
    ensures order == [name]
  {
    var m := map[name := expression];
    InOrder(order, m, name);
    forall i | 0 <= i < |order| ensures order[i] == name {
      InOrder(order, m, order[i]);
    }
    NotTwice(order, name);
  }

  lemma ThreePrinted(a: Rule, b: Rule, c: Rule)
    ensures a.Text() != "" && Printed([a, b, c]) == a.Text() + " " + b.Text() + " " + c.Text()
  {
    assert [a, b, c] == [a, b] + [c] && [a, b] == [a] + [b];
    OnePrinted(a);
    PrintedMore([a], b);
    PrintedMore([a, b], c);
  }

  lemma RuleLooks(name: string, expression: string)
    ensures Rule(name, expression).Text() == name + ": " + expression
  {
  }

  /** How a rule set looks as text. */
  lemma SerializedLooks(text: string, cfa: string, ra: string, name: string, expression: string)
    requires cfa != "" && ra != "" && IsSerialized(text, Info(cfa, ra, map[name := expression]))
    ensures text == (".cfa" + ": " + cfa) + " " + (".ra" + ": " + ra) + " " + (name + ": " + expression)
  {
    var info := Info(cfa, ra, map[name := expression]);
    var order :| IsOrder(order, info.registers) && text == Printed(RulesOf(info, order));
    OnlyOrder(name, expression, order);
    var a, b, c := Rule(".cfa", cfa), Rule(".ra", ra), Rule(name, expression);
    assert RulesOf(info, order) == [a, b, c];
    RuleLooks(".cfa", cfa);
    RuleLooks(".ra", ra);
    RuleLooks(name, expression);
    hide Printed, Rule.Text, RulesOf;
    ThreePrinted(a, b, c);
  }

  lemma {:induction false} WithAllInTurn(info: Info, a: seq<Rule>, b: seq<Rule>)
    ensures WithAll(info, a + b) == WithAll(WithAll(info, a), b)
    decreases |a|
  {
    if a == [] {
      assert a + b == b;
    } else {
      assert (a + b)[1..] == a[1..] + b;
      WithAllInTurn(info.With(a[0]), a[1..], b);
    }
  }

  function Chosen(registers: map<string, string>, order: seq<string>): map<string, string>
    requires forall k :: k in order ==> k in registers
  {
    map k | k in order :: registers[k]
  }

  lemma ChosenFirst(others: map<string, string>, registers: map<string, string>, order: seq<string>)
    requires (forall k :: k in order ==> k in registers) && order != []
    ensures others[order[0] := registers[order[0]]] + Chosen(registers, order[1..]) == others + Chosen(registers, order)
  {
    assert order == [order[0]] + order[1..];
  }

  lemma {:induction false} WithRegisters(info: Info, registers: map<string, string>, order: seq<string>)
    requires (forall k :: k in order ==> k in registers) && ".cfa" !in order && ".ra" !in order
    ensures WithAll(info, RegisterRules(registers, order))
      == info.(registers := info.registers + Chosen(registers, order))
    decreases |order|
  {
    var rules := RegisterRules(registers, order);
    if order == [] {
      assert info.registers + Chosen(registers, order) == info.registers;
    } else {
      hide Chosen;
      assert rules[1..] == RegisterRules(registers, order[1..]) && order[0] in order;
      WithRegisters(info.With(rules[0]), registers, order[1..]);
      ChosenFirst(info.registers, registers, order);
    }
  }

  lemma ChosenAll(registers: map<string, string>, order: seq<string>)
    requires IsOrder(order, registers)
    ensures map[] + Chosen(registers, order) == registers
  {
  }

  lemma RulesRebuild(info: Info, order: seq<string>)
    requires ".cfa" !in info.registers && ".ra" !in info.registers && IsOrder(order, info.registers)
    ensures WithAll(NOTHING, RulesOf(info, order)) == info
  {
    hide WithAll, Chosen, SpecialRules, Distinct;
    WithAllInTurn(NOTHING, SpecialRules(info), RegisterRules(info.registers, order));
    WithSpecial(info);
    WithRegisters(NOTHING.(cfa := info.cfa, ra := info.ra), info.registers, order);
    ChosenAll(info.registers, order);
  }

  lemma SomeRules(info: Info, order: seq<string>)
    requires IsOrder(order, info.registers)
    ensures RulesOf(info, order) == [] <==> info == NOTHING
  {
    if order == [] {
      assert forall k :: k !in order;
      assert info.registers == map[];
    } else {
      assert order[0] in order && order[0] in info.registers;
    }
  }

  /** What Serialize prints of a proper rule set, in whatever order the registers come, Parse accepts if there
      is any rule, and it is the same rule set again. */
  lemma SerializedReads(text: string, info: Info)
    requires info.Proper() && IsSerialized(text, info)
    ensures Outcome(NOTHING, Tokens(text, BREAKS), "", "") == (info != NOTHING, info)
  {
    hide RulesOf, WithAll, IsOrder, ProperExpression;
    var order :| IsOrder(order, info.registers) && text == Printed(RulesOf(info, order));
    var rules := RulesOf(info, order);
    SomeRules(info, order);
    RulesRebuild(info, order);
    if rules == [] {
      assert Tokens("", BREAKS) == [];
    } else {
      RulesAreProper(info, order);
      PrintedReads(rules);
    }
  }

  lemma WithFirst(info: Info, r: Rule, rules: seq<Rule>)
    ensures WithAll(info, [r] + rules) == WithAll(info.With(r), rules)
  {
    assert ([r] + rules)[1..] == rules;
  }

  lemma WithOne(info: Info, r: Rule)
    ensures WithAll(info, [r]) == info.With(r)
  {
  }

  lemma WithSpecial(info: Info)
    ensures WithAll(NOTHING, SpecialRules(info)) == NOTHING.(cfa := info.cfa, ra := info.ra)
  {
    var cfa := if info.cfa == "" then [] else [Rule(".cfa", info.cfa)];
    var ra := if info.ra == "" then [] else [Rule(".ra", info.ra)];
    WithAllInTurn(NOTHING, cfa, ra);
    WithOne(NOTHING, Rule(".cfa", info.cfa));
    WithOne(NOTHING.(cfa := info.cfa), Rule(".ra", info.ra));
  }

  lemma RulesAreProper(info: Info, order: seq<string>)
    requires info.Proper() && IsOrder(order, info.registers)
    ensures ProperRules(RulesOf(info, order))
  {
    var special, registers := SpecialRules(info), RegisterRules(info.registers, order);
    forall r | r in registers ensures r.Proper() {
      var i :| 0 <= i < |registers| && registers[i] == r;
      assert order[i] in order;
    }
    forall r | r in special ensures r.Proper() {
    }
  }

  class CFIFrameInfo {
    var cfaRule: string
    var raRule: string
    var registerRules: map<string, string>

    ghost function Value(): Info
      reads this
    {
      Info(cfaRule, raRule, registerRules)
    }

    constructor ()
      ensures Value() == NOTHING
    {
      cfaRule, raRule, registerRules := "", "", map[];
    }

    method SetCFARule(expression: string)
      modifies this
      ensures Value() == old(Value()).(cfa := expression)
    {
      cfaRule := expression;
    }

    method SetRARule(expression: string)
      modifies this
      ensures Value() == old(Value()).(ra := expression)
    {
      raRule := expression;
    }

    method SetRegisterRule(name: string, expression: string)
      modifies this
      ensures Value() == old(Value()).(registers := old(registerRules)[name := expression])
    {
      registerRules := registerRules[name := expression];
    }

    /** The registers come in some order, which does not matter to what the text means. */
    method Serialize() returns (text: string)
      ensures IsSerialized(text, Value())
    {
      hide Printed, RulesOf, KeysCovered;
      text := "";
      if cfaRule != "" {
        text := ".cfa: " + cfaRule;
      }
      if raRule != "" {
        if text != "" {
          text := text + " ";
        }
        text := text + ".ra: " + raRule;
      }
      PrintedSpecial(Value());
      ghost var order: seq<string> := [];
      var left := registerRules.Keys;
      NoneCovered(registerRules);
      while left != {}
        invariant KeysCovered(order, left, registerRules) && text == Printed(RulesOf(Value(), order))
        decreases |left|
      {
        var name :| name in left;
        CoverOne(order, left, registerRules, name);
        PrintedRegister(Value(), order, name);
        if text != "" {
          text := text + " ";
        }
        text := text + name + ": " + registerRules[name];
        left, order := left - {name}, order + [name];
      }
      AllCovered(order, registerRules);
    }
  }

  /** The keys are those of `order`, each once, and those `left`. */
  ghost predicate KeysCovered(order: seq<string>, left: set<string>, registers: map<string, string>)
    ensures KeysCovered(order, left, registers) ==> forall k :: k in order ==> k in registers
  {
    && (forall k :: k in registers <==> k in order || k in left)
    && Distinct(order) && forall k :: k in order ==> k !in left
  }

  lemma NoneCovered(registers: map<string, string>)
    ensures KeysCovered([], registers.Keys, registers)
  {
  }

  lemma CoverOne(order: seq<string>, left: set<string>, registers: map<string, string>, name: string)
    requires KeysCovered(order, left, registers) && name in left
    ensures name in registers && KeysCovered(order + [name], left - {name}, registers)
  {
  }

  lemma AllCovered(order: seq<string>, registers: map<string, string>)
    requires KeysCovered(order, {}, registers)
    ensures IsOrder(order, registers)
  {
  }

  lemma NothingPrinted()
    ensures Printed([]) == ""
  {
  }

  lemma OnePrinted(r: Rule)
    ensures Printed([r]) == r.Text()
  {
    assert [] + [r] == [r];
    PrintedMore([], r);
    NothingPrinted();
  }

  lemma SpecialTexts(expression: string)
    ensures Rule(".cfa", expression).Text() == ".cfa: " + expression
    ensures Rule(".ra", expression).Text() == ".ra: " + expression
  {
    assert ".cfa" + ": " == ".cfa: " && ".ra" + ": " == ".ra: ";
  }

  lemma NoRegisters(info: Info)
    ensures RulesOf(info, [])
      == (if info.cfa == "" then [] else [Rule(".cfa", info.cfa)])
           + if info.ra == "" then [] else [Rule(".ra", info.ra)]
  {
  }

  lemma PrintedSpecial(info: Info)
    ensures Printed(RulesOf(info, []))
      == var cfa := if info.cfa == "" then "" else ".cfa: " + info.cfa;
         if info.ra == "" then cfa else Spaced(cfa, ".ra: " + info.ra)
  {
    hide Printed, RulesOf, Rule.Text, Spaced;
    var cfa, ra := Rule(".cfa", info.cfa), Rule(".ra", info.ra);
    var first := if info.cfa == "" then [] else [cfa];
    NoRegisters(info);
    SpecialTexts(info.cfa);
    SpecialTexts(info.ra);
    NothingPrinted();
    OnePrinted(cfa);
    PrintedMore(first, ra);
    assert first + [] == first;
  }

  lemma PrintedRegister(info: Info, order: seq<string>, name: string)
    requires (forall k :: k in order ==> k in info.registers) && name in info.registers
    ensures Printed(RulesOf(info, order + [name]))
      == Spaced(Printed(RulesOf(info, order)), name + ": " + info.registers[name])
  {
    var r := Rule(name, info.registers[name]);
    assert RulesOf(info, order + [name]) == RulesOf(info, order) + [r];
    PrintedMore(RulesOf(info, order), r);
  }

  lemma PrintedMore(rules: seq<Rule>, r: Rule)
    ensures Printed(rules + [r]) == Spaced(Printed(rules), r.Text())
  {
    assert (rules + [r])[..|rules|] == rules;
  }

  /** The tokens still to come after one call of `strtok_r`. */
  function Coming(token: Option<string>, rest: string): seq<string> {
    match token
    case None => []
    case Some(t) => [t] + Tokens(rest, BREAKS)
  }

  /** What a list of tokens makes of a rule set. */
  function Outcome(info: Info, tokens: seq<string>, name: string, expression: string): (bool, Info) {
    var (ok, rules) := Reads(tokens, name, expression);
    (ok, WithAll(info, rules))
  }

  lemma EndStep(info: Info, name: string, expression: string)
    ensures Outcome(info, [], name, expression)
      == if name != "" && expression != "" then (true, info.With(Rule(name, expression))) else (false, info)
  {
    WithOne(info, Rule(name, expression));
  }

  lemma WordStep(info: Info, token: string, tokens: seq<string>, name: string, expression: string)
    requires !IsName(token)
    ensures Outcome(info, [token] + tokens, name, expression) == Outcome(info, tokens, name, Spaced(expression, token))
  {
    assert ([token] + tokens)[1..] == tokens;
  }

  lemma NameStep(info: Info, token: string, tokens: seq<string>, name: string, expression: string)
    requires IsName(token)
    ensures Outcome(info, [token] + tokens, name, expression)
      == if |token| < 2 || ((name == "") != (expression == "")) then (false, info)
         else Outcome(if name == "" then info else info.With(Rule(name, expression)), tokens, token[..|token| - 1], "")
  {
    assert ([token] + tokens)[1..] == tokens;
    var later := Reads(tokens, token[..|token| - 1], "").1;
    WithFirst(info, Rule(name, expression), later);
    assert [] + later == later;
  }

  class CFIRuleParser {
    const handler: CFIFrameInfo
    var name: string
    var expression: string

    constructor (handler: CFIFrameInfo)
      ensures this.handler == handler
    {
      this.handler, name, expression := handler, "", "";
    }

    method Parse(ruleSet: string) returns (ok: bool)
      modifies this, handler
      ensures (ok, handler.Value()) == Outcome(old(handler.Value()), Tokens(ruleSet, BREAKS), "", "")
    {
      hide Outcome, Tokens, Next;
      name, expression := "", "";
      NextIsFirst(ruleSet, BREAKS);
      var next := Next(ruleSet, BREAKS);
      var token, rest := next.0, next.1;
      ghost var goal := Outcome(handler.Value(), Tokens(ruleSet, BREAKS), "", "");
      while token.Some?
        invariant token.Some? ==> token.value != ""
        invariant Outcome(handler.Value(), Coming(token, rest), name, expression) == goal
        decreases token.Some?, |rest|
      {
        var t := token.value;
        if t[|t| - 1] == ':' {
          NameStep(handler.Value(), t, Tokens(rest, BREAKS), name, expression);
          if |t| < 2 {
            return false;
          }
          if name != "" || expression != "" {
            var reported := Report();
            if !reported {
              return false;
            }
          }
          name, expression := t[..|t| - 1], "";
        } else {
          WordStep(handler.Value(), t, Tokens(rest, BREAKS), name, expression);
          if expression != "" {
            expression := expression + " ";
          }
          assert "" + t == t;
          expression := expression + t;
        }
        NextIsFirst(rest, BREAKS);
        next := Next(rest, BREAKS);
        token, rest := next.0, next.1;
      }
      EndStep(handler.Value(), name, expression);
      ok := Report();
    }

    method Report() returns (ok: bool)
      modifies handler
      ensures ok <==> name != "" && expression != ""
      ensures handler.Value() == if ok then old(handler.Value()).With(Rule(name, expression)) else old(handler.Value())
    {
      if name == "" || expression == "" {
        return false;
      }
      if name == ".cfa" {
        handler.SetCFARule(expression);
      } else if name == ".ra" {
        handler.SetRARule(expression);
      } else {
        handler.SetRegisterRule(name, expression);
      }
      ok := true;
    }
  }
}
