// client-windows/internal/mapping/mapping.go: from a process name to the
// activity that may be reported.
module Mapping {
  import opened Wrappers
  import opened Clock
  import Text

  datatype TitlePattern = TitlePattern(pattern: string, description: string)
  datatype Rule = Rule(process: string, app: string, description: string, patterns: seq<TitlePattern>)

  datatype Options = Options(
    rules: seq<Rule>,
    exposeTitle: seq<string>,
    defaultApp: string, defaultDescription: string,
    lockedApp: string, lockedDescription: string,
    idleThreshold: int)

  /** The regular expressions: which patterns compile, and what they match. */
  datatype Engine = Engine(compiles: string -> bool, matches: (string, string) -> bool)

  datatype Reason = Empty | Duplicate | BadPattern | NoRule
  datatype RuleError = RuleError(index: nat, pattern: int, exposeTitle: bool, process: string, field: string,
                                 reason: Reason)

  datatype Activity = Activity(app: string, description: string, idle: bool, idleSeconds: int, locked: bool)

  datatype CompiledRule = CompiledRule(app: string, description: string, patterns: seq<TitlePattern>)
  datatype Mapper = Mapper(
    rules: map<string, CompiledRule>,
    expose: set<string>,
    defaultApp: string, defaultDescription: string,
    lockedApp: string, lockedDescription: string,
    idleThreshold: int)

  function KeyOf(r: Rule): string { Text.Normalize(r.process) }

  // ---------- What is accepted ----------

  predicate Compile(r: Rule, engine: Engine) {
    forall j | 0 <= j < |r.patterns| :: engine.compiles(r.patterns[j].pattern)
  }

  predicate DistinctKeys(rules: seq<Rule>) {
    forall i, j | 0 <= i < j < |rules| :: KeyOf(rules[i]) != KeyOf(rules[j])
  }

  predicate RulesAccepted(rules: seq<Rule>, engine: Engine) {
    && DistinctKeys(rules)
    && forall i | 0 <= i < |rules| :: KeyOf(rules[i]) != "" && Compile(rules[i], engine)
  }

  predicate HasRule(rules: seq<Rule>, key: string) {
    exists i | 0 <= i < |rules| :: KeyOf(rules[i]) == key
  }

  predicate ExposeAccepted(rules: seq<Rule>, expose: seq<string>) {
    forall i | 0 <= i < |expose| :: HasRule(rules, Text.Normalize(expose[i]))
  }

  /** Non-empty distinct names, patterns that compile, and a rule for everything exposed. */
  predicate Accepts(opts: Options, engine: Engine) {
    RulesAccepted(opts.rules, engine) && ExposeAccepted(opts.rules, opts.exposeTitle)
  }

  /** What is wrong at one rule when everything before it is right. */
  predicate RuleFault(rules: seq<Rule>, engine: Engine, e: RuleError) {
    && !e.exposeTitle && e.index < |rules|
    && RulesAccepted(rules[..e.index], engine)
    && var r := rules[e.index];
       match e.reason
       case Empty => e.pattern == -1 && e.field == "process" && e.process == "" && KeyOf(r) == ""
       case Duplicate =>
         && e.pattern == -1 && e.field == "process" && e.process == r.process
         && KeyOf(r) != "" && HasRule(rules[..e.index], KeyOf(r))
       case BadPattern =>
         && 0 <= e.pattern < |r.patterns| && e.field == "match" && e.process == r.process
         && KeyOf(r) != "" && !HasRule(rules[..e.index], KeyOf(r))
         && (forall j | 0 <= j < e.pattern :: engine.compiles(r.patterns[j].pattern))
         && !engine.compiles(r.patterns[e.pattern].pattern)
       case NoRule => false
  }

  /** What is wrong at one exposed name when all rules and earlier names are right. */
  predicate ExposeFault(opts: Options, engine: Engine, e: RuleError) {
    && e.exposeTitle && e.index < |opts.exposeTitle| && e.pattern == -1 && e.field == ""
    && RulesAccepted(opts.rules, engine) && ExposeAccepted(opts.rules, opts.exposeTitle[..e.index])
    && var p := opts.exposeTitle[e.index];
       match e.reason
       case Empty => e.process == "" && Text.Normalize(p) == ""
       case NoRule => e.process == p && Text.Normalize(p) != "" && !HasRule(opts.rules, Text.Normalize(p))
       case _ => false
  }

  /** The first thing that is wrong. */
  predicate FirstFault(opts: Options, engine: Engine, e: RuleError) {
    RuleFault(opts.rules, engine, e) || ExposeFault(opts, engine, e)
  }

  lemma FaultRejects(opts: Options, engine: Engine, e: RuleError)
    requires FirstFault(opts, engine, e)
    ensures !Accepts(opts, engine)
  {
    hide Text.Normalize;
  }

  // ---------- Building the index ----------

  function Compiled(r: Rule): CompiledRule { CompiledRule(r.app, r.description, r.patterns) }

  /** A map holds the rules of a list, each under its own name. */
  ghost predicate IndexOf(m: map<string, CompiledRule>, rules: seq<Rule>) {
    && (forall k :: k in m <==> HasRule(rules, k))
    && (forall i | 0 <= i < |rules| :: KeyOf(rules[i]) in m && m[KeyOf(rules[i])] == Compiled(rules[i]))
  }

  ghost predicate Exposes(s: set<string>, expose: seq<string>) {
    forall k :: k in s <==> exists i | 0 <= i < |expose| :: Text.Normalize(expose[i]) == k
  }

  ghost predicate Indexes(m: Mapper, opts: Options) {
    && IndexOf(m.rules, opts.rules) && Exposes(m.expose, opts.exposeTitle)
    && m.defaultApp == opts.defaultApp && m.defaultDescription == opts.defaultDescription
    && m.lockedApp == opts.lockedApp && m.lockedDescription == opts.lockedDescription
    && m.idleThreshold == opts.idleThreshold
  }

  lemma HasRuleOneMore(rules: seq<Rule>, i: nat, key: string)
    requires i < |rules|
    ensures HasRule(rules[..i + 1], key) <==> HasRule(rules[..i], key) || KeyOf(rules[i]) == key
  {
    hide KeyOf;
    assert rules[..i + 1][i] == rules[i];
    if HasRule(rules[..i], key) {
      var j :| 0 <= j < i && KeyOf(rules[..i][j]) == key;
      assert KeyOf(rules[..i + 1][j]) == key;
    }
    if HasRule(rules[..i + 1], key) && KeyOf(rules[i]) != key {
      var j :| 0 <= j < i + 1 && KeyOf(rules[..i + 1][j]) == key;
      assert KeyOf(rules[..i][j]) == key;
    }
  }

  lemma AcceptOneMore(rules: seq<Rule>, i: nat, engine: Engine)
    requires i < |rules| && RulesAccepted(rules[..i], engine)
    requires KeyOf(rules[i]) != "" && !HasRule(rules[..i], KeyOf(rules[i])) && Compile(rules[i], engine)
    ensures RulesAccepted(rules[..i + 1], engine)
  {
    hide KeyOf, Compile;
    var more := rules[..i + 1];
    forall j | 0 <= j < |more| ensures KeyOf(more[j]) != "" && Compile(more[j], engine) {
      if j < i { assert more[j] == rules[..i][j]; }
    }
    forall j, k | 0 <= j < k < |more| ensures KeyOf(more[j]) != KeyOf(more[k]) {
      assert more[j] == rules[..i][j];
      if k < i { assert more[k] == rules[..i][k]; }
    }
  }

  lemma IndexOneMore(m: map<string, CompiledRule>, rules: seq<Rule>, i: nat)
    requires i < |rules| && IndexOf(m, rules[..i]) && !HasRule(rules[..i], KeyOf(rules[i]))
    ensures IndexOf(m[KeyOf(rules[i]) := Compiled(rules[i])], rules[..i + 1])
  {
    hide KeyOf, Compiled, HasRule;
    var more, m' := rules[..i + 1], m[KeyOf(rules[i]) := Compiled(rules[i])];
    forall k ensures k in m' <==> HasRule(more, k) { HasRuleOneMore(rules, i, k); }
    forall j | 0 <= j < |more| ensures KeyOf(more[j]) in m' && m'[KeyOf(more[j])] == Compiled(more[j]) {
      if j < i {
        assert more[j] == rules[..i][j];
      }
    }
  }

  method CompilePatterns(r: Rule, engine: Engine) returns (bad: Option<nat>)
    ensures bad.None? <==> Compile(r, engine)
    ensures bad.Some? ==> && bad.value < |r.patterns|
                          && !engine.compiles(r.patterns[bad.value].pattern)
                          && forall j | 0 <= j < bad.value :: engine.compiles(r.patterns[j].pattern)
  {
    for j := 0 to |r.patterns|
      invariant forall k | 0 <= k < j :: engine.compiles(r.patterns[k].pattern)
    {
      if !engine.compiles(r.patterns[j].pattern) { return Some(j); }
    }
    return None;
  }

  /** What is wrong at rule `i`, with the rules before it accepted and indexed. */
  method CheckRule(rules: seq<Rule>, i: nat, m: map<string, CompiledRule>, engine: Engine)
      returns (fault: Option<RuleError>)
    requires i < |rules| && RulesAccepted(rules[..i], engine) && IndexOf(m, rules[..i])
    ensures fault.None? ==>
              KeyOf(rules[i]) != "" && !HasRule(rules[..i], KeyOf(rules[i])) && Compile(rules[i], engine)
    ensures fault.Some? ==> RuleFault(rules, engine, fault.value)
  {
    hide KeyOf, Text.Normalize, IndexOf, RulesAccepted, HasRule;
    var r := rules[i];
    InIndex(m, rules[..i], KeyOf(r));
    if KeyOf(r) == "" { return Some(RuleError(i, -1, false, "", "process", Empty)); }
    if KeyOf(r) in m { return Some(RuleError(i, -1, false, r.process, "process", Duplicate)); }
    var bad := CompilePatterns(r, engine);
    if bad.Some? { return Some(RuleError(i, bad.value, false, r.process, "match", BadPattern)); }
    return None;
  }

  method BuildRules(rules: seq<Rule>, engine: Engine) returns (r: Result<map<string, CompiledRule>, RuleError>)
    ensures r.Ok? ==> RulesAccepted(rules, engine) && IndexOf(r.value, rules)
    ensures r.Err? ==> RuleFault(rules, engine, r.error)
  {
    assert RulesAccepted(rules[..0], engine) && IndexOf(map[], rules[..0]);
    hide KeyOf, Text.Normalize, Compile, IndexOf, RulesAccepted, HasRule, RuleFault, Compiled;
    var m: map<string, CompiledRule> := map[];
    for i := 0 to |rules|
      invariant RulesAccepted(rules[..i], engine) && IndexOf(m, rules[..i])
    {
      var fault := CheckRule(rules, i, m, engine);
      if fault.Some? { return Err(fault.value); }
      AcceptOneMore(rules, i, engine);
      IndexOneMore(m, rules, i);
      m := m[KeyOf(rules[i]) := Compiled(rules[i])];
    }
    assert rules[..|rules|] == rules;
    return Ok(m);
  }

  lemma InIndex(m: map<string, CompiledRule>, rules: seq<Rule>, key: string)
    requires IndexOf(m, rules)
    ensures key in m <==> HasRule(rules, key)
  {}

  /** Accepts exactly the acceptable options, reports the first fault of the
      others, and indexes the rules by normalised name. */
  method New(opts: Options, engine: Engine) returns (r: Result<Mapper, RuleError>)
    ensures r.Ok? <==> Accepts(opts, engine)
    ensures r.Ok? ==> Indexes(r.value, opts)
    ensures r.Err? ==> FirstFault(opts, engine, r.error)
  {
    hide Text.Normalize, IndexOf, RulesAccepted, HasRule, RuleFault;
    var built := BuildRules(opts.rules, engine);
    if built.Err? {
      FaultRejects(opts, engine, built.error);
      return Err(built.error);
    }
    var m := built.value;
    var expose: set<string> := {};
    for i := 0 to |opts.exposeTitle|
      invariant ExposeAccepted(opts.rules, opts.exposeTitle[..i]) && Exposes(expose, opts.exposeTitle[..i])
    {
      var key := Text.Normalize(opts.exposeTitle[i]);
      InIndex(m, opts.rules, key);
      if key == "" {
        var e := RuleError(i, -1, true, "", "", Empty);
        FaultRejects(opts, engine, e);
        return Err(e);
      }
      if key !in m {
        var e := RuleError(i, -1, true, opts.exposeTitle[i], "", NoRule);
        FaultRejects(opts, engine, e);
        return Err(e);
      }
      expose := expose + {key};
    }
    assert opts.exposeTitle[..|opts.exposeTitle|] == opts.exposeTitle;
    return Ok(Mapper(m, expose, opts.defaultApp, opts.defaultDescription, opts.lockedApp, opts.lockedDescription,
                     opts.idleThreshold));
  }

  // ---------- Resolving ----------

  /** The raw title behind the lazy getter, and how often it was read. */
  class TitleSource {
    const title: string
    var calls: nat

    method Get() returns (s: string)
      modifies this
      ensures s == title && calls == old(calls) + 1
    {
      calls := calls + 1;
      s := title;
    }
  }

  function RawTitle(t: TitleSource?): string { if t == null then "" else t.title }

  /** The rule of a process, by looking through the list. */
  function LookUp(rules: seq<Rule>, key: string): Option<Rule> {
    if rules == [] then None
    else if KeyOf(rules[0]) == key then Some(rules[0])
    else LookUp(rules[1..], key)
  }

  function FirstMatch(patterns: seq<TitlePattern>, raw: string, engine: Engine): Option<TitlePattern> {
    if patterns == [] then None
    else if engine.matches(patterns[0].pattern, raw) then Some(patterns[0])
    else FirstMatch(patterns[1..], raw, engine)
  }

  predicate Exposed(expose: seq<string>, key: string) {
    exists i | 0 <= i < |expose| :: Text.Normalize(expose[i]) == key
  }

  predicate NeedsTitle(opts: Options, key: string) {
    var rule := LookUp(opts.rules, key);
    key != "" && rule.Some? && (Exposed(opts.exposeTitle, key) || rule.value.patterns != [])
  }

  /** The description a rule gives to a title. */
  function Describe(rule: Rule, exposed: bool, raw: string, engine: Engine): string {
    if exposed then (if Text.Trim(raw) != "" then Text.Trim(raw) else rule.description)
    else
      var first := FirstMatch(rule.patterns, raw, engine);
      if first.Some? then first.value.description else rule.description
  }

  /** What is reported, straight from the rule list. */
  function ResolveFromList(opts: Options, engine: Engine, process: string, raw: string, idleSeconds: int): Activity {
    var seconds := if idleSeconds < 0 then 0 else idleSeconds;
    var idle := Wrap64(seconds * SECOND) >= opts.idleThreshold;
    var key := Text.Normalize(process);
    var rule := LookUp(opts.rules, key);
    if key == "" then Activity(opts.lockedApp, opts.lockedDescription, idle, seconds, true)
    else if rule.None? then Activity(opts.defaultApp, opts.defaultDescription, idle, seconds, false)
    else
      var description := Describe(rule.value, Exposed(opts.exposeTitle, key), raw, engine);
      Activity(rule.value.app, description, idle, seconds, false)
  }

  lemma {:induction false} LookUpFinds(rules: seq<Rule>, key: string)
    ensures LookUp(rules, key).Some? <==> HasRule(rules, key)
    ensures LookUp(rules, key).Some? ==>
              LookUp(rules, key).value in rules && KeyOf(LookUp(rules, key).value) == key
  {
    hide KeyOf;
    if rules != [] {
      LookUpFinds(rules[1..], key);
      if HasRule(rules, key) && KeyOf(rules[0]) != key {
        var i :| 0 <= i < |rules| && KeyOf(rules[i]) == key;
        assert KeyOf(rules[1..][i - 1]) == key;
      }
      if HasRule(rules[1..], key) {
        var i :| 0 <= i < |rules| - 1 && KeyOf(rules[1..][i]) == key;
        assert KeyOf(rules[i + 1]) == key;
      }
    }
  }

  /** The first pattern that matches is the one with none before it. */
  lemma {:induction false} FirstMatchAt(patterns: seq<TitlePattern>, raw: string, engine: Engine, j: nat)
    requires j < |patterns| && engine.matches(patterns[j].pattern, raw)
    requires forall k | 0 <= k < j :: !engine.matches(patterns[k].pattern, raw)
    ensures FirstMatch(patterns, raw, engine) == Some(patterns[j])
  {
    if j > 0 { FirstMatchAt(patterns[1..], raw, engine, j - 1); }
  }

  /** What does not depend on the rules: the idle seconds are never negative and are
      compared with the threshold, no process is the locked screen, and a process
      without a rule is reported by the defaults. */
  lemma ResolvesWithoutRule(opts: Options, engine: Engine, process: string, raw: string, idleSeconds: int)
    ensures var act := ResolveFromList(opts, engine, process, raw, idleSeconds);
            && act.idleSeconds == (if idleSeconds < 0 then 0 else idleSeconds)
            && (act.idleSeconds <= 9_223_372_036 ==> (act.idle <==> act.idleSeconds * SECOND >= opts.idleThreshold))
            && (act.locked <==> Text.Normalize(process) == "")
            && (act.locked ==> act.app == opts.lockedApp && act.description == opts.lockedDescription)
            && (!act.locked && (forall r | r in opts.rules :: Text.Normalize(r.process) != Text.Normalize(process)) ==>
                  act.app == opts.defaultApp && act.description == opts.defaultDescription)
  {
    hide Text.Normalize, Describe, Exposed;
    LookUpFinds(opts.rules, Text.Normalize(process));
    var seconds := if idleSeconds < 0 then 0 else idleSeconds;
    assert seconds <= 9_223_372_036 ==> IsInt64(seconds * SECOND);
    hide Wrap64;
  }

  /** A process with a rule is reported under the rule's app. An exposed one carries
      its trimmed title, or the rule's description when that is blank; any other the
      description of the first pattern that matches, or the rule's when none does. */
  lemma RuleResolves(opts: Options, engine: Engine, process: string, raw: string, idleSeconds: int, r: Rule)
    requires DistinctKeys(opts.rules) && r in opts.rules
    requires Text.Normalize(r.process) == Text.Normalize(process) != ""
    ensures var act := ResolveFromList(opts, engine, process, raw, idleSeconds);
            && act.app == r.app && !act.locked
            && if exists e :: e in opts.exposeTitle && Text.Normalize(e) == Text.Normalize(process)
               then act.description == if Text.Trim(raw) != "" then Text.Trim(raw) else r.description
               else
                 && (forall j | 0 <= j < |r.patterns| && engine.matches(r.patterns[j].pattern, raw)
                       && (forall k | 0 <= k < j :: !engine.matches(r.patterns[k].pattern, raw)) ::
                       act.description == r.patterns[j].description)
                 && ((forall j | 0 <= j < |r.patterns| :: !engine.matches(r.patterns[j].pattern, raw)) ==>
                       act.description == r.description)
  {
    hide Text.Normalize, Text.Trim, Wrap64;
    var key := Text.Normalize(process);
    LookUpFinds(opts.rules, key);
    assert LookUp(opts.rules, key) == Some(r) by {
      assert KeyOf(r) == key;
      assert HasRule(opts.rules, key);
    }
    hide LookUp;
    forall j | 0 <= j < |r.patterns| && engine.matches(r.patterns[j].pattern, raw)
        && (forall k | 0 <= k < j :: !engine.matches(r.patterns[k].pattern, raw))
      ensures FirstMatch(r.patterns, raw, engine) == Some(r.patterns[j])
    {
      FirstMatchAt(r.patterns, raw, engine, j);
    }
    if forall j | 0 <= j < |r.patterns| :: !engine.matches(r.patterns[j].pattern, raw) {
      FirstMatchIn(r.patterns, raw, engine);
      assert FirstMatch(r.patterns, raw, engine).None?;
    }
    hide FirstMatch;
  }

  lemma IndexAgrees(m: map<string, CompiledRule>, rules: seq<Rule>, key: string)
    requires IndexOf(m, rules)
    ensures key in m <==> LookUp(rules, key).Some?
    ensures key in m ==> m[key] == Compiled(LookUp(rules, key).value)
  {
    hide KeyOf;
    LookUpFinds(rules, key);
  }

  lemma ExposeAgrees(s: set<string>, expose: seq<string>, key: string)
    requires Exposes(s, expose)
    ensures key in s <==> Exposed(expose, key)
  {
    hide Text.Normalize;
  }

  method ReadTitle(title: TitleSource?) returns (raw: string)
    modifies title
    ensures raw == RawTitle(title)
    ensures title != null ==> title.calls == old(title.calls) + 1
  {
    if title == null { return ""; }
    raw := title.Get();
  }

  /** The title is needed for a process with a rule that is exposed or has patterns,
      and for no other. */
  lemma NeedsTitleIff(opts: Options, process: string)
    requires DistinctKeys(opts.rules)
    ensures NeedsTitle(opts, Text.Normalize(process)) <==>
            Text.Normalize(process) != "" &&
            exists r :: r in opts.rules && Text.Normalize(r.process) == Text.Normalize(process)
                        && (r.patterns != [] || exists e :: e in opts.exposeTitle
                                                            && Text.Normalize(e) == Text.Normalize(process))
  {
    hide Text.Normalize;
    var key := Text.Normalize(process);
    LookUpFinds(opts.rules, key);
    assert forall r | r in opts.rules && KeyOf(r) == key :: LookUp(opts.rules, key) == Some(r);
    assert Exposed(opts.exposeTitle, key) <==> exists e :: e in opts.exposeTitle && Text.Normalize(e) == key;
  }

  /** The index agrees with the list, and the title is read at most once: exactly
      when a rule of the process is exposed or has patterns. */
  method Resolve(m: Mapper, ghost opts: Options, engine: Engine, process: string, title: TitleSource?, idleSeconds: int)
      returns (act: Activity)
    requires Indexes(m, opts)
    modifies title
    ensures act == ResolveFromList(opts, engine, process, RawTitle(title), idleSeconds)
    ensures title != null ==>
              title.calls == old(title.calls) + if NeedsTitle(opts, Text.Normalize(process)) then 1 else 0
  {
    hide Text.Normalize, IndexOf, Exposes, LookUp, Exposed, Wrap64;
    var seconds := if idleSeconds < 0 then 0 else idleSeconds;
    act := Activity("", "", Wrap64(seconds * SECOND) >= m.idleThreshold, seconds, false);
    var key := Text.Normalize(process);
    IndexAgrees(m.rules, opts.rules, key);
    ExposeAgrees(m.expose, opts.exposeTitle, key);
    if key == "" {
      act := act.(app := m.lockedApp, description := m.lockedDescription, locked := true);
      return;
    }
    if key !in m.rules {
      act := act.(app := m.defaultApp, description := m.defaultDescription);
      return;
    }
    var rule := m.rules[key];
    act := act.(app := rule.app, description := rule.description);
    if key in m.expose {
      var raw := ReadTitle(title);
      if Text.Trim(raw) != "" { act := act.(description := Text.Trim(raw)); }
      return;
    }
    if |rule.patterns| > 0 {
      var raw := ReadTitle(title);
      var first := MatchFirst(rule.patterns, raw, engine);
      if first.Some? { act := act.(description := first.value.description); }
    }
  }

  method MatchFirst(patterns: seq<TitlePattern>, raw: string, engine: Engine) returns (first: Option<TitlePattern>)
    ensures first == FirstMatch(patterns, raw, engine)
  {
    for i := 0 to |patterns|
      invariant FirstMatch(patterns, raw, engine) == FirstMatch(patterns[i..], raw, engine)
    {
      if engine.matches(patterns[i].pattern, raw) {
        return Some(patterns[i]);
      }
      assert patterns[i..][1..] == patterns[i + 1..];
    }
    return None;
  }

  // ---------- What is reported ----------

  /** Every description a configuration spells out. */
  ghost predicate Configured(opts: Options, description: string) {
    || description == opts.lockedDescription || description == opts.defaultDescription
    || (exists i | 0 <= i < |opts.rules| :: description == opts.rules[i].description)
    || (exists i, j | 0 <= i < |opts.rules| && 0 <= j < |opts.rules[i].patterns| ::
          description == opts.rules[i].patterns[j].description)
  }

  lemma {:induction false} FirstMatchIn(patterns: seq<TitlePattern>, raw: string, engine: Engine)
    ensures var f := FirstMatch(patterns, raw, engine);
            f.Some? ==> f.value in patterns && engine.matches(f.value.pattern, raw)
  {
    if patterns != [] && !engine.matches(patterns[0].pattern, raw) {
      FirstMatchIn(patterns[1..], raw, engine);
    }
  }

  /** The raw title of a process that is not exposed is never reported: the
      description is one the configuration spells out. */
  lemma TitleStaysHere(opts: Options, engine: Engine, process: string, raw: string, idleSeconds: int)
    requires !Exposed(opts.exposeTitle, Text.Normalize(process))
    ensures Configured(opts, ResolveFromList(opts, engine, process, raw, idleSeconds).description)
  {
    hide Text.Normalize, Wrap64;
    var key := Text.Normalize(process);
    LookUpFinds(opts.rules, key);
    var rule := LookUp(opts.rules, key);
    if key != "" && rule.Some? {
      var i :| 0 <= i < |opts.rules| && opts.rules[i] == rule.value;
      FirstMatchIn(rule.value.patterns, raw, engine);
      var first := FirstMatch(rule.value.patterns, raw, engine);
      if first.Some? {
        var j :| 0 <= j < |rule.value.patterns| && rule.value.patterns[j] == first.value;
        assert opts.rules[i].patterns[j].description == first.value.description;
      }
    }
  }

  lemma {:induction false} SameMatches(patterns: seq<TitlePattern>, raw: string, other: string, engine: Engine)
    requires forall p | p in patterns :: engine.matches(p.pattern, raw) == engine.matches(p.pattern, other)
    ensures FirstMatch(patterns, raw, engine) == FirstMatch(patterns, other, engine)
  {
    if patterns != [] {
      assert patterns[0] in patterns;
      SameMatches(patterns[1..], raw, other, engine);
    }
  }

  /** Two titles no pattern tells apart are reported alike. */
  lemma TitleIndistinguishable(opts: Options, engine: Engine, process: string, raw: string, other: string, idle: int)
    requires !Exposed(opts.exposeTitle, Text.Normalize(process))
    requires forall r, p | r in opts.rules && p in r.patterns ::
               engine.matches(p.pattern, raw) == engine.matches(p.pattern, other)
    ensures ResolveFromList(opts, engine, process, raw, idle) == ResolveFromList(opts, engine, process, other, idle)
  {
    hide Text.Normalize, Wrap64;
    var key := Text.Normalize(process);
    LookUpFinds(opts.rules, key);
    var rule := LookUp(opts.rules, key);
    if key != "" && rule.Some? { SameMatches(rule.value.patterns, raw, other, engine); }
  }
}
