// client-windows/webui/src/lib/rules.ts: the setup page's edits of a draft, and
// why the agent still accepts what they leave.
module RuleEditor {
  import opened Mapping
  import opened Wrappers
  import Text

  type Draft = Options

  // ---------- Names as the page compares them ----------

  /** ECMAScript white space: no U+0085, but U+FEFF. */
  predicate IsJsSpace(c: char) { (Text.IsSpace(c) && c != '\U{85}') || c == '\U{FEFF}' }

  function JsTrimLeft(s: string): (r: string)
    ensures r == "" || !IsJsSpace(r[0])
    ensures |r| <= |s| && r == s[|s| - |r|..] && forall k | 0 <= k < |s| - |r| :: IsJsSpace(s[k])
  {
    if s != "" && IsJsSpace(s[0]) then JsTrimLeft(s[1..]) else s
  }

  function JsTrimRight(s: string): (r: string)
    ensures r == "" || !IsJsSpace(r[|r| - 1])
    ensures |r| <= |s| && r == s[..|r|] && forall k | |r| <= k < |s| :: IsJsSpace(s[k])
  {
    if s != "" && IsJsSpace(s[|s| - 1]) then JsTrimRight(s[..|s| - 1]) else s
  }

  function NormalizeProcess(process: string): string { Text.Lower(JsTrimRight(JsTrimLeft(process))) }

  predicate SameProcess(a: string, b: string) { NormalizeProcess(a) == NormalizeProcess(b) }

  /** White space around a name does not count for the page. */
  lemma PageTrims(before: string, name: string, after: string)
    requires forall c | c in before || c in after :: IsJsSpace(c)
    requires name != "" && !IsJsSpace(name[0]) && !IsJsSpace(name[|name| - 1])
    ensures NormalizeProcess(before + name + after) == Text.Lower(name)
  {
    hide IsJsSpace, JsTrimLeft, JsTrimRight, Text.Lower;
    var s := before + name + after;
    assert s[|before|] == name[0] && s[|before| + |name| - 1] == name[|name| - 1];
    assert forall k | 0 <= k < |before| :: s[k] in before;
    var left := JsTrimLeft(s);
    assert left == name + after;
    assert forall k | |name| <= k < |left| :: left[k] in after;
    assert left[|name| - 1] == name[|name| - 1];
    assert JsTrimRight(left) == name;
  }

  // ---------- The edits ----------

  function RemoveAt<T>(xs: seq<T>, i: int): seq<T> {
    if 0 <= i < |xs| then xs[..i] + xs[i + 1..] else xs
  }

  function InsertAt<T>(xs: seq<T>, i: nat, x: T): seq<T>
    requires i <= |xs|
  {
    xs[..i] + [x] + xs[i..]
  }

  /** Two splices: take one out, put it back elsewhere. */
  function Move<T>(xs: seq<T>, from: int, to: int): seq<T> {
    if from == to || !(0 <= from < |xs|) || !(0 <= to < |xs|) then xs
    else InsertAt(RemoveAt(xs, from), to, xs[from])
  }

  /** The exposed names that are not `process`. */
  function Without(expose: seq<string>, process: string): seq<string> {
    if expose == [] then []
    else (if SameProcess(expose[0], process) then [] else [expose[0]]) + Without(expose[1..], process)
  }

  function WithPatterns(d: Draft, index: int, patterns: seq<TitlePattern>): Draft {
    if 0 <= index < |d.rules| then d.(rules := d.rules[index := d.rules[index].(patterns := patterns)]) else d
  }

  function RemoveRule(d: Draft, index: int): Draft {
    if 0 <= index < |d.rules|
    then d.(rules := RemoveAt(d.rules, index), exposeTitle := Without(d.exposeTitle, d.rules[index].process))
    else d
  }

  function RemovePattern(d: Draft, rule: int, index: int): Draft {
    if 0 <= rule < |d.rules| then WithPatterns(d, rule, RemoveAt(d.rules[rule].patterns, index)) else d
  }

  function MovePattern(d: Draft, rule: int, from: int, to: int): Draft {
    if 0 <= rule < |d.rules| then WithPatterns(d, rule, Move(d.rules[rule].patterns, from, to)) else d
  }

  function SetExposeTitle(d: Draft, process: string, exposed: bool): Draft {
    var without := Without(d.exposeTitle, process);
    d.(exposeTitle := if exposed then without + [process] else without)
  }

  datatype Edit =
    | RemovingRule(index: int)
    | RemovingPattern(rule: int, index: int)
    | MovingPattern(rule: int, from: int, to: int)
    | Exposing(rule: int, exposed: bool)

  /** The page offers an exposure next to the rule it is for. */
  function Apply(d: Draft, e: Edit): Draft {
    match e
    case RemovingRule(i) => RemoveRule(d, i)
    case RemovingPattern(r, i) => RemovePattern(d, r, i)
    case MovingPattern(r, i, j) => MovePattern(d, r, i, j)
    case Exposing(r, on) => if 0 <= r < |d.rules| then SetExposeTitle(d, d.rules[r].process, on) else d
  }

  function ApplyAll(d: Draft, edits: seq<Edit>): Draft
    decreases |edits|
  {
    if edits == [] then d else ApplyAll(Apply(d, edits[0]), edits[1..])
  }

  // ---------- What an edit does ----------

  /** Removing a rule takes out that rule and the names the page takes for it. */
  lemma RemovingEffect(d: Draft, i: int)
    ensures var after := Apply(d, RemovingRule(i));
            if 0 <= i < |d.rules| then
              && after == d.(rules := after.rules, exposeTitle := after.exposeTitle)
              && |after.rules| == |d.rules| - 1
              && (forall k | 0 <= k < |after.rules| :: after.rules[k] == d.rules[if k < i then k else k + 1])
              && (forall e :: e in after.exposeTitle <==>
                    e in d.exposeTitle && NormalizeProcess(e) != NormalizeProcess(d.rules[i].process))
            else after == d
  {
    hide NormalizeProcess;
    if 0 <= i < |d.rules| {
      forall e { WithoutMembers(d.exposeTitle, d.rules[i].process, e); }
    }
  }

  /** The other two edits of a rule touch the patterns of that rule and nothing
      else: one pattern goes, or one pattern changes places. */
  lemma PatternEffect(d: Draft, r: int, i: int, j: int)
    ensures Apply(d, RemovingPattern(r, i)) == if 0 <= r < |d.rules| && 0 <= i < |d.rules[r].patterns|
                                               then PatternsSet(d, r, Apply(d, RemovingPattern(r, i))) else d
    ensures Apply(d, MovingPattern(r, i, j)) == if 0 <= r < |d.rules|
                                                then PatternsSet(d, r, Apply(d, MovingPattern(r, i, j))) else d
    ensures 0 <= r < |d.rules| ==>
              var ps, qs := d.rules[r].patterns, Apply(d, MovingPattern(r, i, j)).rules[r].patterns;
              if !(0 <= i < |ps| && 0 <= j < |ps|) then qs == ps
              else
                && |qs| == |ps| && qs[j] == ps[i]
                && (forall k | 0 <= k < |ps| && k != j ::
                      qs[k] == ps[if i <= k < j then k + 1 else if j < k <= i then k - 1 else k])
    ensures 0 <= r < |d.rules| && 0 <= i < |d.rules[r].patterns| ==>
              var ps, qs := d.rules[r].patterns, Apply(d, RemovingPattern(r, i)).rules[r].patterns;
              |qs| == |ps| - 1 && forall k | 0 <= k < |qs| :: qs[k] == ps[if k < i then k else k + 1]
  {}

  /** `d` with the patterns of rule `r` taken from `after`. */
  function PatternsSet(d: Draft, r: int, after: Draft): Draft
    requires 0 <= r < |d.rules|
  {
    if r < |after.rules| then d.(rules := d.rules[r := d.rules[r].(patterns := after.rules[r].patterns)]) else d
  }

  /** Exposing changes the exposed names only: the spellings of the rule's process
      go, and the rule's own spelling comes when the box is ticked. */
  lemma ExposingEffect(d: Draft, r: int, exposed: bool)
    ensures var after := Apply(d, Exposing(r, exposed));
            if 0 <= r < |d.rules| then
              && after == d.(exposeTitle := after.exposeTitle)
              && forall e :: e in after.exposeTitle <==>
                   if exposed && e == d.rules[r].process then true
                   else e in d.exposeTitle && NormalizeProcess(e) != NormalizeProcess(d.rules[r].process)
            else after == d
  {
    hide NormalizeProcess;
    if 0 <= r < |d.rules| {
      forall e { WithoutMembers(d.exposeTitle, d.rules[r].process, e); }
    }
  }

  // ---------- Acceptance survives ----------

  /** The page and the agent agree on which rule an exposed name belongs to. */
  ghost predicate NamesAgree(d: Draft) {
    forall e, r | e in d.exposeTitle && r in d.rules ::
      Text.Normalize(e) == KeyOf(r) ==> SameProcess(e, r.process)
  }

  lemma {:induction false} WithoutMembers(expose: seq<string>, process: string, e: string)
    ensures e in Without(expose, process) <==> e in expose && !SameProcess(e, process)
  {
    if expose != [] { WithoutMembers(expose[1..], process, e); }
  }

  lemma RemoveAccepted(rules: seq<Rule>, i: nat, engine: Engine)
    requires i < |rules| && RulesAccepted(rules, engine)
    ensures RulesAccepted(RemoveAt(rules, i), engine)
    ensures forall k :: HasRule(RemoveAt(rules, i), k) <==> HasRule(rules, k) && k != KeyOf(rules[i])
  {
    hide KeyOf, Compile;
    var less := RemoveAt(rules, i);
    forall j | 0 <= j < |less| ensures less[j] == rules[if j < i then j else j + 1] {}
    forall k ensures HasRule(less, k) <==> HasRule(rules, k) && k != KeyOf(rules[i]) {
      if HasRule(rules, k) && k != KeyOf(rules[i]) {
        var j :| 0 <= j < |rules| && KeyOf(rules[j]) == k;
        assert KeyOf(less[if j < i then j else j - 1]) == k;
      }
      if HasRule(less, k) {
        var j :| 0 <= j < |less| && KeyOf(less[j]) == k;
        assert KeyOf(rules[if j < i then j else j + 1]) == k;
      }
    }
  }

  /** Removing a rule keeps a draft acceptable exactly when the page recognises
      every exposed name that the agent takes for the removed process. */
  lemma RemoveRuleIff(d: Draft, index: int, engine: Engine)
    requires Accepts(d, engine) && 0 <= index < |d.rules|
    ensures Accepts(RemoveRule(d, index), engine) <==>
              forall e | e in d.exposeTitle ::
                Text.Normalize(e) == KeyOf(d.rules[index]) ==> SameProcess(e, d.rules[index].process)
  {
    hide Text.Normalize, SameProcess, RulesAccepted, HasRule, KeyOf, RemoveAt, Without;
    var r, after := d.rules[index], RemoveRule(d, index);
    RemoveAccepted(d.rules, index, engine);
    ExposeAcceptedIn(d.rules, d.exposeTitle);
    ExposeAcceptedIn(after.rules, after.exposeTitle);
    forall e ensures e in after.exposeTitle <==> e in d.exposeTitle && !SameProcess(e, r.process) {
      WithoutMembers(d.exposeTitle, r.process, e);
    }
  }

  lemma ExposeAcceptedIn(rules: seq<Rule>, expose: seq<string>)
    ensures ExposeAccepted(rules, expose) <==> forall e | e in expose :: HasRule(rules, Text.Normalize(e))
  {
    hide Text.Normalize, HasRule;
  }

  /** A draft whose removal of a rule is refused: the agent ignores a trailing
      U+0085 in a name, the page does not. */
  lemma RemoveRuleExample(engine: Engine)
    ensures var d := Options([Rule("a", "", "", [])], ["a\U{85}"], "", "", "", "", 0);
            Accepts(d, engine) && !Accepts(RemoveRule(d, 0), engine)
  {
    hide Text.Normalize, NormalizeProcess;
    var d := Options([Rule("a", "", "", [])], ["a\U{85}"], "", "", "", "", 0);
    TrailingNel();
    assert HasRule(d.rules, "a") by { assert KeyOf(d.rules[0]) == "a"; }
    assert RemoveRule(d, 0).rules == [] && RemoveRule(d, 0).exposeTitle == d.exposeTitle;
    assert !ExposeAccepted([], d.exposeTitle) by { assert !HasRule([], Text.Normalize(d.exposeTitle[0])); }
  }

  lemma TrailingNel()
    ensures Text.Normalize("a\U{85}") == Text.Normalize("a") == "a"
    ensures NormalizeProcess("a\U{85}") != NormalizeProcess("a")
  {
    hide *;
    var a, n := "a", "a\U{85}";
    AgentTrims(a, n);
    PageKeeps(a, n);
  }

  lemma AgentTrims(a: string, n: string)
    requires a == "a" && n == "a\U{85}"
    ensures Text.Normalize(n) == Text.Normalize(a) == a
  {
    assert n[..1] == a && !Text.IsSpace(a[0]) && Text.IsSpace(n[1]);
    hide Text.IsSpace;
    assert Text.TrimLeft(n) == n && Text.TrimLeft(a) == a;
    assert Text.TrimRight(n) == Text.TrimRight(n[..1]) == a;
    assert Text.Lower(a) == a;
  }

  lemma PageKeeps(a: string, n: string)
    requires a == "a" && n == "a\U{85}"
    ensures NormalizeProcess(n) != NormalizeProcess(a)
  {
    assert !IsJsSpace(a[0]) && !IsJsSpace(n[0]) && !IsJsSpace(n[1]);
    hide IsJsSpace, Text.Lower;
    assert JsTrimRight(JsTrimLeft(n)) == n && JsTrimRight(JsTrimLeft(a)) == a;
    assert |NormalizeProcess(n)| == 2 && |NormalizeProcess(a)| == 1;
  }

  lemma PatternsAccepted(d: Draft, index: int, patterns: seq<TitlePattern>, engine: Engine)
    requires Accepts(d, engine) && 0 <= index < |d.rules|
    requires forall p | p in patterns :: p in d.rules[index].patterns
    ensures Accepts(WithPatterns(d, index, patterns), engine)
  {
    hide Text.Normalize;
    var after := WithPatterns(d, index, patterns);
    forall i | 0 <= i < |d.rules| ensures KeyOf(after.rules[i]) == KeyOf(d.rules[i]) {}
    forall j | 0 <= j < |patterns| ensures engine.compiles(patterns[j].pattern) {
      assert patterns[j] in patterns;
      var k :| 0 <= k < |d.rules[index].patterns| && d.rules[index].patterns[k] == patterns[j];
    }
    assert Compile(after.rules[index], engine);
    hide KeyOf, Compile;
    forall k ensures HasRule(d.rules, k) ==> HasRule(after.rules, k) {
      if HasRule(d.rules, k) {
        var i :| 0 <= i < |d.rules| && KeyOf(d.rules[i]) == k;
        assert KeyOf(after.rules[i]) == k;
      }
    }
  }

  lemma MoveMembers<T>(xs: seq<T>, from: int, to: int, x: T)
    ensures x in Move(xs, from, to) ==> x in xs
  {}

  /** Exposing a name is accepted exactly when it has a rule; not exposing always is. */
  lemma SetExposeTitleIff(d: Draft, process: string, exposed: bool, engine: Engine)
    requires Accepts(d, engine)
    ensures Accepts(SetExposeTitle(d, process, exposed), engine) <==>
              !exposed || HasRule(d.rules, Text.Normalize(process))
  {
    hide Text.Normalize, SameProcess, RulesAccepted, HasRule, KeyOf, Without;
    var after := SetExposeTitle(d, process, exposed);
    ExposeAcceptedIn(d.rules, d.exposeTitle);
    ExposeAcceptedIn(d.rules, after.exposeTitle);
    forall e ensures e in Without(d.exposeTitle, process) ==> e in d.exposeTitle {
      WithoutMembers(d.exposeTitle, process, e);
    }
    if exposed { assert after.exposeTitle[|after.exposeTitle| - 1] == process; }
  }

  lemma SameKeySameRule(rules: seq<Rule>, engine: Engine, r: Rule, s: Rule)
    requires RulesAccepted(rules, engine) && r in rules && s in rules && KeyOf(r) == KeyOf(s)
    ensures r == s
  {
    hide KeyOf, Compile;
  }

  lemma AgreeAfterPatterns(d: Draft, index: int, patterns: seq<TitlePattern>)
    requires NamesAgree(d) && 0 <= index < |d.rules|
    ensures NamesAgree(WithPatterns(d, index, patterns))
  {
    hide Text.Normalize, NormalizeProcess;
    var after := WithPatterns(d, index, patterns);
    forall e, r | e in after.exposeTitle && r in after.rules && Text.Normalize(e) == KeyOf(r)
      ensures SameProcess(e, r.process)
    {
      var i :| 0 <= i < |after.rules| && after.rules[i] == r;
      assert d.rules[i] in d.rules && KeyOf(d.rules[i]) == KeyOf(r) && d.rules[i].process == r.process;
    }
  }

  lemma RemoveRuleKeeps(d: Draft, index: int, engine: Engine)
    requires Accepts(d, engine) && NamesAgree(d) && 0 <= index < |d.rules|
    ensures Accepts(RemoveRule(d, index), engine) && NamesAgree(RemoveRule(d, index))
  {
    hide Text.Normalize, SameProcess, RulesAccepted, HasRule, KeyOf, Accepts;
    RemoveRuleIff(d, index, engine);
    var after := RemoveRule(d, index);
    forall e, r | e in after.exposeTitle && r in after.rules ensures e in d.exposeTitle && r in d.rules {
      WithoutMembers(d.exposeTitle, d.rules[index].process, e);
    }
  }

  lemma ExposingKeeps(d: Draft, index: int, exposed: bool, engine: Engine)
    requires Accepts(d, engine) && NamesAgree(d) && 0 <= index < |d.rules|
    ensures var after := SetExposeTitle(d, d.rules[index].process, exposed);
            Accepts(after, engine) && NamesAgree(after)
  {
    hide Text.Normalize, NormalizeProcess, RulesAccepted;
    var process := d.rules[index].process;
    SetExposeTitleIff(d, process, exposed, engine);
    assert HasRule(d.rules, Text.Normalize(process)) by { assert KeyOf(d.rules[index]) == Text.Normalize(process); }
    var after := SetExposeTitle(d, process, exposed);
    forall e, r | e in after.exposeTitle && r in after.rules && Text.Normalize(e) == KeyOf(r)
      ensures SameProcess(e, r.process)
    {
      WithoutMembers(d.exposeTitle, process, e);
      if e == process { SameKeySameRule(d.rules, engine, r, d.rules[index]); }
    }
  }

  /** One edit keeps a draft acceptable, and keeps the names in agreement. */
  lemma EditKeeps(d: Draft, e: Edit, engine: Engine)
    requires Accepts(d, engine) && NamesAgree(d)
    ensures Accepts(Apply(d, e), engine) && NamesAgree(Apply(d, e))
  {
    hide Accepts, NamesAgree, Text.Normalize, Move;
    match e
    case RemovingRule(i) =>
      if 0 <= i < |d.rules| { RemoveRuleKeeps(d, i, engine); }
    case RemovingPattern(r, i) =>
      if 0 <= r < |d.rules| {
        var ps := d.rules[r].patterns;
        forall p | p in RemoveAt(ps, i) ensures p in ps { if 0 <= i < |ps| { } }
        PatternsAccepted(d, r, RemoveAt(ps, i), engine);
        AgreeAfterPatterns(d, r, RemoveAt(ps, i));
      }
    case MovingPattern(r, i, j) =>
      if 0 <= r < |d.rules| {
        var ps := d.rules[r].patterns;
        forall p | p in Move(ps, i, j) ensures p in ps { MoveMembers(ps, i, j, p); }
        PatternsAccepted(d, r, Move(ps, i, j), engine);
        AgreeAfterPatterns(d, r, Move(ps, i, j));
      }
    case Exposing(r, on) =>
      if 0 <= r < |d.rules| { ExposingKeeps(d, r, on, engine); }
  }

  lemma {:induction false} EditsKeep(d: Draft, edits: seq<Edit>, engine: Engine)
    requires Accepts(d, engine) && NamesAgree(d)
    ensures Accepts(ApplyAll(d, edits), engine)
    decreases |edits|
  {
    hide Accepts, NamesAgree, Apply;
    if edits != [] {
      EditKeeps(d, edits[0], engine);
      EditsKeep(Apply(d, edits[0]), edits[1..], engine);
    }
  }

  lemma ApplyOne(d: Draft, e: Edit)
    ensures ApplyAll(d, [e]) == Apply(d, e)
  {
    assert ApplyAll(d, [e]) == ApplyAll(Apply(d, e), [e][1..]);
  }

  /** An accepted draft stays accepted under every sequence of edits exactly when
      the page and the agent agree on its exposed names. */
  lemma EditorPreservesAcceptance(d: Draft, engine: Engine)
    requires Accepts(d, engine)
    ensures (forall edits :: Accepts(ApplyAll(d, edits), engine)) <==> NamesAgree(d)
  {
    hide Text.Normalize, Accepts, SameProcess, KeyOf;
    if NamesAgree(d) {
      forall edits ensures Accepts(ApplyAll(d, edits), engine) { EditsKeep(d, edits, engine); }
    } else {
      var e, r :| e in d.exposeTitle && r in d.rules && Text.Normalize(e) == KeyOf(r) && !SameProcess(e, r.process);
      var i :| 0 <= i < |d.rules| && d.rules[i] == r;
      RemoveRuleIff(d, i, engine);
      ApplyOne(d, RemovingRule(i));
    }
  }

  // ---------- Order of patterns ----------

  /** Moving there and back changes nothing. */
  lemma MoveBack<T>(xs: seq<T>, from: int, to: int)
    ensures Move(Move(xs, from, to), to, from) == xs
  {
    if from != to && 0 <= from < |xs| && 0 <= to < |xs| {
      var rest := RemoveAt(xs, from);
      var moved := InsertAt(rest, to, xs[from]);
      TakeOutAgain(rest, to, xs[from]);
      PutBack(xs, from);
      hide RemoveAt, InsertAt;
    }
  }

  lemma TakeOutAgain<T>(xs: seq<T>, i: nat, x: T)
    requires i <= |xs|
    ensures RemoveAt(InsertAt(xs, i, x), i) == xs && InsertAt(xs, i, x)[i] == x
  {}

  lemma PutBack<T>(xs: seq<T>, i: nat)
    requires i < |xs|
    ensures |RemoveAt(xs, i)| == |xs| - 1 && InsertAt(RemoveAt(xs, i), i, xs[i]) == xs
  {}

  lemma MovePatternBack(d: Draft, rule: int, from: int, to: int)
    ensures MovePattern(MovePattern(d, rule, from, to), rule, to, from) == d
  {
    hide Move;
    if 0 <= rule < |d.rules| {
      MoveBack(d.rules[rule].patterns, from, to);
      var rs := d.rules;
      assert rs[rule := rs[rule].(patterns := Move(rs[rule].patterns, from, to))][rule := rs[rule]] == rs;
    }
  }

  lemma {:induction false} FirstMatchConcat(xs: seq<TitlePattern>, ys: seq<TitlePattern>, raw: string, engine: Engine)
    ensures FirstMatch(xs + ys, raw, engine)
         == if FirstMatch(xs, raw, engine).Some? then FirstMatch(xs, raw, engine) else FirstMatch(ys, raw, engine)
  {
    if xs == [] {
      assert xs + ys == ys;
    } else {
      assert (xs + ys)[1..] == xs[1..] + ys;
      FirstMatchConcat(xs[1..], ys, raw, engine);
    }
  }

  /** A move swaps the moved pattern with the run it jumps over. */
  lemma MoveDown<T>(xs: seq<T>, from: int, to: int)
    requires 0 <= from < to < |xs|
    ensures var over := xs[from + 1..to + 1];
            && xs == xs[..from] + ([xs[from]] + over) + xs[to + 1..]
            && Move(xs, from, to) == xs[..from] + (over + [xs[from]]) + xs[to + 1..]
  {
    var rest := RemoveAt(xs, from);
    assert rest[..to] == xs[..from] + xs[from + 1..to + 1];
    assert rest[to..] == xs[to + 1..];
  }

  lemma MoveUp<T>(xs: seq<T>, from: int, to: int)
    requires 0 <= to < from < |xs|
    ensures var over := xs[to..from];
            && xs == xs[..to] + (over + [xs[from]]) + xs[from + 1..]
            && Move(xs, from, to) == xs[..to] + ([xs[from]] + over) + xs[from + 1..]
  {
    var rest := RemoveAt(xs, from);
    assert rest[..to] == xs[..to];
    assert rest[to..] == xs[to..from] + xs[from + 1..];
  }

  /** What a move does to a title: it decides between the moved pattern and the
      first match among those it jumps over, and only when both match and nothing
      before them does. */
  lemma MoveDecides(xs: seq<TitlePattern>, from: int, to: int, raw: string, engine: Engine)
    requires 0 <= from < |xs| && 0 <= to < |xs| && from != to
    ensures var lo := if from < to then from else to;
            var before := FirstMatch(xs[..lo], raw, engine);
            var over := FirstMatch(if from < to then xs[from + 1..to + 1] else xs[to..from], raw, engine);
            var contested := before.None? && engine.matches(xs[from].pattern, raw) && over.Some?;
            var was, now := FirstMatch(xs, raw, engine), FirstMatch(Move(xs, from, to), raw, engine);
            if !contested then now == was
            else if from < to then was == Some(xs[from]) && now == over
            else was == over && now == Some(xs[from])
  {
    hide Move;
    if from < to { MoveDown(xs, from, to); } else { MoveUp(xs, from, to); }
    var lo, hi := if from < to then from else to, if from < to then to else from;
    var over := if from < to then xs[from + 1..to + 1] else xs[to..from];
    var one, front, back := [xs[from]], xs[..lo], xs[hi + 1..];
    FirstMatchConcat(one, over, raw, engine);
    FirstMatchConcat(over, one, raw, engine);
    FirstMatchConcat(front, one + over, raw, engine);
    FirstMatchConcat(front, over + one, raw, engine);
    FirstMatchConcat(front + (one + over), back, raw, engine);
    FirstMatchConcat(front + (over + one), back, raw, engine);
  }

  lemma MatchedSomewhere(xs: seq<TitlePattern>, lo: nat, hi: nat, raw: string, engine: Engine)
    requires lo <= hi <= |xs| && FirstMatch(xs[lo..hi], raw, engine).Some?
    ensures exists k :: lo <= k < hi && engine.matches(xs[k].pattern, raw)
    decreases hi - lo
  {
    if lo < hi && !engine.matches(xs[lo].pattern, raw) {
      assert xs[lo..hi][1..] == xs[lo + 1..hi];
      MatchedSomewhere(xs, lo + 1, hi, raw, engine);
    }
  }

  /** A title that at most one pattern matches is reported the same after any move. */
  lemma MoveKeepsUnambiguous(xs: seq<TitlePattern>, from: int, to: int, raw: string, engine: Engine)
    requires forall j, k | 0 <= j < k < |xs| ::
               !(engine.matches(xs[j].pattern, raw) && engine.matches(xs[k].pattern, raw))
    ensures FirstMatch(Move(xs, from, to), raw, engine) == FirstMatch(xs, raw, engine)
  {
    if from != to && 0 <= from < |xs| && 0 <= to < |xs| {
      hide Move;
      MoveDecides(xs, from, to, raw, engine);
      var lo, hi := if from < to then from + 1 else to, if from < to then to + 1 else from;
      if FirstMatch(xs[lo..hi], raw, engine).Some? { MatchedSomewhere(xs, lo, hi, raw, engine); }
    }
  }

  // ---------- Removing a rule, seen from the agent ----------

  lemma {:induction false} LookUpConcat(xs: seq<Rule>, ys: seq<Rule>, key: string)
    ensures LookUp(xs + ys, key) == if LookUp(xs, key).Some? then LookUp(xs, key) else LookUp(ys, key)
  {
    if xs == [] {
      assert xs + ys == ys;
    } else {
      assert (xs + ys)[1..] == xs[1..] + ys;
      LookUpConcat(xs[1..], ys, key);
    }
  }

  lemma LookUpWithout(rules: seq<Rule>, i: nat, key: string)
    requires i < |rules| && DistinctKeys(rules)
    ensures LookUp(RemoveAt(rules, i), key) == if key == KeyOf(rules[i]) then None else LookUp(rules, key)
  {
    hide KeyOf;
    LookUpConcat(rules[..i], rules[i + 1..], key);
    LookUpConcat(rules[..i], [rules[i]] + rules[i + 1..], key);
    assert rules == rules[..i] + ([rules[i]] + rules[i + 1..]);
    assert ([rules[i]] + rules[i + 1..])[1..] == rules[i + 1..];
    if key == KeyOf(rules[i]) {
      LookUpFinds(rules[..i], key);
      LookUpFinds(rules[i + 1..], key);
      forall r | r in rules[i + 1..] ensures KeyOf(r) != key {
        var j :| i < j < |rules| && rules[j] == r;
      }
    }
  }

  lemma ExposedIn(expose: seq<string>, key: string)
    ensures Exposed(expose, key) <==> exists e :: e in expose && Text.Normalize(e) == key
  {
    hide Text.Normalize;
  }

  /** Whatever the page takes for the removed name and the agent does not is still
      exposed under another spelling. */
  ghost predicate OthersStayExposed(d: Draft, index: nat)
    requires index < |d.rules|
  {
    forall e | e in d.exposeTitle && SameProcess(e, d.rules[index].process)
               && Text.Normalize(e) != KeyOf(d.rules[index]) ::
      Exposed(RemoveRule(d, index).exposeTitle, Text.Normalize(e))
  }

  /** What a draft without the rule should report. */
  function ResolveWithout(d: Draft, index: nat, engine: Engine, process: string, raw: string, idle: int): Activity
    requires index < |d.rules|
  {
    var gone := Text.Normalize(process) == KeyOf(d.rules[index]);
    ResolveFromList(if gone then d.(rules := []) else d, engine, process, raw, idle)
  }

  lemma ExposedAfter(d: Draft, index: nat, key: string)
    requires index < |d.rules| && OthersStayExposed(d, index) && key != KeyOf(d.rules[index])
    ensures Exposed(RemoveRule(d, index).exposeTitle, key) <==> Exposed(d.exposeTitle, key)
  {
    hide Text.Normalize, NormalizeProcess, KeyOf, RemoveAt, Without;
    var after := RemoveRule(d, index);
    forall e ensures e in after.exposeTitle <==> e in d.exposeTitle && !SameProcess(e, d.rules[index].process) {
      WithoutMembers(d.exposeTitle, d.rules[index].process, e);
    }
    hide SameProcess, RemoveRule, Exposed;
    ExposedIn(d.exposeTitle, key);
    ExposedIn(after.exposeTitle, key);
  }

  lemma RemovedResolves(d: Draft, index: nat, engine: Engine, process: string, raw: string, idle: int)
    requires index < |d.rules| && DistinctKeys(d.rules) && OthersStayExposed(d, index)
    ensures ResolveFromList(RemoveRule(d, index), engine, process, raw, idle) ==
            ResolveWithout(d, index, engine, process, raw, idle)
  {
    hide Text.Normalize, SameProcess, KeyOf, LookUp, RemoveAt, Without, Describe, OthersStayExposed, Exposed;
    var key := Text.Normalize(process);
    LookUpWithout(d.rules, index, key);
    LookUpFinds([], key);
    if key != KeyOf(d.rules[index]) { ExposedAfter(d, index, key); }
  }

  /** A title no description of a rule spells. */
  function LongTitle(r: Rule): (raw: string)
    ensures raw != "" && |raw| > |r.description| && forall p | p in r.patterns :: |raw| > |p.description|
  {
    seq(Longest(r.patterns) + |r.description| + 1, i => 'x')
  }

  function Longest(ps: seq<TitlePattern>): (n: nat)
    ensures forall p | p in ps :: |p.description| <= n
  {
    if ps == [] then 0 else |ps[0].description| + Longest(ps[1..])
  }

  lemma LongTitleTrimmed(r: Rule)
    ensures Text.Trim(LongTitle(r)) == LongTitle(r)
  {
    hide Longest;
  }

  lemma TitleShows(r: Rule, engine: Engine)
    ensures Describe(r, true, LongTitle(r), engine) != Describe(r, false, LongTitle(r), engine)
  {
    hide Text.Trim, FirstMatch, LongTitle;
    LongTitleTrimmed(r);
    FirstMatchIn(r.patterns, LongTitle(r), engine);
  }

  /** Once a rule is removed its process is reported by the defaults and every
      other process as before, for all processes and titles, if and only if the
      page withdraws no exposure that the agent takes for another process. */
  lemma RemoveRuleResolvesIff(d: Draft, index: nat, engine: Engine)
    requires Accepts(d, engine) && index < |d.rules|
    ensures (forall process, raw, idle ::
               ResolveFromList(RemoveRule(d, index), engine, process, raw, idle) ==
               ResolveWithout(d, index, engine, process, raw, idle))
            <==> OthersStayExposed(d, index)
  {
    hide OthersStayExposed, ResolveFromList, ResolveWithout;
    if OthersStayExposed(d, index) {
      forall process, raw, idle
        ensures ResolveFromList(RemoveRule(d, index), engine, process, raw, idle) ==
                ResolveWithout(d, index, engine, process, raw, idle)
      {
        RemovedResolves(d, index, engine, process, raw, idle);
      }
    } else {
      var process, raw := ExposureLost(d, index, engine);
    }
  }

  lemma ExposureLost(d: Draft, index: nat, engine: Engine) returns (process: string, raw: string)
    requires Accepts(d, engine) && index < |d.rules| && !OthersStayExposed(d, index)
    ensures ResolveFromList(RemoveRule(d, index), engine, process, raw, 0) !=
            ResolveWithout(d, index, engine, process, raw, 0)
  {
    hide Text.Normalize, NormalizeProcess, LookUp, RemoveAt, Without, Describe, KeyOf, Compile;
    var e :| e in d.exposeTitle && SameProcess(e, d.rules[index].process)
             && Text.Normalize(e) != KeyOf(d.rules[index])
             && !Exposed(RemoveRule(d, index).exposeTitle, Text.Normalize(e));
    process := e;
    var key := Text.Normalize(e);
    ExposedIn(d.exposeTitle, key);
    assert HasRule(d.rules, key) by { ExposeAcceptedIn(d.rules, d.exposeTitle); }
    LookUpFinds(d.rules, key);
    LookUpWithout(d.rules, index, key);
    var rule := LookUp(d.rules, key).value;
    assert key != "";
    raw := LongTitle(rule);
    TitleShows(rule, engine);
  }

  // ---------- Duplicates ----------

  /** All names more than one rule claims, where the agent reports one at a time. */
  method DuplicateProcesses(d: Draft) returns (duplicates: set<string>)
    ensures forall k :: k in duplicates <==> k != "" && exists i, j | 0 <= i < j < |d.rules| ::
              NormalizeProcess(d.rules[i].process) == k == NormalizeProcess(d.rules[j].process)
  {
    hide NormalizeProcess;
    var seen: set<string> := {};
    duplicates := {};
    for n := 0 to |d.rules|
      invariant forall k :: k in seen <==> k != "" && exists i | 0 <= i < n :: NormalizeProcess(d.rules[i].process) == k
      invariant forall k :: k in duplicates <==> k != "" && exists i, j | 0 <= i < j < n ::
                  NormalizeProcess(d.rules[i].process) == k == NormalizeProcess(d.rules[j].process)
    {
      var key := NormalizeProcess(d.rules[n].process);
      if key == "" { continue; }
      if key in seen { duplicates := duplicates + {key}; }
      seen := seen + {key};
    }
  }
}
