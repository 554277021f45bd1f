/**
 * `evaluate_policy` in `api/main.py`: a left-to-right pass over a profile's
 * rules that records a trace (the policy path) and a chosen model.
 *
 * The policy document is a parameter: a map from profile name to that
 * profile's rule list (a profile without a `rules` key has the empty list).
 * Conditions stay strings, as in the document, and are recognised by exact
 * comparison with three literals.
 */
module Policy {
  import opened Wrappers

  // ---------------------------------------------------------------------------
  // Data
  // ---------------------------------------------------------------------------

  /** `RouteConstraints`: every field may be null. */
  datatype Constraints = Constraints(latencySlaMs: Option<int>, budgetCents: Option<real>, safety: Option<string>)

  /** The field defaults of `RouteConstraints`. */
  const DefaultConstraints := Constraints(Some(1200), Some(5.0), Some("standard"))

  /** A rule of a profile: an `if` rule (a rule with an `if` key, whatever else
      it holds), a `default` rule, or a rule with neither key. A missing `then`
      is the empty action list. */
  datatype Rule = If(cond: string, acts: seq<string>) | Default(acts: seq<string>) | Other

  /** The conditions the evaluator recognises. */
  datatype Cond = SafetyStrict | LatencyAtMost1000 | BudgetAtMost3 | Unrecognized(text: string)

  /** Comparing a null constraint with a number raises `TypeError` in Python. */
  datatype Fault = LatencyUnset | BudgetUnset

  datatype Decision = Decision(provider: string, model: string, path: seq<string>)

  /** The loop's variables: `decision_model` and `path`. */
  datatype State = State(model: string, path: seq<string>)

  const BaselineModel := "gpt-4o-mini"
  const Provider := "openai"

  const PreferAct := "prefer: gpt-4o-mini"
  const FallbackAct := "fallback: claude-3-haiku"
  const AvoidAct := "avoid: claude-3-opus"

  const StrictEntry := "safety:strict→guards"
  const PreferEntry := "sla<=1000→prefer gpt-4o-mini"
  const FallbackEntry := "fallback: claude-3-haiku"
  const BudgetEntry := "budget<=3"
  const AvoidEntry := "avoid: claude-3-opus"
  const DefaultPrefix := "default: "
  const FinalEntry := "default: prefer fast-cheap-safe"

  // ---------------------------------------------------------------------------
  // Conditions
  // ---------------------------------------------------------------------------

  /** The literal a recognised condition is written as. */
  function CondText(c: Cond): string {
    match c
    case SafetyStrict => "safety == 'strict'"
    case LatencyAtMost1000 => "latency_sla_ms <= 1000"
    case BudgetAtMost3 => "budget_cents <= 3"
    case Unrecognized(text) => text
  }

  /** Classify a condition string by exact comparison with the three literals. */
  function ParseCond(text: string): (c: Cond)
    ensures CondText(c) == text
    ensures c.Unrecognized? <==> text !in {CondText(SafetyStrict), CondText(LatencyAtMost1000), CondText(BudgetAtMost3)}
  {
    if text == "safety == 'strict'" then SafetyStrict
    else if text == "latency_sla_ms <= 1000" then LatencyAtMost1000
    else if text == "budget_cents <= 3" then BudgetAtMost3
    else Unrecognized(text)
  }

  /** Writing a condition out and reading it back gives the same condition,
      provided an unrecognised one does not spell a recognised literal. */
  lemma CondRoundTrip(c: Cond)
    requires c.Unrecognized? ==> ParseCond(c.text).Unrecognized?
    ensures ParseCond(CondText(c)) == c
  {
  }

  // ---------------------------------------------------------------------------
  // The evaluator
  // ---------------------------------------------------------------------------

  /** `", ".join(acts)`. */
  function Join(xs: seq<string>, sep: string): string {
    if |xs| == 0 then ""
    else if |xs| == 1 then xs[0]
    else xs[0] + sep + Join(xs[1..], sep)
  }

  /** `evaluate_policy` treats a missing constraints object as the defaults. */
  function Resolve(constraints: Option<Constraints>): Constraints {
    constraints.GetOr(DefaultConstraints)
  }

  /** An `if` rule of `evaluate_policy`. Each condition literal is compared first, so
      a null constraint raises only for a rule whose condition would read it. */
  function StepIf(cond: string, acts: seq<string>, env: Constraints, st: State): Result<State, Fault> {
    match ParseCond(cond)
    case SafetyStrict =>
      Success(if env.safety == Some("strict") then st.(path := st.path + [StrictEntry]) else st)
    case LatencyAtMost1000 =>
      if env.latencySlaMs.None? then Failure(LatencyUnset)
      else if env.latencySlaMs.value <= 1000 then
        var st1 := if PreferAct in acts then State(BaselineModel, st.path + [PreferEntry]) else st;
        Success(if FallbackAct in acts then st1.(path := st1.path + [FallbackEntry]) else st1)
      else Success(st)
    case BudgetAtMost3 =>
      if env.budgetCents.None? then Failure(BudgetUnset)
      else if env.budgetCents.value <= 3.0 then
        Success(st.(path := st.path + [BudgetEntry] + (if AvoidAct in acts then [AvoidEntry] else [])))
      else Success(st)
    case Unrecognized(_) => Success(st)
  }

  /** One iteration of the loop over the rules. */
  function Step(rule: Rule, env: Constraints, st: State): (r: Result<State, Fault>)
    ensures r.Success? ==> r.value.model == st.model || r.value.model == BaselineModel
    ensures r.Success? ==> st.path <= r.value.path && |r.value.path| <= |st.path| + 2
  {
    match rule
    case If(cond, acts) => StepIf(cond, acts, env, st)
    case Default(acts) =>
      Success(if st.path == [] then st.(path := [DefaultPrefix + Join(acts, ", ")]) else st)
    case Other => Success(st)
  }

  /** The loop: the rules in order, stopping at the first exception. */
  function Fold(rules: seq<Rule>, env: Constraints, st: State): (r: Result<State, Fault>)
    ensures r.Success? && st.model == BaselineModel ==> r.value.model == BaselineModel
    ensures r.Success? ==> st.path <= r.value.path && |r.value.path| <= |st.path| + 2 * |rules|
  {
    if |rules| == 0 then Success(st)
    else
      match Step(rules[0], env, st)
      case Failure(f) => Failure(f)
      case Success(st1) => Fold(rules[1..], env, st1)
  }

  /** `evaluate_policy(profile, constraints)` against the policy document `doc`.
      The provider and the model never vary and the path is never empty. */
  function EvaluatePolicy(doc: map<string, seq<Rule>>, profile: string, constraints: Option<Constraints>): (r: Result<Decision, Fault>)
    ensures r.Success? ==> r.value.provider == "openai" && r.value.model == "gpt-4o-mini"
    ensures r.Success? ==> 1 <= |r.value.path| <= 1 + 2 * |if profile in doc then doc[profile] else []|
  {
    var rules := if profile in doc then doc[profile] else [];
    match Fold(rules, Resolve(constraints), State(BaselineModel, []))
    case Failure(f) => Failure(f)
    case Success(st) => Success(Decision(Provider, st.model, if st.path == [] then [FinalEntry] else st.path))
  }

  // ---------------------------------------------------------------------------
  // Properties
  // ---------------------------------------------------------------------------

  /** An unknown profile, or one without rules, gives the synthesized entry alone. */
  lemma NoRulesGiveFinalEntry(doc: map<string, seq<Rule>>, profile: string, constraints: Option<Constraints>)
    requires profile !in doc || doc[profile] == []
    ensures EvaluatePolicy(doc, profile, constraints) == Success(Decision("openai", "gpt-4o-mini", ["default: prefer fast-cheap-safe"]))
  {
  }

  /** Passing no constraints object is the same as passing the defaults. */
  lemma MissingConstraintsAreDefaults(doc: map<string, seq<Rule>>, profile: string)
    ensures EvaluatePolicy(doc, profile, None) == EvaluatePolicy(doc, profile, Some(Constraints(Some(1200), Some(5.0), Some("standard"))))
  {
  }

  /** The rule raises: it compares a null constraint with a number. */
  predicate Faults(rule: Rule, env: Constraints) {
    rule.If? &&
    ((ParseCond(rule.cond) == LatencyAtMost1000 && env.latencySlaMs.None?) ||
     (ParseCond(rule.cond) == BudgetAtMost3 && env.budgetCents.None?))
  }

  /** The error a faulting rule raises. */
  function FaultOf(rule: Rule, env: Constraints): Fault
    requires Faults(rule, env)
  {
    if ParseCond(rule.cond) == LatencyAtMost1000 then LatencyUnset else BudgetUnset
  }

  /** The error of the first rule that reads a null constraint, if any. */
  function FirstFault(rules: seq<Rule>, env: Constraints): (r: Option<Fault>)
    ensures r.Some? <==> exists i :: 0 <= i < |rules| && Faults(rules[i], env)
  {
    if |rules| == 0 then None
    else if Faults(rules[0], env) then Some(FaultOf(rules[0], env))
    else
      var r := FirstFault(rules[1..], env);
      assert forall i :: 1 <= i < |rules| ==> rules[i] == rules[1..][i - 1];
      r
  }

  lemma StepFaults(rule: Rule, env: Constraints, st: State)
    ensures Step(rule, env, st).Failure? <==> Faults(rule, env)
    ensures Step(rule, env, st).Failure? ==> Step(rule, env, st).error == FaultOf(rule, env)
  {
  }

  /** The evaluation raises exactly when some rule reads a null constraint,
      with the error of the first such rule, whatever the path so far. */
  lemma {:induction false} FoldFailsAtFirstFault(rules: seq<Rule>, env: Constraints, st: State)
    ensures Fold(rules, env, st).Failure? <==> FirstFault(rules, env).Some?
    ensures Fold(rules, env, st).Failure? ==> Fold(rules, env, st).error == FirstFault(rules, env).value
  {
    if |rules| > 0 {
      StepFaults(rules[0], env, st);
      match Step(rules[0], env, st)
      case Failure(_) =>
      case Success(st1) =>
        FoldFailsAtFirstFault(rules[1..], env, st1);
    }
  }

  // ---------------------------------------------------------------------------
  // The path: which entries appear, and where
  // ---------------------------------------------------------------------------

  /** An entry written by a `default` rule or synthesized at the end. */
  predicate IsDefaultEntry(e: string) {
    DefaultPrefix <= e
  }

  /** Rule `rule` writes the entry e when its condition holds: the reference
      reading of lines 45-56, one entry at a time. */
  predicate Emits(rule: Rule, env: Constraints, e: string) {
    rule.If? &&
    match ParseCond(rule.cond)
    case SafetyStrict => env.safety == Some("strict") && e == StrictEntry
    case LatencyAtMost1000 =>
      env.latencySlaMs.Some? && env.latencySlaMs.value <= 1000 &&
      ((PreferAct in rule.acts && e == PreferEntry) || (FallbackAct in rule.acts && e == FallbackEntry))
    case BudgetAtMost3 =>
      env.budgetCents.Some? && env.budgetCents.value <= 3.0 &&
      (e == BudgetEntry || (AvoidAct in rule.acts && e == AvoidEntry))
    case Unrecognized(_) => false
  }

  lemma StepEntries(rule: Rule, env: Constraints, st: State)
    ensures Step(rule, env, st).Success? ==>
      forall e :: !IsDefaultEntry(e) ==> (e in Step(rule, env, st).value.path <==> e in st.path || Emits(rule, env, e))
  {
  }

  /** A rule whose condition calls for no entry (an unrecognised condition, a
      condition that does not hold, or a rule with neither key) leaves the
      state as it was, unless it is a `default` rule reached on an empty path. */
  lemma {:induction false} QuietRuleAddsNothing(rule: Rule, env: Constraints, st: State)
    requires !rule.Default? || st.path != []
    requires forall e :: !Emits(rule, env, e)
    ensures Step(rule, env, st).Success? ==> Step(rule, env, st).value == st
  {
    match rule
    case If(cond, acts) =>
      match ParseCond(cond) {
        case SafetyStrict =>
          assert !Emits(rule, env, StrictEntry);
        case LatencyAtMost1000 =>
          assert !Emits(rule, env, PreferEntry) && !Emits(rule, env, FallbackEntry);
        case BudgetAtMost3 =>
          assert !Emits(rule, env, BudgetEntry);
        case Unrecognized(_) =>
      }
    case Default(_) =>
    case Other =>
  }

  /** A run of rules that are not `default` rules and call for no entry leaves
      the path as it was. */
  lemma {:induction false} QuietFold(rules: seq<Rule>, env: Constraints, st: State)
    requires forall r :: r in rules ==> !r.Default?
    requires forall r, e :: r in rules ==> !Emits(r, env, e)
    ensures Fold(rules, env, st).Success? ==> Fold(rules, env, st).value.path == st.path
  {
    if |rules| > 0 {
      QuietRuleAddsNothing(rules[0], env, st);
      match Step(rules[0], env, st)
      case Failure(_) =>
      case Success(st1) =>
        assert forall r :: r in rules[1..] ==> r in rules;
        QuietFold(rules[1..], env, st1);
    }
  }

  /** When no rule of the profile fires, whatever the number of rules,
      `evaluate_policy` returns the synthesized default entry alone. */
  lemma QuietRulesGiveFinalEntry(doc: map<string, seq<Rule>>, profile: string, constraints: Option<Constraints>)
    requires var rules := if profile in doc then doc[profile] else [];
      (forall r :: r in rules ==> !r.Default?) &&
      (forall r, e :: r in rules ==> !Emits(r, Resolve(constraints), e))
    ensures EvaluatePolicy(doc, profile, constraints).Success? ==>
      EvaluatePolicy(doc, profile, constraints).value.path == ["default: prefer fast-cheap-safe"]
  {
    var rules := if profile in doc then doc[profile] else [];
    QuietFold(rules, Resolve(constraints), State(BaselineModel, []));
  }

  /** Every entry a conditional rule can write, in the order the evaluator writes
      them within one rule. */
  const ConditionalEntries: seq<string> := [StrictEntry, PreferEntry, FallbackEntry, BudgetEntry, AvoidEntry]

  /** `[e]` when `rule` writes `e` under `env`, otherwise nothing. */
  function Keep(rule: Rule, env: Constraints, e: string): seq<string> {
    if Emits(rule, env, e) then [e] else []
  }

  /** The entries that `rule` writes under `env`, each once, in the order of
      `ConditionalEntries`. */
  function Emitted(rule: Rule, env: Constraints): seq<string> {
    Keep(rule, env, StrictEntry) + Keep(rule, env, PreferEntry) + Keep(rule, env, FallbackEntry) +
    Keep(rule, env, BudgetEntry) + Keep(rule, env, AvoidEntry)
  }

  /** `Emitted` holds exactly the conditional entries that `Emits` allows. */
  lemma EmittedMembers(rule: Rule, env: Constraints)
    ensures forall e :: e in Emitted(rule, env) <==> e in ConditionalEntries && Emits(rule, env, e)
  {
  }

  /** The entries that a list of rules writes, rule by rule. */
  function EmittedAll(rules: seq<Rule>, env: Constraints): seq<string> {
    if |rules| == 0 then [] else Emitted(rules[0], env) + EmittedAll(rules[1..], env)
  }

  /** What a `safety == 'strict'` rule writes. */
  lemma EmittedStrict(rule: Rule, env: Constraints)
    requires rule.If? && ParseCond(rule.cond) == SafetyStrict
    ensures Emitted(rule, env) == if env.safety == Some("strict") then [StrictEntry] else []
  {
    EntriesAreDistinct();
    assert !Emits(rule, env, PreferEntry) && !Emits(rule, env, FallbackEntry);
    assert !Emits(rule, env, BudgetEntry) && !Emits(rule, env, AvoidEntry);
  }

  /** What a `latency_sla_ms <= 1000` rule writes: "prefer" before "fallback". */
  lemma EmittedLatency(rule: Rule, env: Constraints)
    requires rule.If? && ParseCond(rule.cond) == LatencyAtMost1000
    ensures Emitted(rule, env) ==
      if env.latencySlaMs.Some? && env.latencySlaMs.value <= 1000 then
        (if PreferAct in rule.acts then [PreferEntry] else []) + (if FallbackAct in rule.acts then [FallbackEntry] else [])
      else []
  {
    EntriesAreDistinct();
    assert PreferEntry != FallbackEntry;
    assert !Emits(rule, env, StrictEntry) && !Emits(rule, env, BudgetEntry) && !Emits(rule, env, AvoidEntry);
  }

  /** What a `budget_cents <= 3` rule writes: "budget", then "avoid". */
  lemma EmittedBudget(rule: Rule, env: Constraints)
    requires rule.If? && ParseCond(rule.cond) == BudgetAtMost3
    ensures Emitted(rule, env) ==
      if env.budgetCents.Some? && env.budgetCents.value <= 3.0 then
        [BudgetEntry] + (if AvoidAct in rule.acts then [AvoidEntry] else [])
      else []
  {
    EntriesAreDistinct();
    assert !Emits(rule, env, StrictEntry) && !Emits(rule, env, PreferEntry) && !Emits(rule, env, FallbackEntry);
  }

  /** A conditional rule appends exactly the entries it calls for, in the fixed
      order strict, prefer, fallback, budget, avoid, whether or not they are already
      in the path; a `default` rule on a non-empty path appends nothing. */
  lemma StepAppendsEmitted(rule: Rule, env: Constraints, st: State)
    requires !rule.Default? || st.path != []
    ensures Step(rule, env, st).Success? ==> Step(rule, env, st).value.path == st.path + Emitted(rule, env)
  {
    match rule
    case If(cond, acts) =>
      match ParseCond(cond) {
        case SafetyStrict => EmittedStrict(rule, env);
        case LatencyAtMost1000 => EmittedLatency(rule, env);
        case BudgetAtMost3 =>
          EmittedBudget(rule, env);
          assert st.path + [BudgetEntry] + (if AvoidAct in acts then [AvoidEntry] else []) ==
                 st.path + ([BudgetEntry] + (if AvoidAct in acts then [AvoidEntry] else []));
        case Unrecognized(_) =>
      }
    case Default(_) =>
    case Other =>
  }

  /** Appending to a path in two steps. */
  lemma AppendTwice(a: seq<string>, b: seq<string>, x: seq<string>, y: seq<string>)
    requires b == a + x
    ensures b + y == a + (x + y)
  {
  }

  /** Over a list of rules, the path grows by exactly the entries each rule
      calls for, rule after rule, as long as no `default` rule can fire. */
  lemma {:induction false} FoldAppendsEmitted(rules: seq<Rule>, env: Constraints, st: State)
    requires st.path != [] || forall i :: 0 <= i < |rules| ==> !rules[i].Default?
    ensures Fold(rules, env, st).Success? ==> Fold(rules, env, st).value.path == st.path + EmittedAll(rules, env)
  {
    if |rules| > 0 {
      StepAppendsEmitted(rules[0], env, st);
      match Step(rules[0], env, st)
      case Failure(_) =>
      case Success(st1) =>
        var rest := rules[1..];
        assert st1.path != [] || forall i :: 0 <= i < |rest| ==> !rest[i].Default? by {
          if st.path == [] {
            forall i | 0 <= i < |rest| ensures !rest[i].Default? {
              assert rest[i] == rules[i + 1];
            }
          }
        }
        FoldAppendsEmitted(rest, env, st1);
        var e0, er := Emitted(rules[0], env), EmittedAll(rest, env);
        assert EmittedAll(rules, env) == e0 + er;
        AppendTwice(st.path, st1.path, e0, er);
    }
  }

  /** Under a profile without `default` rules, the decision path lists the
      entries each rule calls for, rule after rule, or the final default entry
      when there are none. */
  lemma EvaluationWithoutDefaultRules(doc: map<string, seq<Rule>>, profile: string, constraints: Option<Constraints>)
    requires profile in doc ==> forall i :: 0 <= i < |doc[profile]| ==> !doc[profile][i].Default?
    ensures var r := EvaluatePolicy(doc, profile, constraints);
      var es := EmittedAll(if profile in doc then doc[profile] else [], Resolve(constraints));
      r.Success? ==> r.value.path == if es == [] then [FinalEntry] else es
  {
    var rules := if profile in doc then doc[profile] else [];
    FoldAppendsEmitted(rules, Resolve(constraints), State(BaselineModel, []));
    assert [] + EmittedAll(rules, Resolve(constraints)) == EmittedAll(rules, Resolve(constraints));
  }

  /** Besides default entries, the path holds exactly the entries that some
      rule's condition and actions call for. */
  lemma {:induction false} FoldEntries(rules: seq<Rule>, env: Constraints, st: State)
    ensures Fold(rules, env, st).Success? ==>
      forall e :: !IsDefaultEntry(e) ==>
        (e in Fold(rules, env, st).value.path <==> e in st.path || exists i :: 0 <= i < |rules| && Emits(rules[i], env, e))
  {
    if |rules| > 0 {
      StepEntries(rules[0], env, st);
      match Step(rules[0], env, st)
      case Failure(_) =>
      case Success(st1) =>
        FoldEntries(rules[1..], env, st1);
        assert forall i :: 1 <= i < |rules| ==> rules[i] == rules[1..][i - 1];
    }
  }

  /** Every "avoid" entry directly follows a "budget" entry. */
  predicate AvoidFollowsBudget(path: seq<string>) {
    forall i :: 0 <= i < |path| && path[i] == AvoidEntry ==> 0 < i && path[i - 1] == BudgetEntry
  }

  /** A default entry can only be the first entry. */
  predicate DefaultOnlyFirst(path: seq<string>) {
    forall i :: 0 < i < |path| ==> !IsDefaultEntry(path[i])
  }

  /** Appending entries that are neither "avoid" nor default entries keeps both shapes. */
  lemma AppendPlain(path: seq<string>, extra: seq<string>)
    requires AvoidFollowsBudget(path) && DefaultOnlyFirst(path)
    requires forall j :: 0 <= j < |extra| ==> extra[j] != AvoidEntry && !IsDefaultEntry(extra[j])
    ensures AvoidFollowsBudget(path + extra) && DefaultOnlyFirst(path + extra)
  {
    var q := path + extra;
    forall i | 0 <= i < |q| ensures q[i] == AvoidEntry ==> 0 < i && q[i - 1] == BudgetEntry {
      if i < |path| {
        assert q[i] == path[i];
        if 0 < i {
          assert q[i - 1] == path[i - 1];
        }
      } else {
        assert q[i] == extra[i - |path|];
      }
    }
    forall i | 0 < i < |q| ensures !IsDefaultEntry(q[i]) {
      if i < |path| {
        assert q[i] == path[i];
      } else {
        assert q[i] == extra[i - |path|];
      }
    }
  }

  /** A default entry starts with the letter d. */
  lemma DefaultEntryStartsWithD(e: string)
    ensures IsDefaultEntry(e) ==> |e| > 0 && e[0] == 'd'
  {
    if IsDefaultEntry(e) {
      assert e[0] == DefaultPrefix[0];
    }
  }

  lemma EntriesAreDistinct()
    ensures AvoidEntry != StrictEntry && AvoidEntry != PreferEntry && AvoidEntry != FallbackEntry && AvoidEntry != BudgetEntry
    ensures !IsDefaultEntry(StrictEntry) && !IsDefaultEntry(PreferEntry) && !IsDefaultEntry(FallbackEntry)
    ensures !IsDefaultEntry(BudgetEntry) && !IsDefaultEntry(AvoidEntry)
  {
    DefaultEntryStartsWithD(StrictEntry);
    DefaultEntryStartsWithD(PreferEntry);
    DefaultEntryStartsWithD(FallbackEntry);
    DefaultEntryStartsWithD(BudgetEntry);
    DefaultEntryStartsWithD(AvoidEntry);
  }

  lemma StepKeepsShape(rule: Rule, env: Constraints, st: State)
    requires AvoidFollowsBudget(st.path) && DefaultOnlyFirst(st.path)
    ensures Step(rule, env, st).Success? ==>
      AvoidFollowsBudget(Step(rule, env, st).value.path) && DefaultOnlyFirst(Step(rule, env, st).value.path)
  {
    EntriesAreDistinct();
    match rule
    case Other =>
    case Default(acts) =>
    case If(cond, acts) =>
      var r := Step(rule, env, st);
      if r.Success? && r.value.path != st.path {
        match ParseCond(cond)
        case SafetyStrict =>
          AppendPlain(st.path, [StrictEntry]);
        case LatencyAtMost1000 =>
          var p1 := if PreferAct in acts then st.path + [PreferEntry] else st.path;
          AppendPlain(st.path, p1[|st.path|..]);
          assert st.path + p1[|st.path|..] == p1;
          AppendPlain(p1, [FallbackEntry]);
        case BudgetAtMost3 =>
          AppendPlain(st.path, [BudgetEntry]);
          var q := st.path + [BudgetEntry];
          if AvoidAct in acts {
            var q2 := q + [AvoidEntry];
            assert r.value.path == q2;
            forall i | 0 <= i < |q2| ensures q2[i] == AvoidEntry ==> 0 < i && q2[i - 1] == BudgetEntry {
              if i < |q| {
                assert q2[i] == q[i];
                if 0 < i {
                  assert q2[i - 1] == q[i - 1];
                }
              }
            }
            forall i | 0 < i < |q2| ensures !IsDefaultEntry(q2[i]) {
              if i < |q| {
                assert q2[i] == q[i];
              }
            }
          } else {
            assert r.value.path == q;
          }
        case Unrecognized(_) =>
      }
  }

  lemma {:induction false} FoldKeepsShape(rules: seq<Rule>, env: Constraints, st: State)
    requires AvoidFollowsBudget(st.path) && DefaultOnlyFirst(st.path)
    ensures Fold(rules, env, st).Success? ==>
      AvoidFollowsBudget(Fold(rules, env, st).value.path) && DefaultOnlyFirst(Fold(rules, env, st).value.path)
  {
    if |rules| > 0 {
      StepKeepsShape(rules[0], env, st);
      match Step(rules[0], env, st)
      case Failure(_) =>
      case Success(st1) =>
        FoldKeepsShape(rules[1..], env, st1);
    }
  }

  /** The path of a decision: entries appear only when their rule's condition
      holds, "avoid" only right after "budget", and a default entry only first. */
  lemma DecisionPath(doc: map<string, seq<Rule>>, profile: string, constraints: Option<Constraints>)
    ensures var r := EvaluatePolicy(doc, profile, constraints);
      var rules := if profile in doc then doc[profile] else [];
      r.Success? ==>
        && AvoidFollowsBudget(r.value.path)
        && DefaultOnlyFirst(r.value.path)
        && forall e :: !IsDefaultEntry(e) ==>
             (e in r.value.path <==> exists i :: 0 <= i < |rules| && Emits(rules[i], Resolve(constraints), e))
  {
    var rules := if profile in doc then doc[profile] else [];
    var init := State(BaselineModel, []);
    FoldKeepsShape(rules, Resolve(constraints), init);
    FoldEntries(rules, Resolve(constraints), init);
    EntriesAreDistinct();
  }

  // ---------------------------------------------------------------------------
  // Default rules
  // ---------------------------------------------------------------------------

  /** Running the rules is running a prefix of them and then the rest. */
  lemma {:induction false} FoldSplit(rules: seq<Rule>, k: nat, env: Constraints, st: State)
    requires k <= |rules|
    ensures Fold(rules, env, st) ==
      match Fold(rules[..k], env, st)
      case Failure(f) => Failure(f)
      case Success(mid) => Fold(rules[k..], env, mid)
  {
    if k > 0 {
      match Step(rules[0], env, st)
      case Failure(_) =>
      case Success(st1) =>
        FoldSplit(rules[1..], k - 1, env, st1);
        assert rules[1..][..k - 1] == rules[..k][1..];
        assert rules[1..][k - 1..] == rules[k..];
    }
  }

  /** A `default` rule reached while the path is still empty writes the first
      entry, and what later rules add comes after it. */
  lemma DefaultRuleWritesFirstEntry(rules: seq<Rule>, k: nat, env: Constraints, st: State)
    requires k < |rules| && rules[k].Default?
    requires Fold(rules[..k], env, st).Success? && Fold(rules[..k], env, st).value.path == []
    ensures Fold(rules, env, st).Success? ==>
      var path := Fold(rules, env, st).value.path;
      |path| > 0 && path[0] == DefaultPrefix + Join(rules[k].acts, ", ")
  {
    FoldSplit(rules, k, env, st);
    var mid := Fold(rules[..k], env, st).value;
    FoldSplit(rules[k..], 1, env, mid);
    assert rules[k..][..1] == [rules[k]];
    assert rules[k..][1..] == rules[k + 1..];
  }
}
