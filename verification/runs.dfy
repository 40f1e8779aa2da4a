/**
 * What `Database.eval` computes, stratum by stratum. A plain stratum adds only heads of
 * its rules whose negated conditions fail against the facts it started from, and it
 * either reaches a fixpoint of its rules or gives up after the allowed passes, each of
 * which found something. An aggregate stratum adds one fact per group of the instances of
 * its head that the facts before it derive. Evaluation goes on to the next stratum only
 * after a fixpoint.
 */
module Runs {
  import opened Wrappers
  import opened Terms
  import opened Facts
  import opened Program
  import opened Evaluation
  import opened Derivations
  import opened Validation

  /**
   * One plain stratum, from facts `a` to facts `b`: what it adds is derived, and when
   * `done` the facts are closed under its rules; otherwise each of the `fuel` passes added
   * at least one fact.
   */
  ghost predicate PlainStep(rules: seq<Rule>, a: Store, b: Store, done: bool, fuel: nat) {
    && a <= b
    && Derived(rules, 0, a, b)
    && (done ==> forall j, env' | 0 <= j < |rules| && Derives(rules[j], 0, map[], env', b, b) ::
          RewriteClause(rules[j].head, env') in b)
    && (!done ==> |b| >= |a| + fuel)
  }

  /**
   * One aggregate rule, from facts `a` to facts `b`: the instances of its head derived from
   * `a`, each of them and all of them, are grouped, and `b` adds the fact of every group.
   */
  ghost predicate AggregateStep(rule: Rule, a: Store, b: Store) {
    && a <= b
    && exists recorded: seq<Clause>, g: Groups ::
      && (forall j | 0 <= j < |recorded| :: |recorded[j].args| == |rule.head.args|)
      && (forall j | 0 <= j < |recorded| :: HeadFrom(rule, 0, map[], recorded[j], a, a))
      && (forall env' | Derives(rule, 0, map[], env', a, a) :: RewriteClause(rule.head, env') in recorded)
      && Grouped(g, rule.head, recorded)
      && (forall f :: f in b <==> f in a || exists key :: key in g.byKey && g.byKey[key] == f)
  }

  /**
   * The strata from the `i`-th on take facts `a` to facts `b`: an aggregate stratum holds
   * its rule alone, and a plain stratum that gives up ends the run.
   */
  ghost predicate Runs(ss: seq<RuleStratum>, i: nat, a: Store, b: Store, fuel: nat)
    requires i <= |ss|
    decreases |ss| - i
  {
    if i == |ss| then b == a
    else if |ss[i].rules| == 0 then false
    else if RuleHasAggregates(ss[i].rules[0]) then
      && |ss[i].rules| == 1
      && exists m :: AggregateStep(ss[i].rules[0], a, m) && Runs(ss, i + 1, m, b, fuel)
    else
      exists m, done :: PlainStep(ss[i].rules, a, m, done, fuel) && (if done then Runs(ss, i + 1, m, b, fuel) else b == m)
  }

  /** `evaluateStratum` takes a stratum one plain step. */
  lemma StratumSteps(store: Store, rules: seq<Rule>, fuel: nat)
    requires EvaluateStratum(store, rules, fuel).Success?
    ensures PlainStep(rules, store, EvaluateStratum(store, rules, fuel).value.0, EvaluateStratum(store, rules, fuel).value.1, fuel)
  {
    var (b, done) := EvaluateStratum(store, rules, fuel).value;
    EvaluateStratumSound(store, rules, fuel);
    StratumGivesUp(store, rules, fuel);
    if done {
      forall j, env' | 0 <= j < |rules| && Derives(rules[j], 0, map[], env', b, b)
        ensures RewriteClause(rules[j].head, env') in b
      {
        EvaluateStratumCloses(store, rules, fuel, j, env');
      }
    }
  }

  /** The instances an aggregate rule's search recorded, and its groups, are the ones `AggregateStep` asks for. */
  lemma AggregateWitness(store: Store, rule: Rule) returns (recorded: seq<Clause>, g: Groups)
    requires RuleHasAggregates(rule) && EvaluateAggregateRule(store, rule).Success?
    ensures forall j | 0 <= j < |recorded| :: |recorded[j].args| == |rule.head.args|
    ensures forall j | 0 <= j < |recorded| :: HeadFrom(rule, 0, map[], recorded[j], store, store)
    ensures forall env' | Derives(rule, 0, map[], env', store, store) :: RewriteClause(rule.head, env') in recorded
    ensures Grouped(g, rule.head, recorded)
    ensures forall f :: f in EvaluateAggregateRule(store, rule).value <==>
      f in store || exists key :: key in g.byKey && g.byKey[key] == f
  {
    AggregateRuleGroups(store, rule);
    AggregateSearchSound(store, rule);
    var st := AggregateSearch(store, rule).value.0;
    recorded, g := st.recorded, st.groups.value;
    forall env' | Derives(rule, 0, map[], env', store, store) ensures RewriteClause(rule.head, env') in recorded {
      AggregateSearchComplete(store, rule, env');
    }
  }

  /** `evaluateAggregateRule` takes an aggregate rule one aggregate step. */
  lemma AggregateSteps(store: Store, rule: Rule)
    requires RuleHasAggregates(rule) && EvaluateAggregateRule(store, rule).Success?
    ensures AggregateStep(rule, store, EvaluateAggregateRule(store, rule).value)
  {
    var recorded, g := AggregateWitness(store, rule);
  }

  /** What `EvalStrata` returns is the end of a run of the strata from the `i`-th on. */
  lemma {:induction false} EvalStrataRuns(ss: seq<RuleStratum>, i: nat, store: Store, fuel: nat)
    requires i <= |ss|
    ensures EvalStrata(ss, i, store, fuel).Success? ==> Runs(ss, i, store, EvalStrata(ss, i, store, fuel).value, fuel)
    decreases |ss| - i
  {
    var r := EvalStrata(ss, i, store, fuel);
    if r.Success? && i < |ss| {
      var rule := ss[i].rules[0];
      if RuleHasAggregates(rule) {
        var m := EvaluateAggregateRule(store, rule).value;
        AggregateSteps(store, rule);
        EvalStrataRuns(ss, i + 1, m, fuel);
        assert r == EvalStrata(ss, i + 1, m, fuel);
      } else {
        var (m, done) := EvaluateStratum(store, ss[i].rules, fuel).value;
        StratumSteps(store, ss[i].rules, fuel);
        if done {
          EvalStrataRuns(ss, i + 1, m, fuel);
          assert r == EvalStrata(ss, i + 1, m, fuel);
        }
      }
    }
  }

  /**
   * `Database.eval` on a valid program runs its strata, in order, from no facts: every fact
   * it returns comes from a stratum's rules or an aggregate's groups, each completed stratum
   * is closed under its rules, and evaluation stops early only when a stratum gave up.
   */
  lemma EvalRuns(rules: seq<Rule>, uses: (Condition, Clause) -> bool, fuel: nat)
    ensures Eval(rules, uses, fuel).Success? ==> Runs(StrataOf(rules, uses), 0, [], Eval(rules, uses, fuel).value, fuel)
  {
    var ss := StrataOf(rules, uses);
    if EnsureProgramIsValid(ss).Success? {
      var empty: Store := [];
      EvalStrataRuns(ss, 0, empty, fuel);
      assert Eval(rules, uses, fuel) == EvalStrata(ss, 0, empty, fuel);
    }
  }
}
