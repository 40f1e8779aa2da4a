/**
 * Bottom-up evaluation (`findNewFacts`, `recordNewFact`, `evaluateStratum`,
 * `evaluateAggregateRule`, `Database.eval`). Evaluation threads a state through the
 * search for new facts instead of mutating a dictionary; each level of the search ranges
 * over the facts known when that level starts.
 */
module Evaluation {
  import opened Wrappers
  import opened Terms
  import opened Unification
  import opened Builtins
  import opened Facts
  import opened Graphs
  import opened Mangling
  import opened Program
  import opened Validation

  /** Why evaluation stopped with an exception. */
  datatype EvalError =
    | UnifyFailed(e: UnifyError)          // an error other than 'unification failed' escaping `unify`
    | BuiltinFailed(msg: string)          // a member condition without a first argument
    | NoAggregateMap(rule: string)        // an aggregate rule met outside `evaluateAggregateRule`
    | EmptyStratum                        // `stratum[0]` of a stratum without rules
    | SanityCheck(msg: string)            // a failed `meh.sanityCheck`
    | Invalid(errors: seq<ValidationError>) // `ensureProgramIsValid` found errors

  /**
   * The facts known so far; the `aggregateMap` of the aggregate rule being evaluated, if
   * any; and the facts handed to that map so far, in order (the grouping is all the engine
   * keeps of them).
   */
  datatype EvalState = EvalState(store: Store, groups: Option<Groups>, recorded: seq<Clause>)

  /** The aggregate map, and the facts handed to it, hold facts of the head's arity. */
  ghost predicate Fits(st: EvalState, head: Clause) {
    st.groups.Some? ==>
      && (forall j | 0 <= j < |st.recorded| :: |st.recorded[j].args| == |head.args|)
      && (forall k | k in st.groups.value.byKey :: |st.groups.value.byKey[k].args| == |head.args|)
  }

  /** The aggregate map is the grouping of the facts handed to it, in order. */
  ghost predicate Grouping(st: EvalState, head: Clause)
    requires Fits(st, head)
  {
    st.groups.Some? ==> st.groups.value == GroupAll(Groups([], map[]), head, st.recorded)
  }

  lemma {:induction false} GroupAllAppend(g: Groups, head: Clause, facts: seq<Clause>, f: Clause)
    requires forall j | 0 <= j < |facts| :: |facts[j].args| == |head.args|
    requires |f.args| == |head.args|
    requires forall k | k in g.byKey :: |g.byKey[k].args| == |head.args|
    ensures forall j | 0 <= j < |facts + [f]| :: |(facts + [f])[j].args| == |head.args|
    ensures GroupAll(g, head, facts + [f]) == AddToGroup(GroupAll(g, head, facts), head, f)
    decreases |facts|
  {
    if facts != [] {
      assert (facts + [f])[1..] == facts[1..] + [f];
      GroupAllAppend(AddToGroup(g, head, facts[0]), head, facts[1..], f);
    }
  }

  /**
   * `recordNewFact`: the head rewritten through the environment. A plain rule's fact is
   * new exactly when it is not yet known, and it is known afterwards; an aggregate rule's
   * fact joins its group, which needs the aggregate map `evaluateAggregateRule` sets up.
   */
  function RecordNewFact(st: EvalState, rule: Rule, env: Env): (r: Result<(EvalState, bool), EvalError>)
    requires Fits(st, rule.head)
    ensures r.Success? ==> Fits(r.value.0, rule.head)
    ensures !RuleHasAggregates(rule) ==> r.Success?
    ensures !RuleHasAggregates(rule) ==> (r.value.1 <==> RewriteClause(rule.head, env) !in st.store)
    ensures !RuleHasAggregates(rule) ==> RewriteClause(rule.head, env) in r.value.0.store
    ensures !RuleHasAggregates(rule) ==> forall f :: f in r.value.0.store <==> f in st.store || f == RewriteClause(rule.head, env)
    ensures !RuleHasAggregates(rule) ==> r.value.0.groups == st.groups && r.value.0.recorded == st.recorded
    ensures RuleHasAggregates(rule) ==> (r.Success? <==> st.groups.Some?)
    ensures RuleHasAggregates(rule) && r.Success? ==> r.value.1 && r.value.0.store == st.store
    ensures RuleHasAggregates(rule) && r.Success? ==> r.value.0.recorded == st.recorded + [RewriteClause(rule.head, env)]
  {
    var fact := RewriteClause(rule.head, env);
    if RuleHasAggregates(rule) then
      if st.groups.None? then Failure(NoAggregateMap(rule.head.name))
      else
        Success((EvalState(st.store, Some(AddToGroup(st.groups.value, rule.head, fact)), st.recorded + [fact]), true))
    else
      var (store, isNew) := AddFact(st.store, fact);
      Success((EvalState(store, st.groups, st.recorded), isNew))
  }

  /** The facts a condition ranges over: a member built-in's facts, or every known fact. */
  function Candidates(store: Store, c: Clause): (r: Result<seq<Clause>, EvalError>)
    ensures !IsBuiltin(c.name) ==> r == Success(store)
    ensures IsBuiltin(c.name) ==> (r.Success? <==> |c.args| > 0)
    ensures IsBuiltin(c.name) && r.Success? ==> r.value == MemberFacts(c).value
  {
    if IsBuiltin(c.name) then
      match MemberFacts(c)
      case Success(fs) => Success(fs)
      case Failure(msg) => Failure(BuiltinFailed(msg))
    else Success(store)
  }

  /** A negated condition holds when no candidate unifies with its clause (every error counts as no). */
  predicate AnyUnifies(c: Clause, cands: seq<Clause>, env: Env) {
    exists i | 0 <= i < |cands| :: UnifyClauses(c, cands[i], env).Success?
  }

  /** The new facts of a plain rule are instances of its head. */
  ghost predicate Instance(head: Clause, f: Clause) {
    exists env :: RewriteClause(head, env) == f
  }

  /** The exceptions the search itself can raise. */
  predicate SearchError(e: EvalError) {
    e.UnifyFailed? || e.BuiltinFailed? || e.NoAggregateMap?
  }

  /** What a step of the search keeps: known facts stay known and the aggregate map stays set up (or absent). */
  ghost predicate Keeps(st: EvalState, st': EvalState, rule: Rule) {
    && st.store <= st'.store
    && (Distinct(st.store) ==> Distinct(st'.store))
    && (forall f | f in st'.store && f !in st.store :: Instance(rule.head, f))
    && (RuleHasAggregates(rule) ==> st'.store == st.store)
    && (!RuleHasAggregates(rule) ==> st'.groups == st.groups && st'.recorded == st.recorded)
    && (st.groups.None? <==> st'.groups.None?)
    && st.recorded <= st'.recorded
    && (forall j | |st.recorded| <= j < |st'.recorded| :: Instance(rule.head, st'.recorded[j]))
  }

  lemma KeepsTransitive(a: EvalState, b: EvalState, c: EvalState, rule: Rule)
    requires Keeps(a, b, rule) && Keeps(b, c, rule)
    ensures Keeps(a, c, rule)
  {
    forall j | |a.recorded| <= j < |c.recorded| ensures Instance(rule.head, c.recorded[j]) {
      if j < |b.recorded| {
        assert c.recorded[j] == b.recorded[j];
      }
    }
  }

  /**
   * `findNewFacts(factsDict, rule, k, env)`: satisfy the conditions from the `k`-th on,
   * recording the head for every way to do so. The result says whether a new fact was
   * found. A positive condition tries each candidate in a copy of the environment,
   * ignoring 'unification failed' and passing every other error on; a negated condition
   * lets the search go on only when no candidate unifies. The candidates are the facts
   * as they stood when the condition's loop began: facts added during the loop are not
   * visited, as V8 enumerates an object with `for ... in`; the language leaves the
   * enumeration of keys added during the loop to the implementation.
   */
  function FindNewFacts(st: EvalState, rule: Rule, k: nat, env: Env): (r: Result<(EvalState, bool), EvalError>)
    requires k <= |rule.conditions| && Fits(st, rule.head)
    ensures r.Success? ==> Fits(r.value.0, rule.head) && Keeps(st, r.value.0, rule)
    ensures r.Failure? ==> SearchError(r.error)
    ensures r.Success? && st.groups.None? ==> (r.value.1 <==> |r.value.0.store| > |st.store|)
    ensures r.Success? && st.groups.None? ==> r.value.0.recorded == st.recorded
    decreases |rule.conditions| - k, 1, 0
  {
    if k == |rule.conditions| then
      RecordKeeps(st, rule, env);
      RecordNewFact(st, rule, env)
    else
      var cond := RewriteCondition(rule.conditions[k], env);
      var cands :- Candidates(st.store, cond.clause);
      if cond.Pos? then TryEach(st, rule, k + 1, env, cond.clause, cands, 0, false)
      else if AnyUnifies(cond.clause, cands, env) then Success((st, false))
      else FindNewFacts(st, rule, k + 1, env)
  }

  /** Recording the head keeps the state: only instances of the head are added. */
  lemma RecordKeeps(st: EvalState, rule: Rule, env: Env)
    requires Fits(st, rule.head)
    ensures RecordNewFact(st, rule, env).Success? ==> Keeps(st, RecordNewFact(st, rule, env).value.0, rule)
  {
    var r := RecordNewFact(st, rule, env);
    if r.Success? && !RuleHasAggregates(rule) {
      forall f | f in r.value.0.store && f !in st.store ensures Instance(rule.head, f) {
        assert RewriteClause(rule.head, env) == f;
      }
    } else if r.Success? {
      assert RewriteClause(rule.head, env) == r.value.0.recorded[|st.recorded|];
    }
  }

  /**
   * The loop of a positive condition over the candidates `cands`, from the `i`-th on:
   * each one that unifies with `cond` continues the search at condition `next`.
   */
  function TryEach(st: EvalState, rule: Rule, next: nat, env: Env, cond: Clause, cands: seq<Clause>, i: nat, found: bool)
    : (r: Result<(EvalState, bool), EvalError>)
    requires 0 < next <= |rule.conditions| && i <= |cands| && Fits(st, rule.head)
    ensures r.Success? ==> Fits(r.value.0, rule.head) && Keeps(st, r.value.0, rule)
    ensures r.Failure? ==> SearchError(r.error)
    ensures r.Success? && st.groups.None? ==> (r.value.1 <==> found || |r.value.0.store| > |st.store|)
    ensures r.Success? && st.groups.None? ==> r.value.0.recorded == st.recorded
    decreases |rule.conditions| - next + 1, 0, |cands| - i
  {
    if i == |cands| then Success((st, found))
    else
      match UnifyClauses(cond, cands[i], env)
      case Failure(Mismatch) => TryEach(st, rule, next, env, cond, cands, i + 1, found)
      case Failure(e) => Failure(UnifyFailed(e))
      case Success(env') =>
        var (st', f) :- FindNewFacts(st, rule, next, env');
        var r := TryEach(st', rule, next, env, cond, cands, i + 1, found || f);
        assert r.Success? ==> Keeps(st, r.value.0, rule) by {
          if r.Success? {
            KeepsTransitive(st, st', r.value.0, rule);
          }
        }
        r
  }

  /** Handing a fact to the aggregate map keeps the map the grouping of the facts handed to it. */
  lemma RecordGroups(st: EvalState, rule: Rule, env: Env)
    requires Fits(st, rule.head)
    ensures var r := RecordNewFact(st, rule, env);
      Grouping(st, rule.head) && r.Success? ==> Grouping(r.value.0, rule.head)
  {
    if RuleHasAggregates(rule) && st.groups.Some? {
      GroupAllAppend(Groups([], map[]), rule.head, st.recorded, RewriteClause(rule.head, env));
    }
  }

  /** The search keeps the aggregate map the grouping of the facts handed to it. */
  lemma {:induction false} FindNewFactsGroups(st: EvalState, rule: Rule, k: nat, env: Env)
    requires k <= |rule.conditions| && Fits(st, rule.head)
    ensures var r := FindNewFacts(st, rule, k, env);
      Grouping(st, rule.head) && r.Success? ==> Grouping(r.value.0, rule.head)
    decreases |rule.conditions| - k, 2, 0, 0
  {
    if k == |rule.conditions| {
      assert FindNewFacts(st, rule, k, env) == RecordNewFact(st, rule, env);
      RecordGroups(st, rule, env);
    } else {
      ConditionGroups(st, rule, k, env);
    }
  }

  lemma {:induction false} ConditionGroups(st: EvalState, rule: Rule, k: nat, env: Env)
    requires k < |rule.conditions| && Fits(st, rule.head)
    ensures var r := FindNewFacts(st, rule, k, env);
      Grouping(st, rule.head) && r.Success? ==> Grouping(r.value.0, rule.head)
    decreases |rule.conditions| - k, 1, 1, 0
  {
    var r := FindNewFacts(st, rule, k, env);
    var cond := RewriteCondition(rule.conditions[k], env);
    var cands := Candidates(st.store, cond.clause);
    if cands.Success? && cond.Pos? {
      assert r == TryEach(st, rule, k + 1, env, cond.clause, cands.value, 0, false);
      TryEachGroups(st, rule, k + 1, env, cond.clause, cands.value, 0, false);
    } else if cands.Success? {
      NegatedGroups(st, rule, k, env);
    }
  }

  lemma {:induction false} NegatedGroups(st: EvalState, rule: Rule, k: nat, env: Env)
    requires k < |rule.conditions| && Fits(st, rule.head) && RewriteCondition(rule.conditions[k], env).Neg?
    ensures var r := FindNewFacts(st, rule, k, env);
      Grouping(st, rule.head) && r.Success? ==> Grouping(r.value.0, rule.head)
    decreases |rule.conditions| - k, 1, 0, 0
  {
    var r := FindNewFacts(st, rule, k, env);
    var c := RewriteCondition(rule.conditions[k], env).clause;
    var cands := Candidates(st.store, c);
    if cands.Success? && !AnyUnifies(c, cands.value, env) {
      assert r == FindNewFacts(st, rule, k + 1, env);
      FindNewFactsGroups(st, rule, k + 1, env);
    }
  }

  lemma {:induction false} TryEachGroups(st: EvalState, rule: Rule, next: nat, env: Env, cond: Clause, cands: seq<Clause>, i: nat, found: bool)
    requires 0 < next <= |rule.conditions| && i <= |cands| && Fits(st, rule.head)
    ensures var r := TryEach(st, rule, next, env, cond, cands, i, found);
      Grouping(st, rule.head) && r.Success? ==> Grouping(r.value.0, rule.head)
    decreases |rule.conditions| - next + 1, 0, |cands| - i, 1
  {
    if i < |cands| {
      if UnifyClauses(cond, cands[i], env).Success? {
        TryEachGroupsHit(st, rule, next, env, cond, cands, i, found);
      } else {
        TryEachGroups(st, rule, next, env, cond, cands, i + 1, found);
      }
    }
  }

  lemma {:induction false} TryEachGroupsHit(st: EvalState, rule: Rule, next: nat, env: Env, cond: Clause, cands: seq<Clause>, i: nat, found: bool)
    requires 0 < next <= |rule.conditions| && i < |cands| && Fits(st, rule.head)
    requires UnifyClauses(cond, cands[i], env).Success?
    ensures var r := TryEach(st, rule, next, env, cond, cands, i, found);
      Grouping(st, rule.head) && r.Success? ==> Grouping(r.value.0, rule.head)
    decreases |rule.conditions| - next + 1, 0, |cands| - i, 0
  {
    var r := TryEach(st, rule, next, env, cond, cands, i, found);
    var e := UnifyClauses(cond, cands[i], env).value;
    FindNewFactsGroups(st, rule, next, e);
    var r1 := FindNewFacts(st, rule, next, e);
    if r1.Success? {
      assert r == TryEach(r1.value.0, rule, next, env, cond, cands, i + 1, found || r1.value.1);
      TryEachGroups(r1.value.0, rule, next, env, cond, cands, i + 1, found || r1.value.1);
    }
  }

  /** One pass of `evaluateStratum`: every rule, from an empty environment. */
  function Round(st: EvalState, rules: seq<Rule>, i: nat, found: bool): (r: Result<(EvalState, bool), EvalError>)
    requires i <= |rules| && st.groups.None?
    ensures r.Success? ==> r.value.0.groups.None? && st.store <= r.value.0.store
    ensures r.Success? ==> r.value.0.recorded == st.recorded
    ensures r.Failure? ==> SearchError(r.error)
    ensures r.Success? ==> (Distinct(st.store) ==> Distinct(r.value.0.store))
    ensures r.Success? ==> (r.value.1 <==> found || |r.value.0.store| > |st.store|)
    ensures r.Success? ==> forall f | f in r.value.0.store && f !in st.store ::
      exists j | i <= j < |rules| :: Instance(rules[j].head, f)
    decreases |rules| - i
  {
    if i == |rules| then Success((st, found))
    else
      var (st', f) :- FindNewFacts(st, rules[i], 0, map[]);
      var r := Round(st', rules, i + 1, found || f);
      assert r.Success? ==> forall f | f in r.value.0.store && f !in st.store ::
        exists j | i <= j < |rules| :: Instance(rules[j].head, f) by {
        if r.Success? {
          forall f | f in r.value.0.store && f !in st.store
            ensures exists j | i <= j < |rules| :: Instance(rules[j].head, f)
          {
            if f !in st'.store {
              var j :| i + 1 <= j < |rules| && Instance(rules[j].head, f);
            } else {
              assert Instance(rules[i].head, f);
            }
          }
        }
      }
      r
  }

  /** Rules without aggregates whose `member` conditions have arguments. */
  ghost predicate PlainRules(rules: seq<Rule>) {
    forall j | 0 <= j < |rules| :: MemberArgsPresent(rules[j]) && !RuleHasAggregates(rules[j])
  }

  /**
   * `evaluateStratum`: passes over the rules until one finds nothing new. The engine asks
   * the user every thousand passes whether to go on; here `fuel` passes are allowed, and
   * running out is the user declining (the result then says `false`). When it finishes,
   * the facts are a fixpoint: one more pass finds nothing and changes nothing.
   */
  function EvaluateStratum(store: Store, rules: seq<Rule>, fuel: nat): (r: Result<(Store, bool), EvalError>)
    ensures r.Success? ==> store <= r.value.0 && (Distinct(store) ==> Distinct(r.value.0))
    ensures r.Failure? ==> SearchError(r.error)
    ensures PlainRules(rules) ==> r.Success?
    ensures r.Success? && !r.value.1 ==> fuel == 0 || |r.value.0| > |store|
    ensures r.Success? && r.value.1 ==>
      Round(EvalState(r.value.0, None, []), rules, 0, false) == Success((EvalState(r.value.0, None, []), false))
    decreases fuel
  {
    if fuel == 0 then Success((store, false))
    else
      var st := EvalState(store, None, []);
      assert PlainRules(rules) ==> Round(st, rules, 0, false).Success? by {
        if PlainRules(rules) {
          RoundSucceeds(st, rules, 0, false);
        }
      }
      var (st', found) :- Round(st, rules, 0, false);
      if found then
        EvaluateStratum(st'.store, rules, fuel - 1)
      else
        assert st' == st;
        Success((store, true))
  }

  /** A stratum gives up only after every allowed pass added at least one fact. */
  lemma {:induction false} StratumGivesUp(store: Store, rules: seq<Rule>, fuel: nat)
    ensures var r := EvaluateStratum(store, rules, fuel);
      r.Success? && !r.value.1 ==> |r.value.0| >= |store| + fuel
    decreases fuel
  {
    var r := EvaluateStratum(store, rules, fuel);
    if r.Success? && !r.value.1 && fuel > 0 {
      var (st', found) := Round(EvalState(store, None, []), rules, 0, false).value;
      StratumGivesUp(st'.store, rules, fuel - 1);
    }
  }

  /** The search of an aggregate rule, from a fresh aggregate map. */
  function AggregateSearch(store: Store, rule: Rule): (r: Result<(EvalState, bool), EvalError>)
    ensures r.Success? ==> store <= r.value.0.store && (Distinct(store) ==> Distinct(r.value.0.store))
    ensures r.Success? && RuleHasAggregates(rule) ==> r.value.0.store == store
    ensures r.Success? ==> forall j | 0 <= j < |r.value.0.recorded| ::
      |r.value.0.recorded[j].args| == |rule.head.args| && Instance(rule.head, r.value.0.recorded[j])
    ensures r.Success? ==> r.value.0.groups.Some?
    ensures r.Success? ==> r.value.0.groups.value == GroupAll(Groups([], map[]), rule.head, r.value.0.recorded)
    ensures r.Failure? ==> SearchError(r.error)
  {
    var st := EvalState(store, Some(Groups([], map[])), []);
    FindNewFactsGroups(st, rule, 0, map[]);
    FindNewFacts(st, rule, 0, map[])
  }

  /**
   * `evaluateAggregateRule`: search with a fresh aggregate map, then store the fact of
   * every group.
   */
  function EvaluateAggregateRule(store: Store, rule: Rule): (r: Result<Store, EvalError>)
    ensures r.Success? ==> store <= r.value && (Distinct(store) ==> Distinct(r.value))
    ensures r.Failure? ==> SearchError(r.error)
  {
    var (st, _) :- AggregateSearch(store, rule);
    GroupingAggregates(rule.head, st.recorded);
    Success(StoreGroups(st.store, st.groups.value, 0))
  }

  /**
   * An aggregate rule adds one fact per tuple of non-aggregate values among the instances
   * of its head the search found; each aggregate position holds the aggregate of the
   * values those instances carry there.
   */
  lemma AggregateRuleGroups(store: Store, rule: Rule)
    requires RuleHasAggregates(rule) && EvaluateAggregateRule(store, rule).Success?
    ensures AggregateSearch(store, rule).Success?
    ensures Grouped(AggregateSearch(store, rule).value.0.groups.value, rule.head, AggregateSearch(store, rule).value.0.recorded)
    ensures forall f :: f in EvaluateAggregateRule(store, rule).value <==>
      f in store || exists key :: key in AggregateSearch(store, rule).value.0.groups.value.byKey &&
                                  AggregateSearch(store, rule).value.0.groups.value.byKey[key] == f
  {
    var st := AggregateSearch(store, rule).value.0;
    GroupingAggregates(rule.head, st.recorded);
    var g := st.groups.value;
    assert EvaluateAggregateRule(store, rule).value == StoreGroups(store, g, 0);
    forall f ensures GroupFactFrom(g, 0, f) <==> exists key :: key in g.byKey && g.byKey[key] == f {
      if exists key :: key in g.byKey && g.byKey[key] == f {
        var key :| key in g.byKey && g.byKey[key] == f;
        var j :| 0 <= j < |g.keys| && g.keys[j] == key;
      }
    }
  }

  /** The strata from the `i`-th on, while the user keeps going. */
  function EvalStrata(ss: seq<RuleStratum>, i: nat, store: Store, fuel: nat): (r: Result<Store, EvalError>)
    requires i <= |ss|
    ensures r.Success? ==> store <= r.value && (Distinct(store) ==> Distinct(r.value))
    ensures r.Failure? ==> !r.error.Invalid?
    decreases |ss| - i
  {
    if i == |ss| then Success(store)
    else if |ss[i].rules| == 0 then Failure(EmptyStratum)
    else if RuleHasAggregates(ss[i].rules[0]) then
      if |ss[i].rules| != 1 then Failure(SanityCheck("an aggregate rule must be in its own stratum"))
      else
        var store' :- EvaluateAggregateRule(store, ss[i].rules[0]);
        EvalStrata(ss, i + 1, store', fuel)
    else
      var (store', keepGoing) :- EvaluateStratum(store, ss[i].rules, fuel);
      if keepGoing then EvalStrata(ss, i + 1, store', fuel) else Success(store')
  }

  /** The strata of a program once its variables are mangled, under the edge test `uses`. */
  function StrataOf(rules: seq<Rule>, uses: (Condition, Clause) -> bool): (ss: seq<RuleStratum>)
    ensures DepsEarlier(ss) && RulesPlaced(ss, MangleRules(rules)) && NoEmptyStratum(ss)
  {
    ProgramStrata(MangleRules(rules), uses)
  }

  /**
   * `Database.eval`: mangle the variables, stratify, validate, then evaluate stratum by
   * stratum from no facts. An invalid program fails with the errors validation found.
   * With `MayUseAsWritten` for `uses` the strata are the engine's.
   */
  function Eval(rules: seq<Rule>, uses: (Condition, Clause) -> bool, fuel: nat): (r: Result<Store, EvalError>)
    ensures r.Success? ==> Distinct(r.value)
    ensures r.Failure? && r.error.Invalid? <==> EnsureProgramIsValid(StrataOf(rules, uses)).Failure?
    ensures r.Failure? && r.error.Invalid? ==> r.error.errors == CheckStrata(StrataOf(rules, uses))
  {
    var ss := StrataOf(rules, uses);
    match EnsureProgramIsValid(ss)
    case Failure(errs) => Failure(Invalid(errs))
    case Success(_) =>
      EvalStrata(ss, 0, [], fuel)
  }

  /** Strata that all hold rules never fail with `EmptyStratum`. */
  lemma {:induction false} EvalStrataNeverEmpty(ss: seq<RuleStratum>, i: nat, store: Store, fuel: nat)
    requires i <= |ss| && NoEmptyStratum(ss)
    ensures EvalStrata(ss, i, store, fuel).Failure? ==> !EvalStrata(ss, i, store, fuel).error.EmptyStratum?
    decreases |ss| - i
  {
    if i < |ss| {
      var rule := ss[i].rules[0];
      if RuleHasAggregates(rule) {
        if |ss[i].rules| == 1 && EvaluateAggregateRule(store, rule).Success? {
          EvalStrataNeverEmpty(ss, i + 1, EvaluateAggregateRule(store, rule).value, fuel);
        }
      } else if EvaluateStratum(store, ss[i].rules, fuel).Success? {
        EvalStrataNeverEmpty(ss, i + 1, EvaluateStratum(store, ss[i].rules, fuel).value.0, fuel);
      }
    }
  }

  /** A computed stratum always holds a rule, so `eval` never fails with `EmptyStratum`. */
  lemma EvalNeverEmptyStratum(rules: seq<Rule>, uses: (Condition, Clause) -> bool, fuel: nat)
    ensures Eval(rules, uses, fuel).Failure? ==> !Eval(rules, uses, fuel).error.EmptyStratum?
  {
    var ss := StrataOf(rules, uses);
    if EnsureProgramIsValid(ss).Success? {
      var empty: Store := [];
      EvalStrataNeverEmpty(ss, 0, empty, fuel);
      assert Eval(rules, uses, fuel) == EvalStrata(ss, 0, empty, fuel);
    }
  }

  // ---------------------------------------------------------------------------
  // When evaluation raises nothing
  // ---------------------------------------------------------------------------

  /** Every member condition of the rule has a first argument. */
  ghost predicate MemberArgsPresent(r: Rule) {
    forall k | 0 <= k < |r.conditions| && IsBuiltin(r.conditions[k].clause.name) :: |r.conditions[k].clause.args| > 0
  }

  /**
   * The search never raises: from a resolved environment (the empty one, say) unification
   * fails only with 'unification failed', member conditions have a first argument, and an
   * aggregate rule has its aggregate map.
   */
  lemma SearchSucceeds(st: EvalState, rule: Rule, k: nat, env: Env)
    requires k <= |rule.conditions| && Fits(st, rule.head) && Resolved(env)
    requires MemberArgsPresent(rule) && (RuleHasAggregates(rule) ==> st.groups.Some?)
    ensures FindNewFacts(st, rule, k, env).Success?
    decreases |rule.conditions| - k, 1, 0
  {
    if k < |rule.conditions| {
      var cond := RewriteCondition(rule.conditions[k], env);
      var cands := Candidates(st.store, cond.clause).value;
      if cond.Pos? {
        TryEachSucceeds(st, rule, k + 1, env, cond.clause, cands, 0, false);
      } else if !AnyUnifies(cond.clause, cands, env) {
        SearchSucceeds(st, rule, k + 1, env);
      }
    }
  }

  lemma TryEachSucceeds(st: EvalState, rule: Rule, next: nat, env: Env, cond: Clause, cands: seq<Clause>, i: nat, found: bool)
    requires 0 < next <= |rule.conditions| && i <= |cands| && Fits(st, rule.head) && Resolved(env)
    requires MemberArgsPresent(rule) && (RuleHasAggregates(rule) ==> st.groups.Some?)
    ensures TryEach(st, rule, next, env, cond, cands, i, found).Success?
    decreases |rule.conditions| - next + 1, 0, |cands| - i
  {
    if i < |cands| {
      UnifyClausesSound(cond, cands[i], env);
      match UnifyClauses(cond, cands[i], env)
      case Failure(_) =>
        TryEachSucceeds(st, rule, next, env, cond, cands, i + 1, found);
      case Success(env') =>
        SearchSucceeds(st, rule, next, env');
        var (st', f) := FindNewFacts(st, rule, next, env').value;
        TryEachSucceeds(st', rule, next, env, cond, cands, i + 1, found || f);
    }
  }

  lemma {:induction false} RoundSucceeds(st: EvalState, rules: seq<Rule>, i: nat, found: bool)
    requires i <= |rules| && st.groups.None?
    requires forall j | 0 <= j < |rules| :: MemberArgsPresent(rules[j]) && !RuleHasAggregates(rules[j])
    ensures Round(st, rules, i, found).Success?
    decreases |rules| - i
  {
    if i < |rules| {
      SearchSucceeds(st, rules[i], 0, map[]);
      var (st', f) := FindNewFacts(st, rules[i], 0, map[]).value;
      RoundSucceeds(st', rules, i + 1, found || f);
    }
  }

  /**
   * A stratum the engine can evaluate: it has a rule, and either its first rule is an
   * aggregate rule alone in the stratum or none of its rules has aggregates.
   */
  predicate Evaluable(s: RuleStratum) {
    && |s.rules| > 0
    && (RuleHasAggregates(s.rules[0]) ==> |s.rules| == 1)
    && (!RuleHasAggregates(s.rules[0]) ==> forall j | 0 <= j < |s.rules| :: !RuleHasAggregates(s.rules[j]))
  }

  lemma {:induction false} EvalStrataSucceeds(ss: seq<RuleStratum>, i: nat, store: Store, fuel: nat)
    requires i <= |ss|
    requires forall m | 0 <= m < |ss| :: Evaluable(ss[m])
    requires forall m, j | 0 <= m < |ss| && 0 <= j < |ss[m].rules| :: MemberArgsPresent(ss[m].rules[j])
    ensures EvalStrata(ss, i, store, fuel).Success?
    decreases |ss| - i
  {
    if i < |ss| {
      if RuleHasAggregates(ss[i].rules[0]) {
        SearchSucceeds(EvalState(store, Some(Groups([], map[])), []), ss[i].rules[0], 0, map[]);
        EvalStrataSucceeds(ss, i + 1, EvaluateAggregateRule(store, ss[i].rules[0]).value, fuel);
      } else {
        assert PlainRules(ss[i].rules);
        var (store', keepGoing) := EvaluateStratum(store, ss[i].rules, fuel).value;
        if keepGoing {
          EvalStrataSucceeds(ss, i + 1, store', fuel);
        }
      }
    }
  }

  /** Mangling keeps the names and arities of conditions. */
  lemma MangleKeepsMemberArgs(r: Rule, m: nat)
    requires MemberArgsPresent(r)
    ensures MemberArgsPresent(MangleRule(r, m))
  {
    var s := MangleRule(r, m);
    forall k | 0 <= k < |s.conditions| && IsBuiltin(s.conditions[k].clause.name)
      ensures |s.conditions[k].clause.args| > 0
    {
      assert s.conditions[k] == MangleCondition(r.conditions[k], m);
    }
  }

  /**
   * Evaluation raises nothing but validation errors: when every member condition has a
   * first argument and every stratum is evaluable, a program evaluates exactly when it
   * is valid.
   */
  lemma EvalFailsOnlyWhenInvalid(rules: seq<Rule>, uses: (Condition, Clause) -> bool, fuel: nat)
    requires forall j | 0 <= j < |rules| :: MemberArgsPresent(rules[j])
    requires forall m | 0 <= m < |StrataOf(rules, uses)| :: Evaluable(StrataOf(rules, uses)[m])
    ensures Eval(rules, uses, fuel).Success? <==> EnsureProgramIsValid(StrataOf(rules, uses)).Success?
  {
    var ss := StrataOf(rules, uses);
    var mangled := MangleRules(rules);
    forall m, j | 0 <= m < |ss| && 0 <= j < |ss[m].rules| ensures MemberArgsPresent(ss[m].rules[j]) {
      assert ss[m].rules[j] in ss[m].rules;
      PlacedRuleIsRule(ss, mangled, m, ss[m].rules[j]);
      var i :| 0 <= i < |mangled| && mangled[i] == ss[m].rules[j];
      MangleKeepsMemberArgs(rules[i], i);
    }
    if EnsureProgramIsValid(ss).Success? {
      EvalStrataSucceeds(ss, 0, [], fuel);
    }
  }
}
