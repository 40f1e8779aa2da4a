/**
 * What the search of `findNewFacts` finds. A rule's conditions are satisfied by an
 * environment when each positive condition, rewritten through the environment built so
 * far, unifies with a candidate fact and each negated condition unifies with none. The
 * search adds exactly the heads of such environments: every fact it adds is one
 * (soundness), and every one is added (completeness).
 */
module Derivations {
  import opened Wrappers
  import opened Terms
  import opened Unification
  import opened Facts
  import opened Evaluation

  /** Every fact of `a` is a fact of `b`. */
  ghost predicate Within(a: Store, b: Store) {
    forall f | f in a :: f in b
  }

  /**
   * `env'` completes the conditions of `rule` from the `k`-th on, starting at `env`. A
   * positive condition, rewritten through the environment so far, unifies with one of its
   * candidates drawn from `hi`, and the environment moves on to the result; a negated
   * condition unifies with none of its candidates drawn from `lo`. A `member` condition
   * draws its candidates from its own list, whatever the store.
   */
  ghost predicate Derives(rule: Rule, k: nat, env: Env, env': Env, lo: Store, hi: Store)
    decreases |rule.conditions| - k
  {
    if k >= |rule.conditions| then env' == env
    else
      var cond := RewriteCondition(rule.conditions[k], env);
      if cond.Pos? then
        && Candidates(hi, cond.clause).Success?
        && exists f | f in Candidates(hi, cond.clause).value ::
             && UnifyClauses(cond.clause, f, env).Success?
             && Derives(rule, k + 1, UnifyClauses(cond.clause, f, env).value, env', lo, hi)
      else
        && Candidates(lo, cond.clause).Success?
        && !AnyUnifies(cond.clause, Candidates(lo, cond.clause).value, env)
        && Derives(rule, k + 1, env, env', lo, hi)
  }

  /** `f` is the head of `rule` rewritten through an environment that completes its conditions from the `k`-th on. */
  ghost predicate HeadFrom(rule: Rule, k: nat, env: Env, f: Clause, lo: Store, hi: Store) {
    exists env' :: Derives(rule, k, env, env', lo, hi) && RewriteClause(rule.head, env') == f
  }

  /**
   * Every fact a search added to the store, or handed to the aggregate map, is such a
   * head, with positive conditions met by the facts after the search and negated ones
   * by the facts before it.
   */
  ghost predicate Sound(st: EvalState, st': EvalState, rule: Rule, k: nat, env: Env) {
    && (forall f | f in st'.store && f !in st.store :: HeadFrom(rule, k, env, f, st.store, st'.store))
    && (forall j | |st.recorded| <= j < |st'.recorded| :: HeadFrom(rule, k, env, st'.recorded[j], st.store, st'.store))
  }

  /** `f` is a head reached through some candidate of `cands` that unifies with `cond`, the search going on at condition `next`. */
  ghost predicate StepFrom(rule: Rule, next: nat, env: Env, cond: Clause, cands: seq<Clause>, f: Clause, lo: Store, hi: Store) {
    exists x | x in cands ::
      && UnifyClauses(cond, x, env).Success?
      && HeadFrom(rule, next, UnifyClauses(cond, x, env).value, f, lo, hi)
  }

  /** What the loop over the candidates of a positive condition added is reached through some candidate. */
  ghost predicate SoundStep(st: EvalState, st': EvalState, rule: Rule, next: nat, env: Env, cond: Clause, cands: seq<Clause>) {
    && (forall f | f in st'.store && f !in st.store :: StepFrom(rule, next, env, cond, cands, f, st.store, st'.store))
    && (forall j | |st.recorded| <= j < |st'.recorded| :: StepFrom(rule, next, env, cond, cands, st'.recorded[j], st.store, st'.store))
  }

  // ---------------------------------------------------------------------------
  // More facts for the positive conditions, fewer for the negated ones
  // ---------------------------------------------------------------------------

  lemma KeepsWithin(st: EvalState, st': EvalState, rule: Rule)
    requires Keeps(st, st', rule)
    ensures Within(st.store, st'.store)
  {
  }

  /** A candidate drawn from a store is still one when drawn from a larger store. */
  lemma CandidatesWiden(a: Store, b: Store, c: Clause, f: Clause)
    requires Within(a, b) && Candidates(a, c).Success? && f in Candidates(a, c).value
    ensures Candidates(b, c).Success? && f in Candidates(b, c).value
  {
  }

  /** When no candidate drawn from a store unifies, none drawn from a smaller store does. */
  lemma NoneUnifiesNarrow(a: Store, b: Store, c: Clause, env: Env)
    requires Within(a, b) && Candidates(b, c).Success? && !AnyUnifies(c, Candidates(b, c).value, env)
    ensures Candidates(a, c).Success? && !AnyUnifies(c, Candidates(a, c).value, env)
  {
    var cands := Candidates(a, c).value;
    forall i | 0 <= i < |cands| ensures !UnifyClauses(c, cands[i], env).Success? {
      CandidatesWiden(a, b, c, cands[i]);
    }
  }

  /** A derivation stays one with more facts for its positive conditions and fewer for its negated ones. */
  lemma {:induction false} DerivesWiden(rule: Rule, k: nat, env: Env, env': Env, lo: Store, hi: Store, lo': Store, hi': Store)
    requires Within(lo', lo) && Within(hi, hi')
    ensures Derives(rule, k, env, env', lo, hi) ==> Derives(rule, k, env, env', lo', hi')
    decreases |rule.conditions| - k
  {
    if k < |rule.conditions| && Derives(rule, k, env, env', lo, hi) {
      var cond := RewriteCondition(rule.conditions[k], env);
      var c := cond.clause;
      if cond.Pos? {
        var f :| f in Candidates(hi, c).value && UnifyClauses(c, f, env).Success?
          && Derives(rule, k + 1, UnifyClauses(c, f, env).value, env', lo, hi);
        DerivesWiden(rule, k + 1, UnifyClauses(c, f, env).value, env', lo, hi, lo', hi');
        CandidatesWiden(hi, hi', c, f);
      } else {
        DerivesWiden(rule, k + 1, env, env', lo, hi, lo', hi');
        NoneUnifiesNarrow(lo', lo, c, env);
      }
    }
  }

  lemma HeadFromWiden(rule: Rule, k: nat, env: Env, f: Clause, lo: Store, hi: Store, lo': Store, hi': Store)
    requires Within(lo', lo) && Within(hi, hi')
    ensures HeadFrom(rule, k, env, f, lo, hi) ==> HeadFrom(rule, k, env, f, lo', hi')
  {
    if HeadFrom(rule, k, env, f, lo, hi) {
      var env' :| Derives(rule, k, env, env', lo, hi) && RewriteClause(rule.head, env') == f;
      DerivesWiden(rule, k, env, env', lo, hi, lo', hi');
    }
  }

  lemma StepFromWiden(rule: Rule, next: nat, env: Env, cond: Clause, cands: seq<Clause>, f: Clause, lo: Store, hi: Store, lo': Store, hi': Store)
    requires Within(lo', lo) && Within(hi, hi')
    ensures StepFrom(rule, next, env, cond, cands, f, lo, hi) ==> StepFrom(rule, next, env, cond, cands, f, lo', hi')
  {
    if StepFrom(rule, next, env, cond, cands, f, lo, hi) {
      var x :| x in cands && UnifyClauses(cond, x, env).Success?
        && HeadFrom(rule, next, UnifyClauses(cond, x, env).value, f, lo, hi);
      HeadFromWiden(rule, next, UnifyClauses(cond, x, env).value, f, lo, hi, lo', hi');
    }
  }

  // ---------------------------------------------------------------------------
  // Soundness
  // ---------------------------------------------------------------------------

  /** A head reached through a candidate of a positive condition completes the conditions from that condition on. */
  lemma PositiveHead(rule: Rule, k: nat, env: Env, f: Clause, lo: Store, hi: Store)
    requires k < |rule.conditions| && RewriteCondition(rule.conditions[k], env).Pos?
    requires Candidates(lo, RewriteCondition(rule.conditions[k], env).clause).Success? && Within(lo, hi)
    requires StepFrom(rule, k + 1, env, RewriteCondition(rule.conditions[k], env).clause,
                      Candidates(lo, RewriteCondition(rule.conditions[k], env).clause).value, f, lo, hi)
    ensures HeadFrom(rule, k, env, f, lo, hi)
  {
    var c := RewriteCondition(rule.conditions[k], env).clause;
    var x :| x in Candidates(lo, c).value && UnifyClauses(c, x, env).Success?
      && HeadFrom(rule, k + 1, UnifyClauses(c, x, env).value, f, lo, hi);
    var env' :| Derives(rule, k + 1, UnifyClauses(c, x, env).value, env', lo, hi) && RewriteClause(rule.head, env') == f;
    CandidatesWiden(lo, hi, c, x);
    assert Derives(rule, k, env, env', lo, hi);
  }

  /** A head reached past a negated condition that nothing unifies with completes the conditions from that condition on. */
  lemma NegatedHead(rule: Rule, k: nat, env: Env, f: Clause, lo: Store, hi: Store)
    requires k < |rule.conditions| && RewriteCondition(rule.conditions[k], env).Neg?
    requires Candidates(lo, RewriteCondition(rule.conditions[k], env).clause).Success?
    requires !AnyUnifies(RewriteCondition(rule.conditions[k], env).clause,
                         Candidates(lo, RewriteCondition(rule.conditions[k], env).clause).value, env)
    requires HeadFrom(rule, k + 1, env, f, lo, hi)
    ensures HeadFrom(rule, k, env, f, lo, hi)
  {
    var env' :| Derives(rule, k + 1, env, env', lo, hi) && RewriteClause(rule.head, env') == f;
    assert Derives(rule, k, env, env', lo, hi);
  }

  /**
   * Soundness of `findNewFacts`: every fact it adds to the store, and every fact it hands
   * to the aggregate map, is the head rewritten through an environment that completes the
   * conditions from the `k`-th on, positive conditions met by the facts after the search
   * and negated ones by the facts before it.
   */
  lemma {:induction false} FindNewFactsSound(st: EvalState, rule: Rule, k: nat, env: Env)
    requires k <= |rule.conditions| && Fits(st, rule.head)
    ensures FindNewFacts(st, rule, k, env).Success? ==> Sound(st, FindNewFacts(st, rule, k, env).value.0, rule, k, env)
    decreases |rule.conditions| - k, 1, 0
  {
    var r := FindNewFacts(st, rule, k, env);
    if r.Success? {
      var st' := r.value.0;
      KeepsWithin(st, st', rule);
      if k == |rule.conditions| {
        assert Derives(rule, k, env, env, st.store, st'.store);
        var fact := RewriteClause(rule.head, env);
        assert HeadFrom(rule, k, env, fact, st.store, st'.store);
        if RuleHasAggregates(rule) {
          assert st'.recorded == st.recorded + [fact];
        }
      } else {
        var cond := RewriteCondition(rule.conditions[k], env);
        var cands := Candidates(st.store, cond.clause).value;
        if cond.Pos? {
          TryEachSound(st, rule, k + 1, env, cond.clause, cands, 0, false);
          forall f | f in st'.store && f !in st.store ensures HeadFrom(rule, k, env, f, st.store, st'.store) {
            PositiveHead(rule, k, env, f, st.store, st'.store);
          }
          forall j | |st.recorded| <= j < |st'.recorded| ensures HeadFrom(rule, k, env, st'.recorded[j], st.store, st'.store) {
            PositiveHead(rule, k, env, st'.recorded[j], st.store, st'.store);
          }
        } else if !AnyUnifies(cond.clause, cands, env) {
          FindNewFactsSound(st, rule, k + 1, env);
          forall f | f in st'.store && f !in st.store ensures HeadFrom(rule, k, env, f, st.store, st'.store) {
            NegatedHead(rule, k, env, f, st.store, st'.store);
          }
          forall j | |st.recorded| <= j < |st'.recorded| ensures HeadFrom(rule, k, env, st'.recorded[j], st.store, st'.store) {
            NegatedHead(rule, k, env, st'.recorded[j], st.store, st'.store);
          }
        }
      }
    }
  }

  /** Soundness of the loop over the candidates of a positive condition. */
  lemma {:induction false} TryEachSound(st: EvalState, rule: Rule, next: nat, env: Env, cond: Clause, cands: seq<Clause>, i: nat, found: bool)
    requires 0 < next <= |rule.conditions| && i <= |cands| && Fits(st, rule.head)
    ensures TryEach(st, rule, next, env, cond, cands, i, found).Success? ==>
      SoundStep(st, TryEach(st, rule, next, env, cond, cands, i, found).value.0, rule, next, env, cond, cands)
    decreases |rule.conditions| - next + 1, 0, |cands| - i
  {
    var r := TryEach(st, rule, next, env, cond, cands, i, found);
    if r.Success? && i < |cands| {
      match UnifyClauses(cond, cands[i], env)
      case Failure(_) =>
        TryEachSound(st, rule, next, env, cond, cands, i + 1, found);
      case Success(e) =>
        var (st1, f1) := FindNewFacts(st, rule, next, e).value;
        FindNewFactsSound(st, rule, next, e);
        TryEachSound(st1, rule, next, env, cond, cands, i + 1, found || f1);
        var st' := r.value.0;
        KeepsWithin(st, st1, rule);
        KeepsWithin(st1, st', rule);
        forall f | f in st'.store && f !in st.store ensures StepFrom(rule, next, env, cond, cands, f, st.store, st'.store) {
          if f in st1.store {
            HeadFromWiden(rule, next, e, f, st.store, st1.store, st.store, st'.store);
          } else {
            StepFromWiden(rule, next, env, cond, cands, f, st1.store, st'.store, st.store, st'.store);
          }
        }
        forall j | |st.recorded| <= j < |st'.recorded| ensures StepFrom(rule, next, env, cond, cands, st'.recorded[j], st.store, st'.store) {
          if j < |st1.recorded| {
            assert st'.recorded[j] == st1.recorded[j];
            HeadFromWiden(rule, next, e, st1.recorded[j], st.store, st1.store, st.store, st'.store);
          } else {
            StepFromWiden(rule, next, env, cond, cands, st'.recorded[j], st1.store, st'.store, st.store, st'.store);
          }
        }
    }
  }

  /**
   * Every fact of `b` that is not in `a` is the head of one of the rules from the `i`-th
   * on, rewritten through an environment that completes that rule's conditions, positive
   * ones met by the facts of `b` and negated ones by the facts of `a`.
   */
  ghost predicate Derived(rules: seq<Rule>, i: nat, a: Store, b: Store) {
    forall f | f in b && f !in a :: exists j | i <= j < |rules| :: HeadFrom(rules[j], 0, map[], f, a, b)
  }

  lemma PrefixWithin(a: Store, b: Store)
    requires a <= b
    ensures Within(a, b)
  {
    forall f | f in a ensures f in b {
      var j :| 0 <= j < |a| && a[j] == f;
      assert b[j] == f;
    }
  }

  /**
   * Soundness of a pass over a stratum: every fact it adds is the head of one of the
   * rules from the `i`-th on, rewritten through an environment that completes that
   * rule's conditions, positive ones met by the facts after the pass and negated ones by
   * the facts before it.
   */
  lemma {:induction false} RoundSound(st: EvalState, rules: seq<Rule>, i: nat, found: bool)
    requires i <= |rules| && st.groups.None?
    ensures Round(st, rules, i, found).Success? ==> Derived(rules, i, st.store, Round(st, rules, i, found).value.0.store)
    decreases |rules| - i
  {
    var r := Round(st, rules, i, found);
    if r.Success? && i < |rules| {
      var (st1, f1) := FindNewFacts(st, rules[i], 0, map[]).value;
      FindNewFactsSound(st, rules[i], 0, map[]);
      RoundSound(st1, rules, i + 1, found || f1);
      var st' := r.value.0;
      KeepsWithin(st, st1, rules[i]);
      forall f | f in st'.store && f !in st.store
        ensures exists j | i <= j < |rules| :: HeadFrom(rules[j], 0, map[], f, st.store, st'.store)
      {
        if f in st1.store {
          HeadFromWiden(rules[i], 0, map[], f, st.store, st1.store, st.store, st'.store);
        } else {
          var j :| i + 1 <= j < |rules| && HeadFrom(rules[j], 0, map[], f, st1.store, st'.store);
          HeadFromWiden(rules[j], 0, map[], f, st1.store, st'.store, st.store, st'.store);
        }
      }
    }
  }

  /**
   * Soundness of `evaluateStratum`: every fact it adds is the head of one of the
   * stratum's rules, rewritten through an environment whose positive conditions unify
   * with facts known at the end and whose negated conditions unify with no fact known at
   * the start.
   */
  lemma EvaluateStratumSound(store: Store, rules: seq<Rule>, fuel: nat)
    ensures EvaluateStratum(store, rules, fuel).Success? ==> Derived(rules, 0, store, EvaluateStratum(store, rules, fuel).value.0)
  {
    var r := EvaluateStratum(store, rules, fuel);
    if r.Success? {
      forall f | f in r.value.0 && f !in store ensures exists j | 0 <= j < |rules| :: HeadFrom(rules[j], 0, map[], f, store, r.value.0) {
        var j := StratumDerives(store, rules, fuel, f);
      }
    }
  }

  /** The same, one fact at a time: the rule `j` whose head it is. */
  lemma {:induction false} StratumDerives(store: Store, rules: seq<Rule>, fuel: nat, f: Clause) returns (j: nat)
    ensures var r := EvaluateStratum(store, rules, fuel);
      r.Success? && f in r.value.0 && f !in store ==> j < |rules| && HeadFrom(rules[j], 0, map[], f, store, r.value.0)
    decreases fuel
  {
    j := 0;
    var r := EvaluateStratum(store, rules, fuel);
    if r.Success? && fuel > 0 && f in r.value.0 && f !in store {
      var st := EvalState(store, None, []);
      var (st1, found) := Round(st, rules, 0, false).value;
      if found {
        var r' := EvaluateStratum(st1.store, rules, fuel - 1);
        assert r == r';
        if f in st1.store {
          RoundSound(st, rules, 0, false);
          PrefixWithin(st1.store, r.value.0);
          j :| 0 <= j < |rules| && HeadFrom(rules[j], 0, map[], f, store, st1.store);
          HeadFromWiden(rules[j], 0, map[], f, store, st1.store, store, r.value.0);
        } else {
          j := StratumDerives(st1.store, rules, fuel - 1, f);
          PrefixWithin(store, st1.store);
          HeadFromWiden(rules[j], 0, map[], f, st1.store, r'.value.0, store, r'.value.0);
        }
      }
    }
  }

  /**
   * Soundness of the search of an aggregate rule: every fact handed to the aggregate map
   * is the head rewritten through an environment that completes the rule's conditions
   * against the known facts.
   */
  lemma AggregateSearchSound(store: Store, rule: Rule)
    ensures AggregateSearch(store, rule).Success? ==>
      forall j | 0 <= j < |AggregateSearch(store, rule).value.0.recorded| ::
        HeadFrom(rule, 0, map[], AggregateSearch(store, rule).value.0.recorded[j], store, store)
  {
    var st := EvalState(store, Some(Groups([], map[])), []);
    FindNewFactsSound(st, rule, 0, map[]);
  }

  // ---------------------------------------------------------------------------
  // Completeness
  // ---------------------------------------------------------------------------

  /** Where a search puts the head it finds: the store for a plain rule, the aggregate map's facts for an aggregate rule. */
  ghost predicate Has(st: EvalState, rule: Rule, f: Clause) {
    if RuleHasAggregates(rule) then f in st.recorded else f in st.store
  }

  lemma HasKept(st: EvalState, st': EvalState, rule: Rule, f: Clause)
    requires Keeps(st, st', rule) && Has(st, rule, f)
    ensures Has(st', rule, f)
  {
  }

  /** Recording the head puts it where `Has` looks, and an aggregate rule's head is recorded only with the aggregate map. */
  lemma RecordHas(st: EvalState, rule: Rule, env: Env)
    requires Fits(st, rule.head)
    ensures RecordNewFact(st, rule, env).Success? ==>
      Has(RecordNewFact(st, rule, env).value.0, rule, RewriteClause(rule.head, env)) && (RuleHasAggregates(rule) ==> st.groups.Some?)
  {
    if RuleHasAggregates(rule) && st.groups.Some? {
      var fact := RewriteClause(rule.head, env);
      assert RecordNewFact(st, rule, env).value.0.recorded[|st.recorded|] == fact;
    }
  }

  /**
   * Completeness of `findNewFacts`: the head is recorded for every environment that
   * completes the conditions from the `k`-th on, positive conditions met by the facts
   * before the search and negated ones by the facts after it. Recording an aggregate
   * rule's head needs the aggregate map.
   */
  lemma {:induction false} FindNewFactsComplete(st: EvalState, rule: Rule, k: nat, env: Env, env': Env)
    requires k <= |rule.conditions| && Fits(st, rule.head)
    ensures var r := FindNewFacts(st, rule, k, env);
      r.Success? && Derives(rule, k, env, env', r.value.0.store, st.store) ==>
        Has(r.value.0, rule, RewriteClause(rule.head, env')) && (RuleHasAggregates(rule) ==> st.groups.Some?)
    decreases |rule.conditions| - k, 2, 0, 0
  {
    if k == |rule.conditions| {
      RecordHas(st, rule, env);
    } else if RewriteCondition(rule.conditions[k], env).Pos? {
      PositiveComplete(st, rule, k, env, env');
    } else {
      NegatedComplete(st, rule, k, env, env');
    }
  }

  /** The same at a positive condition: the derivation picks a candidate, and the loop over the candidates reaches it. */
  lemma {:induction false} PositiveComplete(st: EvalState, rule: Rule, k: nat, env: Env, env': Env)
    requires k < |rule.conditions| && Fits(st, rule.head) && RewriteCondition(rule.conditions[k], env).Pos?
    ensures var r := FindNewFacts(st, rule, k, env);
      r.Success? && Derives(rule, k, env, env', r.value.0.store, st.store) ==>
        Has(r.value.0, rule, RewriteClause(rule.head, env')) && (RuleHasAggregates(rule) ==> st.groups.Some?)
    decreases |rule.conditions| - k, 1, 0, 0
  {
    var r := FindNewFacts(st, rule, k, env);
    if r.Success? && Derives(rule, k, env, env', r.value.0.store, st.store) {
      var c := RewriteCondition(rule.conditions[k], env).clause;
      var cands := Candidates(st.store, c).value;
      assert r == TryEach(st, rule, k + 1, env, c, cands, 0, false);
      var x :| x in cands && UnifyClauses(c, x, env).Success?
        && Derives(rule, k + 1, UnifyClauses(c, x, env).value, env', r.value.0.store, st.store);
      var p :| 0 <= p < |cands| && cands[p] == x;
      TryEachComplete(st, rule, k + 1, env, c, cands, 0, false, p, env');
    }
  }

  /** The same at a negated condition: nothing unified with it after the search, so nothing did before it. */
  lemma {:induction false} NegatedComplete(st: EvalState, rule: Rule, k: nat, env: Env, env': Env)
    requires k < |rule.conditions| && Fits(st, rule.head) && RewriteCondition(rule.conditions[k], env).Neg?
    ensures var r := FindNewFacts(st, rule, k, env);
      r.Success? && Derives(rule, k, env, env', r.value.0.store, st.store) ==>
        Has(r.value.0, rule, RewriteClause(rule.head, env')) && (RuleHasAggregates(rule) ==> st.groups.Some?)
    decreases |rule.conditions| - k, 1, 0, 0
  {
    var r := FindNewFacts(st, rule, k, env);
    if r.Success? && Derives(rule, k, env, env', r.value.0.store, st.store) {
      var c := RewriteCondition(rule.conditions[k], env).clause;
      KeepsWithin(st, r.value.0, rule);
      NoneUnifiesNarrow(st.store, r.value.0.store, c, env);
      assert r == FindNewFacts(st, rule, k + 1, env);
      FindNewFactsComplete(st, rule, k + 1, env, env');
    }
  }

  /**
   * Completeness of the loop over the candidates of a positive condition: the head is
   * recorded for the `p`-th candidate, from the `i`-th on.
   */
  lemma {:induction false} TryEachComplete(st: EvalState, rule: Rule, next: nat, env: Env, cond: Clause, cands: seq<Clause>,
                                           i: nat, found: bool, p: nat, env': Env)
    requires 0 < next <= |rule.conditions| && i <= p < |cands| && Fits(st, rule.head)
    ensures var r := TryEach(st, rule, next, env, cond, cands, i, found);
      r.Success? && UnifyClauses(cond, cands[p], env).Success? &&
      Derives(rule, next, UnifyClauses(cond, cands[p], env).value, env', r.value.0.store, st.store) ==>
        Has(r.value.0, rule, RewriteClause(rule.head, env')) && (RuleHasAggregates(rule) ==> st.groups.Some?)
    decreases |rule.conditions| - next + 1, 0, |cands| - i, 1
  {
    if UnifyClauses(cond, cands[i], env).Failure? {
      if p > i {
        TryEachComplete(st, rule, next, env, cond, cands, i + 1, found, p, env');
      }
    } else {
      TryEachHit(st, rule, next, env, cond, cands, i, found, p, env');
    }
  }

  /** The step of that loop at a candidate that unifies: its own search, then the rest of the loop. */
  lemma {:induction false} TryEachHit(st: EvalState, rule: Rule, next: nat, env: Env, cond: Clause, cands: seq<Clause>,
                                      i: nat, found: bool, p: nat, env': Env)
    requires 0 < next <= |rule.conditions| && i <= p < |cands| && Fits(st, rule.head)
    requires UnifyClauses(cond, cands[i], env).Success?
    ensures var r := TryEach(st, rule, next, env, cond, cands, i, found);
      r.Success? && UnifyClauses(cond, cands[p], env).Success? &&
      Derives(rule, next, UnifyClauses(cond, cands[p], env).value, env', r.value.0.store, st.store) ==>
        Has(r.value.0, rule, RewriteClause(rule.head, env')) && (RuleHasAggregates(rule) ==> st.groups.Some?)
    decreases |rule.conditions| - next + 1, 0, |cands| - i, 0
  {
    var r := TryEach(st, rule, next, env, cond, cands, i, found);
    var e1 := UnifyClauses(cond, cands[i], env).value;
    var r1 := FindNewFacts(st, rule, next, e1);
    if r.Success? && r1.Success? && UnifyClauses(cond, cands[p], env).Success? {
      var e := UnifyClauses(cond, cands[p], env).value;
      var out := r.value.0;
      var st1 := r1.value.0;
      assert TryEach(st1, rule, next, env, cond, cands, i + 1, found || r1.value.1) == r;
      KeepsWithin(st, st1, rule);
      KeepsWithin(st1, out, rule);
      if Derives(rule, next, e, env', out.store, st.store) {
        if p == i {
          DerivesWiden(rule, next, e, env', out.store, st.store, st1.store, st.store);
          FindNewFactsComplete(st, rule, next, e, env');
          HasKept(st1, out, rule, RewriteClause(rule.head, env'));
        } else {
          DerivesWiden(rule, next, e, env', out.store, st.store, out.store, st1.store);
          TryEachComplete(st1, rule, next, env, cond, cands, i + 1, found || r1.value.1, p, env');
        }
      }
    }
  }

  /**
   * Completeness of a pass over a stratum: for every rule from the `i`-th on, the head is
   * known after the pass for every environment that completes the rule's conditions,
   * positive ones met by the facts before the pass and negated ones by the facts after it.
   */
  lemma {:induction false} RoundComplete(st: EvalState, rules: seq<Rule>, i: nat, found: bool, j: nat, env': Env)
    requires i <= j < |rules| && st.groups.None?
    requires Round(st, rules, i, found).Success?
    requires Derives(rules[j], 0, map[], env', Round(st, rules, i, found).value.0.store, st.store)
    ensures RewriteClause(rules[j].head, env') in Round(st, rules, i, found).value.0.store
    decreases |rules| - i
  {
    var st' := Round(st, rules, i, found).value.0;
    var (st1, f1) := FindNewFacts(st, rules[i], 0, map[]).value;
    KeepsWithin(st, st1, rules[i]);
    if j == i {
      DerivesWiden(rules[i], 0, map[], env', st'.store, st.store, st1.store, st.store);
      FindNewFactsComplete(st, rules[i], 0, map[], env');
    } else {
      DerivesWiden(rules[j], 0, map[], env', st'.store, st.store, st'.store, st1.store);
      RoundComplete(st1, rules, i + 1, found || f1, j, env');
    }
  }

  /**
   * When `evaluateStratum` finishes, its facts are closed under the stratum's rules: the
   * head of every rule, rewritten through an environment whose positive conditions unify
   * with known facts and whose negated conditions unify with none, is a known fact.
   */
  lemma EvaluateStratumCloses(store: Store, rules: seq<Rule>, fuel: nat, j: nat, env': Env)
    requires EvaluateStratum(store, rules, fuel).Success? && EvaluateStratum(store, rules, fuel).value.1
    requires j < |rules|
    requires Derives(rules[j], 0, map[], env', EvaluateStratum(store, rules, fuel).value.0, EvaluateStratum(store, rules, fuel).value.0)
    ensures RewriteClause(rules[j].head, env') in EvaluateStratum(store, rules, fuel).value.0
  {
    var last := EvaluateStratum(store, rules, fuel).value.0;
    RoundComplete(EvalState(last, None, []), rules, 0, false, j, env');
  }

  /**
   * Completeness of the search of an aggregate rule: the head is handed to the aggregate
   * map for every environment that completes the rule's conditions against the known facts.
   */
  lemma AggregateSearchComplete(store: Store, rule: Rule, env': Env)
    requires RuleHasAggregates(rule) && AggregateSearch(store, rule).Success?
    requires Derives(rule, 0, map[], env', store, store)
    ensures RewriteClause(rule.head, env') in AggregateSearch(store, rule).value.0.recorded
  {
    var st := EvalState(store, Some(Groups([], map[])), []);
    FindNewFactsComplete(st, rule, 0, map[], env');
  }
}
