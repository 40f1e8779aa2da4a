/**
 * `ensureProgramIsValid`: the checks made on every rule of every stratum before evaluation.
 * Errors are collected in stratum and rule order; any error rejects the program.
 */
module Validation {
  import opened Wrappers
  import opened Literals
  import opened Terms
  import opened Names
  import opened Builtins
  import opened Graphs
  import opened Program

  datatype ValidationError =
    | HeadWildcard(rule: string)
    | UnboundHeadVars(rule: string, vars: seq<string>)
    | NegatedInSameStratum(rule: string, refs: seq<string>)
    | AggregateInSameStratum(rule: string, refs: seq<string>)

  /** The message the engine prints for an error. */
  function Message(e: ValidationError): string {
    match e
    case HeadWildcard(r) => "the head of " + r + " has one or more wildcards"
    case UnboundHeadVars(r, vs) => r + " has unbound head vars: " + Join(vs)
    case NegatedInSameStratum(r, refs) => r + " has negated subgoals in same stratum: " + Join(refs)
    case AggregateInSameStratum(r, refs) => "aggregate rule " + r + " has subgoals in same stratum: " + Join(refs)
  }

  // ---------------------------------------------------------------------------
  // checkHeadVarsAreBound
  // ---------------------------------------------------------------------------

  /**
   * `a.name` for a condition argument: a variable's name, an aggregate's function name,
   * and `undefined` (printed as a key) for values and wildcards.
   */
  function NameOf(t: Term): string {
    match t
    case Var(n) => n
    case Agg(k, _) => KindName(k)
    case _ => "undefined"
  }

  /** The variable an argument of the head names, looking through one aggregate. */
  function HeadVar(t: Term): Option<string> {
    var a := if t.Agg? then t.term else t;
    if a.Var? then Some(a.name) else None
  }

  /** The names of the variables of the head, in order of first occurrence. */
  function HeadVars(args: seq<Term>, acc: seq<string>): (r: seq<string>)
    ensures forall n :: n in r <==> n in acc || exists i | 0 <= i < |args| :: HeadVar(args[i]) == Some(n)
    ensures Distinct(acc) ==> Distinct(r)
    decreases |args|
  {
    if args == [] then acc
    else
      var acc' := if HeadVar(args[0]).Some? && HeadVar(args[0]).value !in acc then acc + [HeadVar(args[0]).value] else acc;
      assert forall n :: (exists i | 0 <= i < |args| :: HeadVar(args[i]) == Some(n)) <==>
        HeadVar(args[0]) == Some(n) || exists i | 0 <= i < |args[1..]| :: HeadVar(args[1..][i]) == Some(n) by {
        forall n | exists i | 0 <= i < |args| :: HeadVar(args[i]) == Some(n)
          ensures HeadVar(args[0]) == Some(n) || exists i | 0 <= i < |args[1..]| :: HeadVar(args[1..][i]) == Some(n)
        {
          var i :| 0 <= i < |args| && HeadVar(args[i]) == Some(n);
          if i > 0 {
            assert HeadVar(args[1..][i - 1]) == Some(n);
          }
        }
      }
      HeadVars(args[1..], acc')
  }

  /** The names a positive condition marks as bound: all its arguments but a member rule's first. */
  ghost predicate MarksBound(c: Condition, n: string) {
    c.Pos? &&
    exists i | (if IsMember(c.clause.name) then 1 else 0) <= i < |c.clause.args| :: NameOf(c.clause.args[i]) == n
  }

  function ConditionMarks(c: Condition): (r: set<string>)
    ensures forall n :: n in r <==> MarksBound(c, n)
  {
    if c.Neg? then {}
    else
      var start := if IsMember(c.clause.name) then 1 else 0;
      set i | start <= i < |c.clause.args| :: NameOf(c.clause.args[i])
  }

  function BoundNames(conds: seq<Condition>): (r: set<string>)
    ensures forall n :: n in r <==> exists k | 0 <= k < |conds| :: MarksBound(conds[k], n)
  {
    var r := set k, n | 0 <= k < |conds| && n in ConditionMarks(conds[k]) :: n;
    assert forall n :: n in r <==> exists k | 0 <= k < |conds| :: n in ConditionMarks(conds[k]);
    r
  }

  /** One error per wildcard argument of the head. */
  function WildcardErrors(name: string, args: seq<Term>): (r: seq<ValidationError>)
    ensures forall e | e in r :: e == HeadWildcard(name)
    ensures |r| > 0 <==> exists i | 0 <= i < |args| :: args[i].Wild?
    decreases |args|
  {
    if args == [] then []
    else
      assert forall i | 1 <= i < |args| :: args[i] == args[1..][i - 1];
      (if args[0].Wild? then [HeadWildcard(name)] else []) + WildcardErrors(name, args[1..])
  }

  /** `checkHeadVarsAreBound`. */
  function CheckHeadVarsAreBound(r: Rule): (errs: seq<ValidationError>) {
    var name := RuleName(r);
    var bound := BoundNames(r.conditions);
    var unbound := Unbound(HeadVars(r.head.args, []), bound);
    WildcardErrors(name, r.head.args) + (if unbound == [] then [] else [UnboundHeadVars(name, unbound)])
  }

  function Unbound(vs: seq<string>, bound: set<string>): (r: seq<string>)
    ensures forall n :: n in r <==> n in vs && n !in bound
  {
    if vs == [] then []
    else (if vs[0] in bound then [] else [vs[0]]) + Unbound(vs[1..], bound)
  }

  // ---------------------------------------------------------------------------
  // checkNegatedGoals and checkAggregateRule
  // ---------------------------------------------------------------------------

  /** The names of the conditions picked by `pick` that are in `names`, in order, repeats kept. */
  function SameStratumRefs(conds: seq<Condition>, names: seq<string>, negatedOnly: bool): (r: seq<string>)
    ensures forall n :: n in r <==>
      exists k | 0 <= k < |conds| :: (conds[k].Neg? || !negatedOnly) && ConditionName(conds[k]) == n && n in names
    decreases |conds|
  {
    if conds == [] then []
    else
      var c := conds[0];
      assert forall k | 1 <= k < |conds| :: conds[k] == conds[1..][k - 1];
      (if (c.Neg? || !negatedOnly) && ConditionName(c) in names then [ConditionName(c)] else [])
        + SameStratumRefs(conds[1..], names, negatedOnly)
  }

  /** `checkNegatedGoals`: a negated condition must not name a rule of the same stratum. */
  function CheckNegatedGoals(r: Rule, names: seq<string>): seq<ValidationError> {
    var refs := SameStratumRefs(r.conditions, names, true);
    if refs == [] then [] else [NegatedInSameStratum(RuleName(r), refs)]
  }

  /** `checkAggregateRule`: no condition of an aggregate rule may name a rule of its stratum. */
  function CheckAggregateRule(r: Rule, names: seq<string>): seq<ValidationError> {
    var refs := SameStratumRefs(r.conditions, names, false);
    if refs == [] then [] else [AggregateInSameStratum(RuleName(r), refs)]
  }

  /** All checks on one rule of a stratum named by `names`. */
  function CheckRule(r: Rule, names: seq<string>): seq<ValidationError> {
    CheckHeadVarsAreBound(r) + CheckNegatedGoals(r, names)
      + (if RuleHasAggregates(r) then CheckAggregateRule(r, names) else [])
  }

  function CheckRules(rules: seq<Rule>, names: seq<string>): seq<ValidationError>
    decreases |rules|
  {
    if rules == [] then [] else CheckRule(rules[0], names) + CheckRules(rules[1..], names)
  }

  function CheckStrata(ss: seq<RuleStratum>): seq<ValidationError>
    decreases |ss|
  {
    if ss == [] then [] else CheckRules(ss[0].rules, ss[0].names) + CheckStrata(ss[1..])
  }

  /** `ensureProgramIsValid`: the program is rejected with every error found, or accepted. */
  function EnsureProgramIsValid(ss: seq<RuleStratum>): (r: Result<(), seq<ValidationError>>)
    ensures r.Failure? ==> r.error == CheckStrata(ss) && |r.error| > 0
  {
    var errs := CheckStrata(ss);
    if errs == [] then Success(()) else Failure(errs)
  }

  // ---------------------------------------------------------------------------
  // What acceptance means
  // ---------------------------------------------------------------------------

  /** No wildcard in the head, and every variable of the head named by a positive condition. */
  ghost predicate HeadVarsBound(r: Rule) {
    && (forall i | 0 <= i < |r.head.args| :: !r.head.args[i].Wild?)
    && (forall i, n | 0 <= i < |r.head.args| && HeadVar(r.head.args[i]) == Some(n) ::
          exists k | 0 <= k < |r.conditions| :: MarksBound(r.conditions[k], n))
  }

  /** No condition (only negated ones if `negatedOnly`) names a rule of the stratum. */
  ghost predicate NoneInStratum(r: Rule, names: seq<string>, negatedOnly: bool) {
    forall k | 0 <= k < |r.conditions| && (r.conditions[k].Neg? || !negatedOnly) ::
      ConditionName(r.conditions[k]) !in names
  }

  /**
   * A rule is acceptable in a stratum with names `names`: its head variables are bound, no
   * negated condition and (for an aggregate rule) no condition at all names a rule of the stratum.
   */
  ghost predicate RuleOk(r: Rule, names: seq<string>) {
    && HeadVarsBound(r)
    && NoneInStratum(r, names, true)
    && (RuleHasAggregates(r) ==> NoneInStratum(r, names, false))
  }

  lemma NoMembers(s: seq<string>)
    ensures (forall x :: x !in s) ==> s == []
  {
    if s != [] {
      assert s[0] in s;
    }
  }

  lemma CheckHeadVarsOk(r: Rule)
    ensures CheckHeadVarsAreBound(r) == [] <==> HeadVarsBound(r)
  {
    var unbound := Unbound(HeadVars(r.head.args, []), BoundNames(r.conditions));
    if HeadVarsBound(r) {
      assert forall n | n in HeadVars(r.head.args, []) :: n in BoundNames(r.conditions);
      NoMembers(unbound);
    }
    if CheckHeadVarsAreBound(r) == [] {
      assert WildcardErrors(RuleName(r), r.head.args) == [];
      forall i, n | 0 <= i < |r.head.args| && HeadVar(r.head.args[i]) == Some(n)
        ensures exists k | 0 <= k < |r.conditions| :: MarksBound(r.conditions[k], n)
      {
        assert n in HeadVars(r.head.args, []);
        assert n !in unbound;
      }
    }
  }

  lemma SameStratumRefsOk(r: Rule, names: seq<string>, negatedOnly: bool)
    ensures SameStratumRefs(r.conditions, names, negatedOnly) == [] <==> NoneInStratum(r, names, negatedOnly)
  {
    var refs := SameStratumRefs(r.conditions, names, negatedOnly);
    if refs == [] {
      forall k | 0 <= k < |r.conditions| && (r.conditions[k].Neg? || !negatedOnly)
        ensures ConditionName(r.conditions[k]) !in names
      {
        assert ConditionName(r.conditions[k]) !in refs;
      }
    } else {
      assert refs[0] in refs;
    }
  }

  lemma CheckRuleOk(r: Rule, names: seq<string>)
    ensures CheckRule(r, names) == [] <==> RuleOk(r, names)
  {
    CheckHeadVarsOk(r);
    SameStratumRefsOk(r, names, true);
    SameStratumRefsOk(r, names, false);
  }

  lemma {:induction false} CheckRulesOk(rules: seq<Rule>, names: seq<string>)
    ensures CheckRules(rules, names) == [] <==> forall i | 0 <= i < |rules| :: RuleOk(rules[i], names)
    decreases |rules|
  {
    if rules != [] {
      CheckRuleOk(rules[0], names);
      CheckRulesOk(rules[1..], names);
      assert forall i | 1 <= i < |rules| :: rules[i] == rules[1..][i - 1];
    }
  }

  lemma {:induction false} CheckStrataOk(ss: seq<RuleStratum>)
    ensures CheckStrata(ss) == [] <==>
      forall i, j | 0 <= i < |ss| && 0 <= j < |ss[i].rules| :: RuleOk(ss[i].rules[j], ss[i].names)
    decreases |ss|
  {
    if ss != [] {
      CheckRulesOk(ss[0].rules, ss[0].names);
      CheckStrataOk(ss[1..]);
      assert forall i | 1 <= i < |ss| :: ss[i] == ss[1..][i - 1];
    }
  }

  /** A program is accepted exactly when every rule is acceptable in its stratum. */
  lemma EnsureProgramIsValidAccepts(ss: seq<RuleStratum>)
    ensures EnsureProgramIsValid(ss).Success? <==>
      forall i, j | 0 <= i < |ss| && 0 <= j < |ss[i].rules| :: RuleOk(ss[i].rules[j], ss[i].names)
  {
    CheckStrataOk(ss);
  }
}
