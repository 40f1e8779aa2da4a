/**
 * `withMangledVariableNames`: the variables of the rule at index `m` of a database are
 * renamed `<m>_<name>`, so that no two rules share a variable.
 */
module Mangling {
  import opened Literals
  import opened Terms
  import opened Names

  /** The prefix given to the variables of the rule at index `m`. */
  function Prefix(m: nat): string {
    NatToString(m) + "_"
  }

  function MangleTerm(t: Term, m: nat): (r: Term)
    ensures t.Var? ==> r == Var(Prefix(m) + t.name)
    ensures t.Val? || t.Wild? ==> r == t
    ensures t.Agg? ==> r.Agg? && r.kind == t.kind
  {
    match t
    case Var(n) => Var(Prefix(m) + n)
    case Agg(k, u) => Agg(k, MangleTerm(u, m))
    case _ => t
  }

  function MangleClause(c: Clause, m: nat): (r: Clause)
    ensures r.name == c.name && |r.args| == |c.args|
  {
    Clause(c.name, seq(|c.args|, i requires 0 <= i < |c.args| => MangleTerm(c.args[i], m)))
  }

  function MangleCondition(c: Condition, m: nat): (r: Condition)
    ensures r.Neg? == c.Neg? && r.clause.name == c.clause.name
    ensures |r.clause.args| == |c.clause.args|
  {
    match c
    case Pos(cl) => Pos(MangleClause(cl, m))
    case Neg(cl) => Neg(MangleClause(cl, m))
  }

  function MangleRule(r: Rule, m: nat): (s: Rule)
    ensures s.head.name == r.head.name && |s.head.args| == |r.head.args|
    ensures |s.conditions| == |r.conditions|
  {
    Rule(MangleClause(r.head, m),
         seq(|r.conditions|, j requires 0 <= j < |r.conditions| => MangleCondition(r.conditions[j], m)))
  }

  /** `Database.withMangledVariableNames`: each rule is mangled with its own index. */
  function MangleRules(rules: seq<Rule>): (r: seq<Rule>)
    ensures |r| == |rules|
    ensures forall i | 0 <= i < |rules| :: r[i] == MangleRule(rules[i], i)
  {
    seq(|rules|, i requires 0 <= i < |rules| => MangleRule(rules[i], i))
  }

  // ---------------------------------------------------------------------------
  // Mangling can be undone
  // ---------------------------------------------------------------------------

  function UnmangleTerm(t: Term, m: nat): Term {
    match t
    case Var(n) => if Prefix(m) <= n then Var(n[|Prefix(m)|..]) else t
    case Agg(k, u) => Agg(k, UnmangleTerm(u, m))
    case _ => t
  }

  function UnmangleClause(c: Clause, m: nat): Clause {
    Clause(c.name, seq(|c.args|, i requires 0 <= i < |c.args| => UnmangleTerm(c.args[i], m)))
  }

  function UnmangleCondition(c: Condition, m: nat): Condition {
    match c
    case Pos(cl) => Pos(UnmangleClause(cl, m))
    case Neg(cl) => Neg(UnmangleClause(cl, m))
  }

  function UnmangleRule(r: Rule, m: nat): Rule {
    Rule(UnmangleClause(r.head, m),
         seq(|r.conditions|, j requires 0 <= j < |r.conditions| => UnmangleCondition(r.conditions[j], m)))
  }

  lemma {:induction false} UnmangleMangleTerm(t: Term, m: nat)
    ensures UnmangleTerm(MangleTerm(t, m), m) == t
  {
    match t
    case Var(n) =>
      assert (Prefix(m) + n)[|Prefix(m)|..] == n;
    case Agg(k, u) =>
      UnmangleMangleTerm(u, m);
    case _ =>
  }

  lemma UnmangleMangleClause(c: Clause, m: nat)
    ensures UnmangleClause(MangleClause(c, m), m) == c
  {
    forall i | 0 <= i < |c.args|
      ensures UnmangleTerm(MangleTerm(c.args[i], m), m) == c.args[i]
    {
      UnmangleMangleTerm(c.args[i], m);
    }
    assert UnmangleClause(MangleClause(c, m), m).args == c.args;
  }

  /** Mangling loses nothing: unmangling with the same index gives the rule back. */
  lemma UnmangleMangleRule(r: Rule, m: nat)
    ensures UnmangleRule(MangleRule(r, m), m) == r
  {
    UnmangleMangleClause(r.head, m);
    forall j | 0 <= j < |r.conditions|
      ensures UnmangleCondition(MangleCondition(r.conditions[j], m), m) == r.conditions[j]
    {
      UnmangleMangleClause(r.conditions[j].clause, m);
    }
    assert UnmangleRule(MangleRule(r, m), m).conditions == r.conditions;
  }

  // ---------------------------------------------------------------------------
  // Mangled rules share no variables
  // ---------------------------------------------------------------------------

  /** The names of the (non-wildcard) variables of a term. */
  function VarNames(t: Term): set<string> {
    match t
    case Var(n) => {n}
    case Agg(_, u) => VarNames(u)
    case _ => {}
  }

  ghost predicate ClauseMentions(c: Clause, n: string) {
    exists i | 0 <= i < |c.args| :: n in VarNames(c.args[i])
  }

  /** The rule mentions variable `n` in its head or in one of its conditions. */
  ghost predicate RuleMentions(r: Rule, n: string) {
    ClauseMentions(r.head, n) ||
    exists j | 0 <= j < |r.conditions| :: ClauseMentions(r.conditions[j].clause, n)
  }

  lemma {:induction false} MangledTermNames(t: Term, m: nat, n: string)
    requires n in VarNames(MangleTerm(t, m))
    ensures Prefix(m) <= n
  {
    if t.Agg? {
      MangledTermNames(t.term, m, n);
    }
  }

  lemma MangledClauseNames(c: Clause, m: nat, n: string)
    requires ClauseMentions(MangleClause(c, m), n)
    ensures Prefix(m) <= n
  {
    var i :| 0 <= i < |c.args| && n in VarNames(MangleClause(c, m).args[i]);
    MangledTermNames(c.args[i], m, n);
  }

  /** Every variable of a rule mangled with index `m` starts with `<m>_`. */
  lemma MangledRuleNames(r: Rule, m: nat, n: string)
    requires RuleMentions(MangleRule(r, m), n)
    ensures Prefix(m) <= n
  {
    var s := MangleRule(r, m);
    if ClauseMentions(s.head, n) {
      MangledClauseNames(r.head, m, n);
    } else {
      var j :| 0 <= j < |s.conditions| && ClauseMentions(s.conditions[j].clause, n);
      MangledClauseNames(r.conditions[j].clause, m, n);
    }
  }

  /** A name carries at most one index prefix: digits never contain `_`. */
  lemma PrefixUnique(i: nat, j: nat, n: string)
    requires Prefix(i) <= n && Prefix(j) <= n
    ensures i == j
  {
    var a, b := NatToString(i), NatToString(j);
    // each prefix ends in the first '_' of `n`, since everything before it is a digit
    assert n[|a|] == '_' && forall k | 0 <= k < |a| :: IsDigit(n[k]);
    assert n[|b|] == '_' && forall k | 0 <= k < |b| :: IsDigit(n[k]);
    assert |a| == |b|;
    assert a == n[..|a|] == b;
    NatToStringInjective(i, j);
  }

  /** Two different rules of a mangled database never mention the same variable. */
  lemma MangledRulesShareNoVariables(rules: seq<Rule>, i: nat, j: nat, n: string)
    requires i < |rules| && j < |rules| && i != j
    requires RuleMentions(MangleRules(rules)[i], n)
    ensures !RuleMentions(MangleRules(rules)[j], n)
  {
    MangledRuleNames(rules[i], i, n);
    if RuleMentions(MangleRules(rules)[j], n) {
      MangledRuleNames(rules[j], j, n);
      PrefixUnique(i, j, n);
    }
  }

  // ---------------------------------------------------------------------------
  // What mangling keeps
  // ---------------------------------------------------------------------------

  /** Mangling keeps canonical names: they depend on values only, which mangling leaves alone. */
  lemma MangleKeepsCanonicalName(c: Clause, m: nat)
    ensures CanonicalName(MangleClause(c, m)) == CanonicalName(c)
  {
    FillSameSlots(c.name, MangleClause(c, m).args, c.args);
  }

  /** Mangling keeps the aggregates of a clause where they were. */
  lemma MangleKeepsAggregates(c: Clause, m: nat)
    ensures HasAggregates(MangleClause(c, m)) <==> HasAggregates(c)
  {
    if HasAggregates(c) {
      var i :| 0 <= i < |c.args| && c.args[i].Agg?;
      assert MangleClause(c, m).args[i].Agg?;
    }
  }
}
