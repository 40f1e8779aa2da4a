/**
 * Terms, clauses and rules of a Datalog program, and the structural operations on them:
 * aggregate detection and stripping, and rewriting through an environment.
 */
module Terms {
  import opened Wrappers
  import opened Literals

  /** The aggregate functions the engine defines. */
  datatype AggKind = Count | ListOf | Sum | Prod | Min | Max

  /**
   * A term. `Wild(n)` is a wildcard together with the fresh variable name `n` it stands
   * for; `Agg(k, t)` applies aggregate `k` to the term `t`.
   */
  datatype Term = Var(name: string) | Wild(name: string) | Val(lit: Literal) | Agg(kind: AggKind, term: Term)

  /** A clause: a name with one `@` per argument position, and the arguments. */
  datatype Clause = Clause(name: string, args: seq<Term>)

  /** A rule condition: a clause, or a negated clause (`Not`). */
  datatype Condition = Pos(clause: Clause) | Neg(clause: Clause)

  /** A rule; a fact is a rule without conditions. */
  datatype Rule = Rule(head: Clause, conditions: seq<Condition>)

  /** A variable environment: variable name to the term it is bound to. */
  type Env = map<string, Term>

  function KindName(k: AggKind): string {
    match k
    case Count => "count"
    case ListOf => "list"
    case Sum => "sum"
    case Prod => "prod"
    case Min => "min"
    case Max => "max"
  }

  /** `Aggregate.get`: look an aggregate up by name; unknown names are an error. */
  function AggregateGet(name: string, arg: Term): (r: Result<Term, string>)
    ensures r.Success? <==> exists k: AggKind :: KindName(k) == name
    ensures r.Success? ==> r.value.Agg? && r.value.term == arg && KindName(r.value.kind) == name
    ensures r.Failure? ==> r.error == "aggregate " + name + " not supported"
  {
    if name == "count" then assert KindName(Count) == name; Success(Agg(Count, arg))
    else if name == "list" then assert KindName(ListOf) == name; Success(Agg(ListOf, arg))
    else if name == "sum" then assert KindName(Sum) == name; Success(Agg(Sum, arg))
    else if name == "prod" then assert KindName(Prod) == name; Success(Agg(Prod, arg))
    else if name == "min" then assert KindName(Min) == name; Success(Agg(Min, arg))
    else if name == "max" then assert KindName(Max) == name; Success(Agg(Max, arg))
    else Failure("aggregate " + name + " not supported")
  }

  // ---------------------------------------------------------------------------
  // Aggregates in heads
  // ---------------------------------------------------------------------------

  predicate HasAggregates(c: Clause) {
    exists i | 0 <= i < |c.args| :: c.args[i].Agg?
  }

  predicate RuleHasAggregates(r: Rule) {
    HasAggregates(r.head)
  }

  /** `stripAggregates`: replace every aggregate argument by the term it aggregates. */
  function StripAggregates(c: Clause): (r: Clause)
    ensures r.name == c.name && |r.args| == |c.args|
    ensures forall i | 0 <= i < |c.args| :: !c.args[i].Agg? ==> r.args[i] == c.args[i]
    ensures forall i | 0 <= i < |c.args| :: c.args[i].Agg? ==> r.args[i] == c.args[i].term
    ensures forall i | 0 <= i < |c.args| :: Core(r.args[i]) == Core(c.args[i])
  {
    Clause(c.name, seq(|c.args|, i requires 0 <= i < |c.args| =>
      if c.args[i].Agg? then c.args[i].term else c.args[i]))
  }

  /** Stripping changes nothing exactly when the clause has no aggregates. */
  lemma StripAggregatesIdentity(c: Clause)
    ensures StripAggregates(c) == c <==> !HasAggregates(c)
  {
    if HasAggregates(c) {
      var i :| 0 <= i < |c.args| && c.args[i].Agg?;
      assert StripAggregates(c).args[i] == c.args[i].term;
      assert c.args[i].term < c.args[i];
    } else {
      assert StripAggregates(c).args == c.args;
    }
  }

  /** What is left of an aggregate after stripping is an aggregate only if it was nested. */
  lemma StripAggregatesLeaves(c: Clause)
    ensures HasAggregates(StripAggregates(c)) <==>
      exists i | 0 <= i < |c.args| :: c.args[i].Agg? && c.args[i].term.Agg?
  {
    var r := StripAggregates(c);
    if HasAggregates(r) {
      var i :| 0 <= i < |r.args| && r.args[i].Agg?;
      assert c.args[i].Agg? && c.args[i].term.Agg?;
    }
    if exists i | 0 <= i < |c.args| :: c.args[i].Agg? && c.args[i].term.Agg? {
      var i :| 0 <= i < |c.args| && c.args[i].Agg? && c.args[i].term.Agg?;
      assert r.args[i].Agg?;
    }
  }

  // ---------------------------------------------------------------------------
  // Atoms: what a term stands for once aggregates and wildcards are seen through
  // ---------------------------------------------------------------------------

  /** A variable name or a value. Every term denotes exactly one atom. */
  datatype Atom = AVar(name: string) | AVal(lit: Literal)

  /** The atom a term denotes: aggregates are transparent, a wildcard is its variable. */
  function Core(t: Term): Atom {
    match t
    case Var(n) => AVar(n)
    case Wild(n) => AVar(n)
    case Val(l) => AVal(l)
    case Agg(_, u) => Core(u)
  }

  /** The variable names a term mentions, wildcard variables included. */
  function Vars(t: Term): set<string> {
    match t
    case Var(n) => {n}
    case Wild(n) => {n}
    case Val(_) => {}
    case Agg(_, u) => Vars(u)
  }

  /** One lookup step: a bound variable stands for the atom of its binding. */
  function Look(a: Atom, env: Env): Atom {
    match a
    case AVar(n) => if n in env then Core(env[n]) else a
    case AVal(_) => a
  }

  /** A term mentions exactly the variable of its atom, and no variable if its atom is a value. */
  lemma {:induction false} VarsCore(t: Term)
    ensures Vars(t) == (if Core(t).AVar? then {Core(t).name} else {})
  {
    if t.Agg? {
      VarsCore(t.term);
    }
  }

  // ---------------------------------------------------------------------------
  // Rewriting
  // ---------------------------------------------------------------------------

  /**
   * `rewrite`: replace a bound variable by its binding. A wildcard rewrites as its variable
   * (so an unbound wildcard becomes a plain variable); values are unchanged.
   */
  function RewriteTerm(t: Term, env: Env): Term {
    match t
    case Var(n) => if n in env then env[n] else t
    case Wild(n) => if n in env then env[n] else Var(n)
    case Val(_) => t
    case Agg(k, u) => Agg(k, RewriteTerm(u, env))
  }

  function RewriteClause(c: Clause, env: Env): (r: Clause)
    ensures r.name == c.name && |r.args| == |c.args|
  {
    Clause(c.name, seq(|c.args|, i requires 0 <= i < |c.args| => RewriteTerm(c.args[i], env)))
  }

  function RewriteCondition(c: Condition, env: Env): (r: Condition)
    ensures r.Neg? == c.Neg? && r.clause.name == c.clause.name
    ensures |r.clause.args| == |c.clause.args|
  {
    match c
    case Pos(cl) => Pos(RewriteClause(cl, env))
    case Neg(cl) => Neg(RewriteClause(cl, env))
  }

  /** Rewriting a term looks its atom up once in the environment. */
  lemma {:induction false} RewriteCore(t: Term, env: Env)
    ensures Core(RewriteTerm(t, env)) == Look(Core(t), env)
  {
    if t.Agg? {
      RewriteCore(t.term, env);
    }
  }

  /** A term none of whose variables is bound rewrites to itself (wildcards made plain). */
  lemma {:induction false} RewriteUnbound(t: Term, env: Env)
    requires forall n | n in Vars(t) :: n !in env
    ensures RewriteTerm(t, env) == RewriteTerm(t, map[])
  {
    if t.Agg? {
      RewriteUnbound(t.term, env);
    }
  }

  /** A ground clause (every argument denotes a value) is unchanged by stripping and rewriting. */
  predicate Ground(c: Clause) {
    forall i | 0 <= i < |c.args| :: c.args[i].Val?
  }

  lemma RewriteGround(c: Clause, env: Env)
    requires Ground(c)
    ensures RewriteClause(c, env) == c && StripAggregates(c) == c
  {
    assert RewriteClause(c, env).args == c.args;
    assert StripAggregates(c).args == c.args;
  }

}
