/**
 * Environments and unification. An environment is a value here, so `clone` is the
 * environment itself; `addBinding` returns the extended environment.
 */
module Unification {
  import opened Wrappers
  import opened Literals
  import opened Terms

  /**
   * Why unification failed: `Mismatch` is the engine's 'unification failed', `NotUnifiable`
   * the error thrown by a `Not`, and `Diverges` a chain of bindings that loops back on
   * itself, where the engine recurses without end.
   */
  datatype UnifyError = Mismatch | NotUnifiable | Diverges

  /**
   * `addBinding`: every existing binding is rewritten through the single binding
   * `name := value`, then `name` is bound to `value`.
   */
  function AddBinding(env: Env, name: string, value: Term): (r: Env)
    ensures r.Keys == env.Keys + {name}
    ensures r[name] == value
    ensures forall n | n in env && n != name :: r[n] == RewriteTerm(env[n], map[name := value])
  {
    (map n | n in env :: RewriteTerm(env[n], map[name := value]))[name := value]
  }

  /** Rewriting through the extended environment is rewriting through the old one, then the new binding. */
  lemma {:induction false} RewriteAfterBinding(t: Term, env: Env, name: string, value: Term)
    requires name !in env
    ensures RewriteTerm(t, AddBinding(env, name, value))
         == RewriteTerm(RewriteTerm(t, env), map[name := value])
  {
    if t.Agg? {
      RewriteAfterBinding(t.term, env, name, value);
    }
  }

  // ---------------------------------------------------------------------------
  // Unification
  // ---------------------------------------------------------------------------

  /** Where following bindings from a term ends: at a value, at an unbound variable, or in a loop. */
  datatype Walked = Reached(lit: Literal) | Free(name: string) | Cycle

  /**
   * Follow bindings from `t` the way `Variable.unify` recurses into `env[name].unify`;
   * `seen` holds the variables already followed, and meeting one again is a loop.
   */
  function Walk(t: Term, env: Env, seen: set<string>): Walked
    decreases env.Keys - seen, t
  {
    match t
    case Val(l) => Reached(l)
    case Agg(_, u) => Walk(u, env, seen)
    case _ =>
      if t.name !in env then Free(t.name)
      else if t.name in seen then Cycle
      else Walk(env[t.name], env, seen + {t.name})
  }

  /**
   * `x.unify(y, env)` for two terms, as the engine means it. The left term is followed
   * to its end; an unbound variable there is bound to `y` rewritten through `env`, unless
   * that is the variable itself. A value there is unified with `y` followed to its end.
   */
  function UnifyTerms(x: Term, y: Term, env: Env): (r: Result<Env, UnifyError>)
    ensures x.Var? && x.name !in env && Core(RewriteTerm(y, env)) != AVar(x.name) ==>
      r == Success(AddBinding(env, x.name, RewriteTerm(y, env)))
    ensures x.Val? && y.Val? ==> (r.Success? <==> x.lit == y.lit)
    ensures x.Val? && y.Val? && r.Success? ==> r.value == env
    ensures r.Failure? && x.Val? && y.Val? ==> r.error == Mismatch
  {
    match Walk(x, env, {})
    case Cycle => Failure(Diverges)
    case Free(n) =>
      var t := RewriteTerm(y, env);
      if Core(t) == AVar(n) then Success(env) else Success(AddBinding(env, n, t))
    case Reached(v) => UnifyValue(v, y, env)
  }

  /** `Value.unify`: a value against a term followed to its end. */
  function UnifyValue(v: Literal, y: Term, env: Env): Result<Env, UnifyError> {
    match Walk(y, env, {})
    case Cycle => Failure(Diverges)
    case Free(m) => Success(AddBinding(env, m, Val(v)))
    case Reached(w) => if v == w then Success(env) else Failure(Mismatch)
  }

  /** Unify argument lists position by position, threading the environment. */
  function UnifyArgs(xs: seq<Term>, ys: seq<Term>, env: Env): Result<Env, UnifyError>
    requires |xs| == |ys|
    decreases |xs|
  {
    if xs == [] then Success(env)
    else
      var e :- UnifyTerms(xs[0], ys[0], env);
      UnifyArgs(xs[1..], ys[1..], e)
  }

  /** `Clause.unify`: names and argument counts must match before the arguments are unified. */
  function UnifyClauses(c: Clause, d: Clause, env: Env): (r: Result<Env, UnifyError>)
    ensures c.name != d.name || |c.args| != |d.args| ==> r == Failure(Mismatch)
    ensures r.Success? ==> c.name == d.name && |c.args| == |d.args|
  {
    if c.name != d.name || |c.args| != |d.args| then Failure(Mismatch)
    else UnifyArgs(c.args, d.args, env)
  }

  /** A condition unified with a clause: a `Not` refuses to unify. */
  function UnifyCondition(c: Condition, d: Clause, env: Env): (r: Result<Env, UnifyError>)
    ensures c.Neg? ==> r == Failure(NotUnifiable)
  {
    match c
    case Pos(cl) => UnifyClauses(cl, d, env)
    case Neg(_) => Failure(NotUnifiable)
  }

  // ---------------------------------------------------------------------------
  // Soundness: a successful unification makes both sides denote the same atom
  // ---------------------------------------------------------------------------

  /** Replace the variable `n` by the atom `c`. */
  function Sub(a: Atom, n: string, c: Atom): Atom {
    if a == AVar(n) then c else a
  }

  /** Every binding is resolved: it denotes a value or a variable that is itself unbound. */
  predicate Resolved(env: Env) {
    forall n | n in env :: Core(env[n]).AVal? || Core(env[n]).name !in env
  }

  /** Looking up in the extended environment is looking up in the old one, then substituting. */
  lemma LookAfterBinding(a: Atom, env: Env, name: string, value: Term)
    requires name !in env
    ensures Look(a, AddBinding(env, name, value)) == Sub(Look(a, env), name, Core(value))
  {
    if a.AVar? && a.name in env {
      RewriteCore(env[a.name], map[name := value]);
    }
  }

  /** Binding a free variable to a value, or to another free variable, keeps the environment resolved. */
  lemma BindingKeepsResolved(env: Env, name: string, value: Term)
    requires Resolved(env) && name !in env
    requires Core(value).AVal? || (Core(value).name !in env && Core(value).name != name)
    ensures Resolved(AddBinding(env, name, value))
  {
    var e := AddBinding(env, name, value);
    forall n | n in e
      ensures Core(e[n]).AVal? || Core(e[n]).name !in e
    {
      if n != name {
        RewriteCore(env[n], map[name := value]);
      }
    }
  }

  /** The walk from a term is the walk from its atom. */
  lemma {:induction false} WalkCore(t: Term, env: Env, seen: set<string>)
    ensures Walk(t, env, seen) == WalkAtom(Core(t), env, seen)
  {
    if t.Agg? {
      WalkCore(t.term, env, seen);
    }
  }

  function WalkAtom(a: Atom, env: Env, seen: set<string>): Walked {
    match a
    case AVar(n) => Walk(Var(n), env, seen)
    case AVal(l) => Reached(l)
  }

  /**
   * In a resolved environment a walk never loops, and it ends where one lookup of the
   * term's atom ends.
   */
  lemma WalkResolved(t: Term, env: Env)
    requires Resolved(env)
    ensures !Walk(t, env, {}).Cycle?
    ensures Walk(t, env, {}).Reached? ==> Look(Core(t), env) == AVal(Walk(t, env, {}).lit)
    ensures Walk(t, env, {}).Free? ==>
      Look(Core(t), env) == AVar(Walk(t, env, {}).name) && Walk(t, env, {}).name !in env
  {
    WalkCore(t, env, {});
    var a := Core(t);
    if a.AVar? && a.name in env {
      var p := a.name;
      var none: set<string> := {};
      assert none + {p} == {p};
      assert Walk(Var(p), env, {}) == Walk(env[p], env, {p});
      WalkCore(env[p], env, {p});
    }
  }

  /**
   * Unifying two terms in a resolved environment never loops. When it succeeds it leaves
   * a resolved environment in which both terms denote the same atom, and it keeps every
   * equality the old environment made (`a` and `b` stand for any two atoms).
   */
  lemma UnifyTermsSound(x: Term, y: Term, env: Env, a: Atom, b: Atom)
    requires Resolved(env)
    ensures UnifyTerms(x, y, env).Failure? ==> UnifyTerms(x, y, env).error == Mismatch
    ensures UnifyTerms(x, y, env).Success? ==> Resolved(UnifyTerms(x, y, env).value)
    ensures UnifyTerms(x, y, env).Success? ==>
      Look(Core(x), UnifyTerms(x, y, env).value) == Look(Core(y), UnifyTerms(x, y, env).value)
    ensures UnifyTerms(x, y, env).Success? && Look(a, env) == Look(b, env) ==>
      Look(a, UnifyTerms(x, y, env).value) == Look(b, UnifyTerms(x, y, env).value)
  {
    WalkResolved(x, env);
    WalkResolved(y, env);
    var wx := Walk(x, env, {});
    if wx.Free? {
      var r := RewriteTerm(y, env);
      RewriteCore(y, env);
      if Core(r) != AVar(wx.name) {
        BindingKeepsResolved(env, wx.name, r);
        LookAfterBinding(Core(x), env, wx.name, r);
        LookAfterBinding(Core(y), env, wx.name, r);
        LookAfterBinding(a, env, wx.name, r);
        LookAfterBinding(b, env, wx.name, r);
      }
    } else {
      var wy := Walk(y, env, {});
      if wy.Free? {
        BindingKeepsResolved(env, wy.name, Val(wx.lit));
        LookAfterBinding(Core(x), env, wy.name, Val(wx.lit));
        LookAfterBinding(Core(y), env, wy.name, Val(wx.lit));
        LookAfterBinding(a, env, wy.name, Val(wx.lit));
        LookAfterBinding(b, env, wy.name, Val(wx.lit));
      }
    }
  }

  /** Later unifications keep the equalities earlier ones made, and never loop. */
  lemma {:induction false} UnifyArgsKeeps(xs: seq<Term>, ys: seq<Term>, env: Env, a: Atom, b: Atom)
    requires |xs| == |ys| && Resolved(env)
    ensures UnifyArgs(xs, ys, env).Failure? ==> UnifyArgs(xs, ys, env).error == Mismatch
    ensures UnifyArgs(xs, ys, env).Success? ==> Resolved(UnifyArgs(xs, ys, env).value)
    ensures UnifyArgs(xs, ys, env).Success? && Look(a, env) == Look(b, env) ==>
      Look(a, UnifyArgs(xs, ys, env).value) == Look(b, UnifyArgs(xs, ys, env).value)
    decreases |xs|
  {
    if xs != [] {
      UnifyTermsSound(xs[0], ys[0], env, a, b);
      if UnifyTerms(xs[0], ys[0], env).Success? {
        UnifyArgsKeeps(xs[1..], ys[1..], UnifyTerms(xs[0], ys[0], env).value, a, b);
      }
    }
  }

  /**
   * Soundness of `Clause.unify` on arguments: from a resolved environment it either fails
   * with a plain mismatch, or every pair of corresponding arguments denotes the same atom
   * in the resulting environment.
   */
  lemma {:induction false} UnifyArgsSound(xs: seq<Term>, ys: seq<Term>, env: Env, i: nat)
    requires |xs| == |ys| && Resolved(env) && i < |xs|
    ensures UnifyArgs(xs, ys, env).Failure? ==> UnifyArgs(xs, ys, env).error == Mismatch
    ensures UnifyArgs(xs, ys, env).Success? ==>
      Look(Core(xs[i]), UnifyArgs(xs, ys, env).value) == Look(Core(ys[i]), UnifyArgs(xs, ys, env).value)
    decreases |xs|
  {
    UnifyTermsSound(xs[0], ys[0], env, Core(xs[0]), Core(ys[0]));
    if UnifyTerms(xs[0], ys[0], env).Success? {
      var e := UnifyTerms(xs[0], ys[0], env).value;
      if i == 0 {
        UnifyArgsKeeps(xs[1..], ys[1..], e, Core(xs[0]), Core(ys[0]));
      } else {
        UnifyArgsSound(xs[1..], ys[1..], e, i - 1);
      }
    }
  }

  /**
   * Soundness of `Clause.unify`: from a resolved environment it never loops; when it
   * succeeds both clauses have the same name and arity and every pair of arguments denotes
   * the same atom, in a resolved environment.
   */
  lemma UnifyClausesSound(c: Clause, d: Clause, env: Env)
    requires Resolved(env)
    ensures UnifyClauses(c, d, env).Failure? ==> UnifyClauses(c, d, env).error == Mismatch
    ensures UnifyClauses(c, d, env).Success? ==> Resolved(UnifyClauses(c, d, env).value)
    ensures UnifyClauses(c, d, env).Success? ==>
      forall i | 0 <= i < |c.args| ::
        Look(Core(c.args[i]), UnifyClauses(c, d, env).value) == Look(Core(d.args[i]), UnifyClauses(c, d, env).value)
  {
    if c.name == d.name && |c.args| == |d.args| {
      UnifyArgsKeeps(c.args, d.args, env, AVar(""), AVar(""));
      forall i | 0 <= i < |c.args|
        ensures UnifyArgs(c.args, d.args, env).Success? ==>
          Look(Core(c.args[i]), UnifyArgs(c.args, d.args, env).value) == Look(Core(d.args[i]), UnifyArgs(c.args, d.args, env).value)
      {
        UnifyArgsSound(c.args, d.args, env, i);
      }
    }
  }

  // ---------------------------------------------------------------------------
  // Unifying with facts
  // ---------------------------------------------------------------------------

  /** Every binding is a value. */
  predicate GroundEnv(env: Env) {
    forall n | n in env :: Core(env[n]).AVal?
  }

  /** A term whose atom is a value (a value, possibly under aggregates). */
  predicate GroundTerm(t: Term) {
    Core(t).AVal?
  }

  lemma GroundBinding(env: Env, name: string, value: Term)
    requires GroundEnv(env) && Core(value).AVal?
    ensures GroundEnv(AddBinding(env, name, value))
  {
    var e := AddBinding(env, name, value);
    forall n | n in e
      ensures Core(e[n]).AVal?
    {
      if n != name {
        RewriteCore(env[n], map[name := value]);
      }
    }
  }

  /** Unifying with a ground term from an environment of values binds only to values. */
  lemma UnifyWithGround(x: Term, y: Term, env: Env)
    requires GroundEnv(env) && GroundTerm(y)
    ensures UnifyTerms(x, y, env).Success? ==> GroundEnv(UnifyTerms(x, y, env).value)
  {
    WalkCore(y, env, {});
    var wx := Walk(x, env, {});
    if wx.Free? {
      RewriteCore(y, env);
      GroundBinding(env, wx.name, RewriteTerm(y, env));
    }
  }

  /**
   * Unifying arguments with ground arguments (a fact) from an environment of values
   * yields an environment of values.
   */
  lemma {:induction false} UnifyArgsWithGround(xs: seq<Term>, ys: seq<Term>, env: Env)
    requires |xs| == |ys| && GroundEnv(env)
    requires forall i | 0 <= i < |ys| :: GroundTerm(ys[i])
    ensures UnifyArgs(xs, ys, env).Success? ==> GroundEnv(UnifyArgs(xs, ys, env).value)
    decreases |xs|
  {
    if xs != [] {
      UnifyWithGround(xs[0], ys[0], env);
      if UnifyTerms(xs[0], ys[0], env).Success? {
        UnifyArgsWithGround(xs[1..], ys[1..], UnifyTerms(xs[0], ys[0], env).value);
      }
    }
  }

  /** Two argument lists of values unify exactly when they are equal, and then bind nothing. */
  lemma {:induction false} UnifyArgsValues(xs: seq<Term>, ys: seq<Term>, env: Env)
    requires |xs| == |ys|
    requires forall i | 0 <= i < |xs| :: xs[i].Val? && ys[i].Val?
    ensures UnifyArgs(xs, ys, env) == (if xs == ys then Success(env) else Failure(Mismatch))
    decreases |xs|
  {
    if xs != [] {
      UnifyArgsValues(xs[1..], ys[1..], env);
      if xs[0] == ys[0] && xs[1..] == ys[1..] {
        assert xs == [xs[0]] + xs[1..] == ys;
      }
    }
  }

  /**
   * Unification with a value is symmetric: a term against a value, and the value against
   * the term, fail alike or bind alike.
   */
  lemma UnifyWithValueSymmetric(x: Term, v: Literal, env: Env)
    ensures UnifyTerms(x, Val(v), env) == UnifyTerms(Val(v), x, env)
  {
  }

  /** Unifying arguments with values is symmetric, the resulting environment included. */
  lemma {:induction false} UnifyArgsWithValuesSymmetric(xs: seq<Term>, ys: seq<Term>, env: Env)
    requires |xs| == |ys|
    requires forall i | 0 <= i < |ys| :: ys[i].Val?
    ensures UnifyArgs(xs, ys, env) == UnifyArgs(ys, xs, env)
    decreases |xs|
  {
    if xs != [] {
      UnifyWithValueSymmetric(xs[0], ys[0].lit, env);
      if UnifyTerms(xs[0], ys[0], env).Success? {
        UnifyArgsWithValuesSymmetric(xs[1..], ys[1..], UnifyTerms(xs[0], ys[0], env).value);
      }
    }
  }

  /**
   * `c.unify(fact)` and `fact.unify(c)` agree when the fact's arguments are values: both
   * fail with the same error or both succeed with the same environment.
   */
  lemma UnifyClausesWithFactSymmetric(c: Clause, fact: Clause, env: Env)
    requires Ground(fact)
    ensures UnifyClauses(c, fact, env) == UnifyClauses(fact, c, env)
  {
    if c.name == fact.name && |c.args| == |fact.args| {
      UnifyArgsWithValuesSymmetric(c.args, fact.args, env);
    }
  }

  // ---------------------------------------------------------------------------
  // `Variable.unify` as written
  // ---------------------------------------------------------------------------

  /**
   * `Variable.unify` as written binds an unbound variable to the other side even when that
   * side is the variable itself. The binding `n := n` makes every later walk through `n`
   * recurse without end.
   */
  function UnifyTermsAsWritten(x: Term, y: Term, env: Env): Result<Env, UnifyError> {
    match Walk(x, env, {})
    case Cycle => Failure(Diverges)
    case Free(n) => Success(AddBinding(env, n, RewriteTerm(y, env)))
    case Reached(v) => UnifyValue(v, y, env)
  }

  function UnifyArgsAsWritten(xs: seq<Term>, ys: seq<Term>, env: Env): Result<Env, UnifyError>
    requires |xs| == |ys|
    decreases |xs|
  {
    if xs == [] then Success(env)
    else
      var e :- UnifyTermsAsWritten(xs[0], ys[0], env);
      UnifyArgsAsWritten(xs[1..], ys[1..], e)
  }

  /** `Clause.unify` with `Variable.unify` as written. */
  function UnifyClausesAsWritten(c: Clause, d: Clause, env: Env): (r: Result<Env, UnifyError>)
    ensures c.name != d.name || |c.args| != |d.args| ==> r == Failure(Mismatch)
    ensures r.Success? ==> c.name == d.name && |c.args| == |d.args|
  {
    if c.name != d.name || |c.args| != |d.args| then Failure(Mismatch)
    else UnifyArgsAsWritten(c.args, d.args, env)
  }

  /**
   * A variable used three times, unified against another used three times: the second
   * pair binds `1_X` to itself and the third recurses without end. With the self-binding
   * skipped the same arguments unify, binding `0_B` to `1_X`.
   */
  lemma SelfBindingDiverges()
    ensures UnifyArgsAsWritten([Var("0_B"), Var("0_B"), Var("0_B")], [Var("1_X"), Var("1_X"), Var("1_X")], map[])
         == Failure(Diverges)
    ensures UnifyArgs([Var("0_B"), Var("0_B"), Var("0_B")], [Var("1_X"), Var("1_X"), Var("1_X")], map[])
         == Success(map["0_B" := Var("1_X")])
  {
    var b, x := Var("0_B"), Var("1_X");
    var e1 := AddBinding(map[], "0_B", x);
    assert e1 == map["0_B" := x];
    assert UnifyTermsAsWritten(b, x, map[]) == Success(e1);
    var e2 := AddBinding(e1, "1_X", x);
    assert e2 == map["0_B" := x, "1_X" := x];
    assert Walk(b, e1, {}) == Walk(x, e1, {"0_B"}) == Free("1_X");
    assert UnifyTermsAsWritten(b, x, e1) == Success(e2);
    assert Walk(x, e2, {"0_B"}) == Walk(x, e2, {"0_B", "1_X"}) == Cycle;
    assert Walk(b, e2, {}) == Cycle;
    assert UnifyTerms(b, x, map[]) == Success(e1);
    assert UnifyTerms(b, x, e1) == Success(e1);
  }

  /** Against a fact (ground arguments) the two readings agree. */
  lemma {:induction false} AsWrittenAgreesOnFacts(xs: seq<Term>, ys: seq<Term>, env: Env)
    requires |xs| == |ys|
    requires forall i | 0 <= i < |ys| :: GroundTerm(ys[i])
    ensures UnifyArgsAsWritten(xs, ys, env) == UnifyArgs(xs, ys, env)
    decreases |xs|
  {
    if xs != [] {
      RewriteCore(ys[0], env);
      if UnifyTerms(xs[0], ys[0], env).Success? {
        AsWrittenAgreesOnFacts(xs[1..], ys[1..], UnifyTerms(xs[0], ys[0], env).value);
      }
    }
  }
}
