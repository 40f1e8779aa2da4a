/**
 * `buildDependencyGraph`: rule names to the names of the other rules whose heads some
 * condition may match, and `translateRuleNamesToRules`, which turns strata of names back
 * into strata of rules.
 */
module DepGraph {
  import opened Wrappers
  import opened Terms
  import opened Names
  import opened Unification
  import opened Builtins
  import opened Graphs
  import opened Strata

  /**
   * The engine's test for an edge: the condition unified with the other rule's head in an
   * empty environment, every error swallowed. `Not.unify` throws, so a negated condition
   * never yields an edge, and a unification that recurses without end yields none either.
   */
  predicate MayUseAsWritten(c: Condition, head: Clause) {
    c.Pos? && UnifyClausesAsWritten(c.clause, head, map[]).Success?
  }

  /** The edge test as intended: the clause of the condition, negated or not, against the head. */
  predicate MayUse(c: Condition, head: Clause) {
    UnifyClauses(c.clause, head, map[]).Success?
  }

  /** Append a name to a dependency list unless the list already holds it. */
  function AddDep(deps: seq<string>, n: string): (r: seq<string>)
    ensures forall x :: x in r <==> x in deps || x == n
    ensures Distinct(deps) ==> Distinct(r)
  {
    if n in deps then deps else deps + [n]
  }

  /** The other rules, from index `j` on, whose heads condition `c` of rule `i` may use. */
  ghost predicate UsedFrom(rules: seq<Rule>, uses: (Condition, Clause) -> bool, i: nat, c: Condition, j: nat, x: string) {
    exists j' | j <= j' < |rules| :: j' != i && uses(c, rules[j'].head) && RuleName(rules[j']) == x
  }

  /** The innermost loop: over the other rules `j`, for condition `c` of rule `i`. */
  function HeadsUsed(rules: seq<Rule>, uses: (Condition, Clause) -> bool, i: nat, c: Condition, j: nat, deps: seq<string>): (r: seq<string>)
    requires j <= |rules|
    ensures forall x :: x in r <==> x in deps || UsedFrom(rules, uses, i, c, j, x)
    ensures Distinct(deps) ==> Distinct(r)
    decreases |rules| - j
  {
    if j == |rules| then deps
    else
      var deps' := if j == i || !uses(c, rules[j].head) then deps else AddDep(deps, RuleName(rules[j]));
      UsedFromStep(rules, uses, i, c, j);
      HeadsUsed(rules, uses, i, c, j + 1, deps')
  }

  /** Peeling rule `j` off the front of `UsedFrom`. */
  lemma UsedFromStep(rules: seq<Rule>, uses: (Condition, Clause) -> bool, i: nat, c: Condition, j: nat)
    requires j < |rules|
    ensures forall x :: UsedFrom(rules, uses, i, c, j, x) <==>
      (j != i && uses(c, rules[j].head) && RuleName(rules[j]) == x) || UsedFrom(rules, uses, i, c, j + 1, x)
  {
    forall x ensures UsedFrom(rules, uses, i, c, j, x) <==>
      (j != i && uses(c, rules[j].head) && RuleName(rules[j]) == x) || UsedFrom(rules, uses, i, c, j + 1, x)
    {
      if UsedFrom(rules, uses, i, c, j, x) {
        var j' :| j <= j' < |rules| && j' != i && uses(c, rules[j'].head) && RuleName(rules[j']) == x;
        if j' > j {
          assert UsedFrom(rules, uses, i, c, j + 1, x);
        }
      }
    }
  }

  /** Some non-built-in condition of rule `i`, from index `k` on, may use a rule named `x`. */
  ghost predicate CondUsesFrom(rules: seq<Rule>, uses: (Condition, Clause) -> bool, i: nat, k: nat, x: string)
    requires i < |rules|
  {
    exists k' | k <= k' < |rules[i].conditions| ::
      !IsBuiltin(rules[i].conditions[k'].clause.name) && UsedFrom(rules, uses, i, rules[i].conditions[k'], 0, x)
  }

  /** The middle loop: over the conditions of rule `i`, skipping built-ins. */
  function ConditionsUse(rules: seq<Rule>, uses: (Condition, Clause) -> bool, i: nat, k: nat, deps: seq<string>): (r: seq<string>)
    requires i < |rules| && k <= |rules[i].conditions|
    ensures forall x :: x in r <==> x in deps || CondUsesFrom(rules, uses, i, k, x)
    ensures Distinct(deps) ==> Distinct(r)
    decreases |rules[i].conditions| - k
  {
    if k == |rules[i].conditions| then deps
    else
      var c := rules[i].conditions[k];
      var deps' := if IsBuiltin(c.clause.name) then deps else HeadsUsed(rules, uses, i, c, 0, deps);
      CondUsesStep(rules, uses, i, k);
      ConditionsUse(rules, uses, i, k + 1, deps')
  }

  /** Peeling condition `k` off the front of `CondUsesFrom`. */
  lemma CondUsesStep(rules: seq<Rule>, uses: (Condition, Clause) -> bool, i: nat, k: nat)
    requires i < |rules| && k < |rules[i].conditions|
    ensures forall x :: CondUsesFrom(rules, uses, i, k, x) <==>
      (!IsBuiltin(rules[i].conditions[k].clause.name) && UsedFrom(rules, uses, i, rules[i].conditions[k], 0, x))
      || CondUsesFrom(rules, uses, i, k + 1, x)
  {
    var cs := rules[i].conditions;
    forall x ensures CondUsesFrom(rules, uses, i, k, x) <==>
      (!IsBuiltin(cs[k].clause.name) && UsedFrom(rules, uses, i, cs[k], 0, x)) || CondUsesFrom(rules, uses, i, k + 1, x)
    {
      if CondUsesFrom(rules, uses, i, k, x) {
        var k' :| k <= k' < |cs| && !IsBuiltin(cs[k'].clause.name) && UsedFrom(rules, uses, i, cs[k'], 0, x);
        if k' > k {
          assert CondUsesFrom(rules, uses, i, k + 1, x);
        }
      }
    }
  }

  /** Rule `i` has a name of its own in the graph, created empty the first time the name is met. */
  function AddRule(g: Graph, rules: seq<Rule>, uses: (Condition, Clause) -> bool, i: nat): Graph
    requires i < |rules|
  {
    var n := RuleName(rules[i]);
    var g' := WithName(g, rules, i);
    Graph(g'.keys, g'.edges[n := ConditionsUse(rules, uses, i, 0, g'.edges[n])])
  }

  /** The outer loop, over the rules from index `i` on. */
  function BuildFrom(g: Graph, rules: seq<Rule>, uses: (Condition, Clause) -> bool, i: nat): Graph
    requires i <= |rules|
    decreases |rules| - i
  {
    if i == |rules| then g else BuildFrom(AddRule(g, rules, uses, i), rules, uses, i + 1)
  }

  /** `buildDependencyGraph`, with the edge test `uses`. */
  function BuildDependencyGraph(rules: seq<Rule>, uses: (Condition, Clause) -> bool): Graph {
    BuildFrom(Graph([], map[]), rules, uses, 0)
  }

  // ---------------------------------------------------------------------------
  // What the graph holds
  // ---------------------------------------------------------------------------

  /**
   * Rule `i`, named `a`, has a condition that is not a built-in and that may use the head
   * of a different rule `j`, named `b`.
   */
  ghost predicate DependsOn(rules: seq<Rule>, uses: (Condition, Clause) -> bool, a: string, b: string) {
    exists i | 0 <= i < |rules| :: RuleName(rules[i]) == a && CondUsesFrom(rules, uses, i, 0, b)
  }

  ghost predicate IsRuleName(rules: seq<Rule>, n: string) {
    exists i | 0 <= i < |rules| :: RuleName(rules[i]) == n
  }

  /** The graph after the rules before index `i`. */
  ghost predicate BuiltUpTo(g: Graph, rules: seq<Rule>, uses: (Condition, Clause) -> bool, i: nat)
    requires i <= |rules|
  {
    && WellFormed(g)
    && (forall n :: n in g.edges <==> exists i' | 0 <= i' < i :: RuleName(rules[i']) == n)
    && (forall a | a in g.edges :: Distinct(g.edges[a]))
    && (forall a, b | a in g.edges :: b in g.edges[a] <==>
          exists i' | 0 <= i' < i :: RuleName(rules[i']) == a && CondUsesFrom(rules, uses, i', 0, b))
  }

  /** The graph with rule `i`'s name present, before its deps are added. */
  function WithName(g: Graph, rules: seq<Rule>, i: nat): Graph
    requires i < |rules|
  {
    var n := RuleName(rules[i]);
    if n in g.edges then g else Graph(g.keys + [n], g.edges[n := []])
  }

  /** Adding rule `i` adds its name to the keys and no other. */
  lemma AddRuleKeys(g: Graph, rules: seq<Rule>, uses: (Condition, Clause) -> bool, i: nat)
    requires i < |rules| && BuiltUpTo(g, rules, uses, i)
    ensures WellFormed(AddRule(g, rules, uses, i))
    ensures forall a | a in AddRule(g, rules, uses, i).edges :: Distinct(AddRule(g, rules, uses, i).edges[a])
    ensures forall m :: m in AddRule(g, rules, uses, i).edges <==> exists i' | 0 <= i' < i + 1 :: RuleName(rules[i']) == m
  {
    var n := RuleName(rules[i]);
    var g' := WithName(g, rules, i);
    assert WellFormed(g') && Distinct(g'.edges[n]);
    var r := AddRule(g, rules, uses, i);
    assert r.edges == g'.edges[n := ConditionsUse(rules, uses, i, 0, g'.edges[n])];
    forall m ensures m in r.edges <==> exists i' | 0 <= i' < i + 1 :: RuleName(rules[i']) == m {
      if m in r.edges && m != n {
        var i' :| 0 <= i' < i && RuleName(rules[i']) == m;
      }
    }
  }

  /** Adding rule `i` adds the names its conditions may use to the deps of its name. */
  lemma AddRuleEdges(g: Graph, rules: seq<Rule>, uses: (Condition, Clause) -> bool, i: nat, a: string, b: string)
    requires i < |rules| && BuiltUpTo(g, rules, uses, i) && a in AddRule(g, rules, uses, i).edges
    ensures b in AddRule(g, rules, uses, i).edges[a] <==>
      exists i' | 0 <= i' < i + 1 :: RuleName(rules[i']) == a && CondUsesFrom(rules, uses, i', 0, b)
  {
    var n := RuleName(rules[i]);
    var g' := WithName(g, rules, i);
    var r := AddRule(g, rules, uses, i);
    assert r.edges == g'.edges[n := ConditionsUse(rules, uses, i, 0, g'.edges[n])];
    if a != n {
      assert r.edges[a] == g.edges[a];
      OtherRulesEarlier(rules, uses, i, a, b);
    }
  }

  /** A name other than rule `i`'s gets its deps from the rules before `i`. */
  lemma OtherRulesEarlier(rules: seq<Rule>, uses: (Condition, Clause) -> bool, i: nat, a: string, b: string)
    requires i < |rules| && a != RuleName(rules[i])
    ensures (exists i' | 0 <= i' < i + 1 :: RuleName(rules[i']) == a && CondUsesFrom(rules, uses, i', 0, b)) <==>
      (exists i' | 0 <= i' < i :: RuleName(rules[i']) == a && CondUsesFrom(rules, uses, i', 0, b))
  {
    if exists i' | 0 <= i' < i + 1 :: RuleName(rules[i']) == a && CondUsesFrom(rules, uses, i', 0, b) {
      var i' :| 0 <= i' < i + 1 && RuleName(rules[i']) == a && CondUsesFrom(rules, uses, i', 0, b);
      assert i' < i;
    }
  }

  lemma AddRuleStep(g: Graph, rules: seq<Rule>, uses: (Condition, Clause) -> bool, i: nat)
    requires i < |rules| && BuiltUpTo(g, rules, uses, i)
    ensures BuiltUpTo(AddRule(g, rules, uses, i), rules, uses, i + 1)
  {
    AddRuleKeys(g, rules, uses, i);
    var r := AddRule(g, rules, uses, i);
    forall a, b | a in r.edges
      ensures b in r.edges[a] <==>
        exists i' | 0 <= i' < i + 1 :: RuleName(rules[i']) == a && CondUsesFrom(rules, uses, i', 0, b)
    {
      AddRuleEdges(g, rules, uses, i, a, b);
    }
  }

  lemma {:induction false} BuildFromBuilds(g: Graph, rules: seq<Rule>, uses: (Condition, Clause) -> bool, i: nat)
    requires i <= |rules| && BuiltUpTo(g, rules, uses, i)
    ensures BuiltUpTo(BuildFrom(g, rules, uses, i), rules, uses, |rules|)
    decreases |rules| - i
  {
    if i < |rules| {
      var g' := AddRule(g, rules, uses, i);
      AddRuleStep(g, rules, uses, i);
      BuildFromBuilds(g', rules, uses, i + 1);
      assert BuildFrom(g, rules, uses, i) == BuildFrom(g', rules, uses, i + 1);
    }
  }

  /**
   * The graph has one key per rule name, lists no dependency twice, and has an edge from
   * `a` to `b` exactly when a rule named `a` has a condition that may use a different rule
   * named `b`. Every dependency is itself a key.
   */
  lemma BuildDependencyGraphBuilds(rules: seq<Rule>, uses: (Condition, Clause) -> bool)
    ensures WellFormed(BuildDependencyGraph(rules, uses)) && Closed(BuildDependencyGraph(rules, uses))
    ensures forall n :: n in BuildDependencyGraph(rules, uses).edges <==> IsRuleName(rules, n)
    ensures forall a | a in BuildDependencyGraph(rules, uses).edges :: Distinct(BuildDependencyGraph(rules, uses).edges[a])
    ensures forall a, b :: Edge(BuildDependencyGraph(rules, uses), a, b) <==> DependsOn(rules, uses, a, b)
  {
    BuildFromBuilds(Graph([], map[]), rules, uses, 0);
    BuiltGraphHolds(BuildDependencyGraph(rules, uses), rules, uses);
  }

  /** A graph built from all the rules is closed, and its edges are the dependencies. */
  lemma BuiltGraphHolds(g: Graph, rules: seq<Rule>, uses: (Condition, Clause) -> bool)
    requires BuiltUpTo(g, rules, uses, |rules|)
    ensures WellFormed(g) && Closed(g)
    ensures forall n :: n in g.edges <==> IsRuleName(rules, n)
    ensures forall a | a in g.edges :: Distinct(g.edges[a])
    ensures forall a, b :: Edge(g, a, b) <==> DependsOn(rules, uses, a, b)
  {
    forall a, b | a in g.edges && b in g.edges[a] ensures b in g.edges {
      var i :| 0 <= i < |rules| && RuleName(rules[i]) == a && CondUsesFrom(rules, uses, i, 0, b);
      UsedNameIsRuleName(rules, uses, i, b);
    }
    forall a, b | DependsOn(rules, uses, a, b) ensures a in g.edges {
      var i :| 0 <= i < |rules| && RuleName(rules[i]) == a && CondUsesFrom(rules, uses, i, 0, b);
    }
  }

  /** A name that a condition may use is the name of a rule. */
  lemma UsedNameIsRuleName(rules: seq<Rule>, uses: (Condition, Clause) -> bool, i: nat, b: string)
    requires i < |rules| && CondUsesFrom(rules, uses, i, 0, b)
    ensures IsRuleName(rules, b)
  {
    var k :| 0 <= k < |rules[i].conditions| &&
      !IsBuiltin(rules[i].conditions[k].clause.name) && UsedFrom(rules, uses, i, rules[i].conditions[k], 0, b);
    var j :| 0 <= j < |rules| && j != i && uses(rules[i].conditions[k], rules[j].head) && RuleName(rules[j]) == b;
  }

  /** The graph of any program can be stratified: every name a rule depends on is a rule's name. */
  lemma DependencyGraphStratifies(rules: seq<Rule>, uses: (Condition, Clause) -> bool)
    ensures WellFormed(BuildDependencyGraph(rules, uses))
    ensures Stratify(BuildDependencyGraph(rules, uses)).Success?
  {
    BuildDependencyGraphBuilds(rules, uses);
  }

  // ---------------------------------------------------------------------------
  // Negated conditions as written
  // ---------------------------------------------------------------------------

  function Fact(name: string): Rule {
    Rule(Clause(name, []), [])
  }

  /** `p :- r, ~q.  q :- r, ~p.  r.` */
  function MutualNegation(): seq<Rule> {
    [ Rule(Clause("p", []), [Pos(Clause("r", [])), Neg(Clause("q", []))]),
      Rule(Clause("q", []), [Pos(Clause("r", [])), Neg(Clause("p", []))]),
      Fact("r") ]
  }

  lemma NamesOfMutualNegation()
    ensures RuleName(MutualNegation()[0]) == "p"
    ensures RuleName(MutualNegation()[1]) == "q"
    ensures RuleName(MutualNegation()[2]) == "r"
  {
    NoArgsName("p");
    NoArgsName("q");
    NoArgsName("r");
  }

  /**
   * As written, `p` and `q` only depend on `r`: recursion through negation goes unseen,
   * so the program is accepted. With negated conditions unified through their clause, `p`
   * and `q` depend on each other and end up in one stratum, which the negated-goal check
   * then reports.
   */
  lemma NegatedConditionsGiveNoEdges()
    ensures !DependsOn(MutualNegation(), MayUseAsWritten, "p", "q")
    ensures DependsOn(MutualNegation(), MayUse, "p", "q")
    ensures DependsOn(MutualNegation(), MayUse, "q", "p")
  {
    AsWrittenOnlyR();
    NamesOfMutualNegation();
    NegationUsed(0, 1);
    NegationUsed(1, 0);
  }

  /** As written, every edge of the program leads to `r`. */
  lemma AsWrittenOnlyR()
    ensures !DependsOn(MutualNegation(), MayUseAsWritten, "p", "q")
  {
    var rules := MutualNegation();
    NamesOfMutualNegation();
    forall i, k, j | 0 <= i < 3 && 0 <= k < |rules[i].conditions| && 0 <= j < 3 &&
      MayUseAsWritten(rules[i].conditions[k], rules[j].head)
      ensures RuleName(rules[j]) == "r"
    {
      assert rules[i].conditions[k] == Pos(Clause("r", []));
      assert rules[j].head.name == "r";
    }
  }

  /** With negated conditions unified, rule `i` depends on rule `j` through its negated condition. */
  lemma NegationUsed(i: nat, j: nat)
    requires (i == 0 && j == 1) || (i == 1 && j == 0)
    ensures DependsOn(MutualNegation(), MayUse, RuleName(MutualNegation()[i]), RuleName(MutualNegation()[j]))
  {
    var rules := MutualNegation();
    var c := rules[i].conditions[1];
    assert c == Neg(rules[j].head);
    assert !IsBuiltin(c.clause.name);
    assert MayUse(c, rules[j].head);
    assert UsedFrom(rules, MayUse, i, c, 0, RuleName(rules[j]));
    assert CondUsesFrom(rules, MayUse, i, 0, RuleName(rules[j]));
  }
}
