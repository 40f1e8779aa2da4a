/**
 * `computeStrata`: the dependency graph of a program's rules is stratified, and each
 * stratum of names becomes a stratum of rules (`translateRuleNamesToRules`) whose deps
 * point at other strata, here by index.
 */
module Program {
  import opened Wrappers
  import opened Graphs
  import opened Scc
  import opened Strata
  import opened Terms
  import opened Names
  import opened DepGraph
  import opened Builtins

  /** A stratum of rules: its rules in program order, its rule names, and the strata it depends on. */
  datatype RuleStratum = RuleStratum(rules: seq<Rule>, names: seq<string>, deps: seq<nat>)

  /** The rules whose names are among `names`, in program order. */
  function RulesNamed(rules: seq<Rule>, names: seq<string>): (r: seq<Rule>)
    ensures forall x :: x in r <==> x in rules && RuleName(x) in names
    ensures |r| <= |rules|
  {
    if rules == [] then []
    else (if RuleName(rules[0]) in names then [rules[0]] else []) + RulesNamed(rules[1..], names)
  }

  /** The first stratum that has `n` among its members. */
  function FindStratum(ss: seq<Stratum>, n: string): (r: Option<nat>)
    ensures r.Some? ==> r.value < |ss| && n in ss[r.value].members
    ensures r.None? <==> forall j | 0 <= j < |ss| :: n !in ss[j].members
  {
    if ss == [] then None
    else if n in ss[0].members then Some(0)
    else
      match FindStratum(ss[1..], n)
      case None => None
      case Some(j) => Some(j + 1)
  }

  /** The strata that the names `ds` belong to; a name in no stratum fails the sanity check. */
  function DepIndices(ss: seq<Stratum>, ds: seq<string>): (r: Result<seq<nat>, string>)
    ensures r.Success? ==> |r.value| == |ds|
    ensures r.Success? ==> forall k | 0 <= k < |ds| :: FindStratum(ss, ds[k]) == Some(r.value[k])
    ensures r.Failure? <==> exists k | 0 <= k < |ds| :: FindStratum(ss, ds[k]).None?
  {
    if ds == [] then Success([])
    else
      match FindStratum(ss, ds[0])
      case None => Failure("stratum " + ds[0] + " not found")
      case Some(j) =>
        var rest :- DepIndices(ss, ds[1..]);
        assert forall k | 1 <= k < |ds| :: ds[k] == ds[1..][k - 1];
        Success([j] + rest)
  }

  /**
   * `translateRuleNamesToRules`: each stratum keeps its names, gathers the rules with
   * those names, and points each dep at the stratum holding that name.
   */
  function TranslateRuleNamesToRules(ss: seq<Stratum>, rules: seq<Rule>): (r: Result<seq<RuleStratum>, string>)
    ensures r.Failure? <==> exists k | 0 <= k < |ss| :: DepIndices(ss, ss[k].deps).Failure?
    ensures r.Success? ==> |r.value| == |ss|
    ensures r.Success? ==> forall k | 0 <= k < |ss| ::
      && r.value[k].names == ss[k].members
      && r.value[k].rules == RulesNamed(rules, ss[k].members)
      && DepIndices(ss, ss[k].deps) == Success(r.value[k].deps)
  {
    if exists k | 0 <= k < |ss| :: DepIndices(ss, ss[k].deps).Failure? then
      Failure("failed sanity check: a dependency names no stratum")
    else
      Success(seq(|ss|, k requires 0 <= k < |ss| =>
        RuleStratum(RulesNamed(rules, ss[k].members), ss[k].members, DepIndices(ss, ss[k].deps).value)))
  }

  /**
   * `computeStrata` over the edge test `uses`: `MayUseAsWritten` gives the engine's strata,
   * `MayUse` the strata with an edge for every negated condition too.
   */
  function ComputeStrata(rules: seq<Rule>, uses: (Condition, Clause) -> bool): Result<seq<RuleStratum>, string> {
    var g := BuildDependencyGraph(rules, uses);
    DependencyGraphStratifies(rules, uses);
    TranslateRuleNamesToRules(Stratify(g).value, rules)
  }

  // ---------------------------------------------------------------------------
  // What the strata of a program satisfy
  // ---------------------------------------------------------------------------

  /** Every dep of a stratum is an earlier stratum. */
  predicate DepsEarlier(rs: seq<RuleStratum>) {
    forall i, d | 0 <= i < |rs| && d in rs[i].deps :: d < i
  }

  /** Every rule sits in exactly the strata that list its name. */
  ghost predicate RulesPlaced(rs: seq<RuleStratum>, rules: seq<Rule>) {
    forall i, x | 0 <= i < |rs| :: x in rs[i].rules <==> x in rules && RuleName(x) in rs[i].names
  }

  lemma PlacedRuleIsRule(ss: seq<RuleStratum>, rules: seq<Rule>, j: nat, x: Rule)
    requires RulesPlaced(ss, rules) && j < |ss| && x in ss[j].rules
    ensures x in rules
  {
  }

  /** A stratum's leader is one of its members. */
  lemma LeaderIsMember(g: Graph, ss: seq<Stratum>, k: nat)
    requires Partition(g, ss) && k < |ss|
    ensures ss[k].leader in ss[k].members
  {
    assert IsComponent(g, ss[k]);
    ReachRefl(g, ss[k].leader);
  }

  /** In sorted strata, every dep name is found in an earlier stratum. */
  lemma DepFoundEarlier(g: Graph, ss: seq<Stratum>, i: nat, d: string)
    requires Partition(g, ss) && ReadyFrom(ss, 0) && i < |ss| && d in ss[i].deps
    ensures FindStratum(ss, d).Some? && FindStratum(ss, d).value < i
  {
    assert Ready(ss[i], ss[..i]);
    var k :| 0 <= k < i && Leaders(ss[..i])[k] == d;
    assert ss[k].leader == d;
    LeaderIsMember(g, ss, k);
    var j := FindStratum(ss, d).value;
    assert d in ss[j].members && d in ss[k].members;
  }

  /** Sorted strata translate, with every dep pointing at an earlier stratum. */
  lemma TranslateOrders(g: Graph, ss: seq<Stratum>, rules: seq<Rule>)
    requires Partition(g, ss) && ReadyFrom(ss, 0)
    ensures TranslateRuleNamesToRules(ss, rules).Success?
    ensures DepsEarlier(TranslateRuleNamesToRules(ss, rules).value)
    ensures RulesPlaced(TranslateRuleNamesToRules(ss, rules).value, rules)
  {
    forall k | 0 <= k < |ss| ensures DepIndices(ss, ss[k].deps).Success? {
      forall m | 0 <= m < |ss[k].deps| ensures FindStratum(ss, ss[k].deps[m]).Some? {
        DepFoundEarlier(g, ss, k, ss[k].deps[m]);
      }
    }
    var rs := TranslateRuleNamesToRules(ss, rules).value;
    forall i, d | 0 <= i < |rs| && d in rs[i].deps ensures d < i {
      var m :| 0 <= m < |rs[i].deps| && rs[i].deps[m] == d;
      DepFoundEarlier(g, ss, i, ss[i].deps[m]);
    }
  }

  /** Every rule of the program sits in some stratum. */
  ghost predicate RulesCovered(rs: seq<RuleStratum>, rules: seq<Rule>) {
    forall x | x in rules :: exists i | 0 <= i < |rs| :: x in rs[i].rules
  }

  /** Every stratum holds at least one rule. */
  predicate NoEmptyStratum(rs: seq<RuleStratum>) {
    forall i | 0 <= i < |rs| :: |rs[i].rules| > 0
  }

  /** No rule name is listed by two strata. */
  predicate NamesDisjoint(rs: seq<RuleStratum>) {
    forall i, j, n | 0 <= i < |rs| && 0 <= j < |rs| && n in rs[i].names && n in rs[j].names :: i == j
  }

  /**
   * Whenever a condition of rule `a` that is not a built-in may use the head of rule `b`,
   * the stratum of `b` is that of `a` or an earlier one, and it is the same stratum exactly
   * when the two rule names are mutually dependent.
   */
  ghost predicate UsesGoBack(rs: seq<RuleStratum>, rules: seq<Rule>, uses: (Condition, Clause) -> bool) {
    forall a, b, k, i, j |
      && 0 <= a < |rules| && 0 <= b < |rules| && 0 <= k < |rules[a].conditions|
      && !IsBuiltin(rules[a].conditions[k].clause.name) && uses(rules[a].conditions[k], rules[b].head)
      && 0 <= i < |rs| && 0 <= j < |rs| && rules[a] in rs[i].rules && rules[b] in rs[j].rules ::
      && j <= i
      && (j == i <==> SameScc(BuildDependencyGraph(rules, uses), RuleName(rules[a]), RuleName(rules[b])))
  }

  /** The rules of a stratum of names, once translated, are those of the names in the stratum. */
  lemma TranslateKeepsNames(ss: seq<Stratum>, rules: seq<Rule>, rs: seq<RuleStratum>)
    requires TranslateRuleNamesToRules(ss, rules) == Success(rs)
    ensures |rs| == |ss| && forall i | 0 <= i < |rs| :: rs[i].names == ss[i].members
  {
  }

  /** A partition of the rule names translates into strata that cover every rule, once each. */
  lemma TranslateCovers(rules: seq<Rule>, uses: (Condition, Clause) -> bool, ss: seq<Stratum>, rs: seq<RuleStratum>)
    requires Partition(BuildDependencyGraph(rules, uses), ss)
    requires TranslateRuleNamesToRules(ss, rules) == Success(rs) && RulesPlaced(rs, rules)
    ensures RulesCovered(rs, rules) && NamesDisjoint(rs) && NoEmptyStratum(rs)
  {
    var g := BuildDependencyGraph(rules, uses);
    BuildDependencyGraphBuilds(rules, uses);
    TranslateKeepsNames(ss, rules, rs);
    forall i | 0 <= i < |rs| ensures |rs[i].rules| > 0 {
      LeaderIsMember(g, ss, i);
      var n := ss[i].leader;
      assert IsComponent(g, ss[i]);
      assert IsRuleName(rules, n);
      var a :| 0 <= a < |rules| && RuleName(rules[a]) == n;
      assert rules[a] in rs[i].rules;
    }
    forall x | x in rules ensures exists i | 0 <= i < |rs| :: x in rs[i].rules {
      var a :| 0 <= a < |rules| && rules[a] == x;
      assert IsRuleName(rules, RuleName(x));
      var i :| 0 <= i < |ss| && RuleName(x) in ss[i].members;
      assert x in rs[i].rules;
    }
  }

  /** One instance of `UsesGoBack`, from the edge that the condition puts in the graph. */
  lemma UseGoesBack(rules: seq<Rule>, uses: (Condition, Clause) -> bool, ss: seq<Stratum>, rs: seq<RuleStratum>,
                    a: nat, b: nat, k: nat, i: nat, j: nat)
    requires Partition(BuildDependencyGraph(rules, uses), ss) && DepsExact(BuildDependencyGraph(rules, uses), ss) && ReadyFrom(ss, 0)
    requires TranslateRuleNamesToRules(ss, rules) == Success(rs) && RulesPlaced(rs, rules)
    requires a < |rules| && b < |rules| && k < |rules[a].conditions|
    requires !IsBuiltin(rules[a].conditions[k].clause.name) && uses(rules[a].conditions[k], rules[b].head)
    requires i < |rs| && j < |rs| && rules[a] in rs[i].rules && rules[b] in rs[j].rules
    ensures j <= i
    ensures j == i <==> SameScc(BuildDependencyGraph(rules, uses), RuleName(rules[a]), RuleName(rules[b]))
  {
    var g := BuildDependencyGraph(rules, uses);
    BuildDependencyGraphBuilds(rules, uses);
    TranslateKeepsNames(ss, rules, rs);
    var n, m := RuleName(rules[a]), RuleName(rules[b]);
    assert n in ss[i].members && m in ss[j].members;
    if a == b {
      assert IsRuleName(rules, n);
      ReachRefl(g, n);
    } else {
      assert UsedFrom(rules, uses, a, rules[a].conditions[k], 0, m);
      assert CondUsesFrom(rules, uses, a, 0, m);
      assert DependsOn(rules, uses, n, m);
      EdgesGoBack(g, ss, i, j, n, m);
    }
  }

  /** Sorted strata of the dependency graph translate into strata whose uses point back. */
  lemma TranslateGoesBack(rules: seq<Rule>, uses: (Condition, Clause) -> bool, ss: seq<Stratum>, rs: seq<RuleStratum>)
    requires Partition(BuildDependencyGraph(rules, uses), ss) && DepsExact(BuildDependencyGraph(rules, uses), ss) && ReadyFrom(ss, 0)
    requires TranslateRuleNamesToRules(ss, rules) == Success(rs) && RulesPlaced(rs, rules)
    ensures UsesGoBack(rs, rules, uses)
  {
    forall a, b, k, i, j |
      && 0 <= a < |rules| && 0 <= b < |rules| && 0 <= k < |rules[a].conditions|
      && !IsBuiltin(rules[a].conditions[k].clause.name) && uses(rules[a].conditions[k], rules[b].head)
      && 0 <= i < |rs| && 0 <= j < |rs| && rules[a] in rs[i].rules && rules[b] in rs[j].rules
      ensures j <= i
      ensures j == i <==> SameScc(BuildDependencyGraph(rules, uses), RuleName(rules[a]), RuleName(rules[b]))
    {
      UseGoesBack(rules, uses, ss, rs, a, b, k, i, j);
    }
  }

  /**
   * The strata of any program, under any edge test, come out in dependency order: the
   * translation always succeeds, no stratum is empty, every rule lands in exactly one
   * stratum, the one of its name, every dep is an earlier stratum, and a rule only uses
   * rules of its own stratum, when they are mutually dependent, or of earlier ones.
   */
  lemma ComputeStrataOrders(rules: seq<Rule>, uses: (Condition, Clause) -> bool)
    ensures ComputeStrata(rules, uses).Success?
    ensures DepsEarlier(ComputeStrata(rules, uses).value)
    ensures RulesPlaced(ComputeStrata(rules, uses).value, rules)
    ensures RulesCovered(ComputeStrata(rules, uses).value, rules)
    ensures NamesDisjoint(ComputeStrata(rules, uses).value)
    ensures NoEmptyStratum(ComputeStrata(rules, uses).value)
    ensures UsesGoBack(ComputeStrata(rules, uses).value, rules, uses)
  {
    var g := BuildDependencyGraph(rules, uses);
    DependencyGraphStratifies(rules, uses);
    var ss := Stratify(g).value;
    TranslateOrders(g, ss, rules);
    var rs := TranslateRuleNamesToRules(ss, rules).value;
    TranslateCovers(rules, uses, ss, rs);
    TranslateGoesBack(rules, uses, ss, rs);
  }

  /** The strata of a program, which always come out in dependency order. */
  function ProgramStrata(rules: seq<Rule>, uses: (Condition, Clause) -> bool): (ss: seq<RuleStratum>)
    ensures DepsEarlier(ss) && RulesPlaced(ss, rules)
    ensures RulesCovered(ss, rules) && NamesDisjoint(ss) && NoEmptyStratum(ss) && UsesGoBack(ss, rules, uses)
  {
    ComputeStrataOrders(rules, uses);
    ComputeStrata(rules, uses).value
  }
}
