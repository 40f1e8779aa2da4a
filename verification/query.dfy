/**
 * Queries over a database: `factsFor` picks the facts that answer a clause, and
 * `onlyDependenciesOf` prunes a program down to the strata a clause can depend on.
 */
module Query {
  import opened Literals
  import opened Graphs
  import opened Terms
  import opened Unification
  import opened Builtins
  import opened Program

  /**
   * A rule without conditions whose head unifies with the clause, with `Variable.unify` as
   * written (any error, a recursion without end included, counts as no).
   */
  predicate Answers(r: Rule, c: Clause) {
    r.conditions == [] && UnifyClausesAsWritten(r.head, c, map[]).Success?
  }

  /** `factsFor`: the facts of the database that unify with the clause, in database order. */
  function FactsFor(rules: seq<Rule>, c: Clause): (r: seq<Rule>)
    ensures forall x :: x in r <==> x in rules && Answers(x, c)
    ensures |r| <= |rules|
  {
    if rules == [] then []
    else (if Answers(rules[0], c) then [rules[0]] else []) + FactsFor(rules[1..], c)
  }

  /**
   * `factsFor` filters in database order and keeps repeats: the answers from a database
   * split in two are the answers from its first part followed by those from its second.
   */
  lemma {:induction false} FactsForAppend(a: seq<Rule>, b: seq<Rule>, c: Clause)
    ensures FactsFor(a + b, c) == FactsFor(a, c) + FactsFor(b, c)
    decreases |a|
  {
    if a != [] {
      assert (a + b)[1..] == a[1..] + b;
      FactsForAppend(a[1..], b, c);
    } else {
      assert a + b == b;
    }
  }

  /** A single rule is its own answer exactly when it answers the clause. */
  lemma FactsForOne(x: Rule, c: Clause)
    ensures FactsFor([x], c) == if Answers(x, c) then [x] else []
  {
    assert [x][1..] == [];
  }

  /**
   * Against a clause of values, the facts of values that answer it are exactly the facts
   * equal to it.
   */
  lemma FactsForGround(rules: seq<Rule>, c: Clause, x: Rule)
    requires Ground(c) && x in rules && Ground(x.head)
    ensures x in FactsFor(rules, c) <==> x.conditions == [] && x.head == c
  {
    if x.head.name == c.name && |x.head.args| == |c.args| {
      AsWrittenAgreesOnFacts(x.head.args, c.args, map[]);
      UnifyArgsValues(x.head.args, c.args, map[]);
      if x.head.args == c.args {
        assert x.head == c;
      }
    }
  }

  // ---------------------------------------------------------------------------
  // onlyDependenciesOf
  // ---------------------------------------------------------------------------

  /** The strata reachable from stratum `i` through deps, `i` included. */
  function Below(ss: seq<RuleStratum>, i: nat): (r: set<nat>)
    requires DepsEarlier(ss) && i < |ss|
    ensures i in r && forall j | j in r :: j <= i
    decreases i
  {
    {i} + (set d, j | d in ss[i].deps && j in Below(ss, d) :: j)
  }

  /** Every stratum listed comes after the strata it depends on. */
  ghost predicate DepsFirst(ss: seq<RuleStratum>, acc: seq<nat>) {
    && (forall p | 0 <= p < |acc| :: acc[p] < |ss|)
    && forall p, d | 0 <= p < |acc| && d in ss[acc[p]].deps :: d in acc[..p]
  }

  /** What a step of `addTransitiveDeps` keeps. */
  ghost predicate Grows(ss: seq<RuleStratum>, acc: seq<nat>, r: seq<nat>)
    requires DepsEarlier(ss)
  {
    && acc <= r
    && (Distinct(acc) ==> Distinct(r))
    && (DepsFirst(ss, acc) ==> DepsFirst(ss, r))
  }

  /**
   * `addTransitiveDeps(stratum)`: the deps' own deps first, then the stratum itself unless
   * already listed.
   */
  function AddTransitiveDeps(ss: seq<RuleStratum>, i: nat, acc: seq<nat>): (r: seq<nat>)
    requires DepsEarlier(ss) && i < |ss|
    ensures Grows(ss, acc, r) && i in r
    ensures forall j | j in r :: j in acc || j in Below(ss, i)
    decreases i, 1, 0
  {
    var acc' := AddDepsOf(ss, i, 0, acc);
    if i in acc' then acc'
    else
      var r := acc' + [i];
      assert DepsFirst(ss, acc') ==> DepsFirst(ss, r) by {
        if DepsFirst(ss, acc') {
          forall p, d | 0 <= p < |r| && d in ss[r[p]].deps ensures d in r[..p] {
            if p < |acc'| {
              assert r[..p] == acc'[..p];
            } else {
              assert r[..p] == acc';
            }
          }
        }
      }
      r
  }

  /** The loop of `addTransitiveDeps` over the deps of stratum `i`, from the `m`-th on. */
  function AddDepsOf(ss: seq<RuleStratum>, i: nat, m: nat, acc: seq<nat>): (r: seq<nat>)
    requires DepsEarlier(ss) && i < |ss| && m <= |ss[i].deps|
    ensures Grows(ss, acc, r)
    ensures forall j | j in r :: j in acc || j in Below(ss, i)
    ensures forall k | m <= k < |ss[i].deps| :: ss[i].deps[k] in r
    decreases i, 0, |ss[i].deps| - m
  {
    if m == |ss[i].deps| then acc
    else
      var d := ss[i].deps[m];
      assert d in ss[i].deps;
      var acc' := AddTransitiveDeps(ss, d, acc);
      AddDepsOf(ss, i, m + 1, acc')
  }

  /** A list that has every stratum after its deps holds everything below each of its strata. */
  lemma {:induction false} DepsFirstCloses(ss: seq<RuleStratum>, acc: seq<nat>, i: nat)
    requires DepsEarlier(ss) && i < |ss| && DepsFirst(ss, acc) && i in acc
    ensures forall j | j in Below(ss, i) :: j in acc
    decreases i
  {
    var p :| 0 <= p < |acc| && acc[p] == i;
    forall j | j in Below(ss, i) ensures j in acc {
      if j != i {
        var d :| d in ss[i].deps && j in Below(ss, d);
        assert d in acc[..p];
        DepsFirstCloses(ss, acc, d);
      }
    }
  }

  /** A root stratum for the clause: one of its rules has a head that unifies with it (`Variable.unify` as written). */
  predicate IsRoot(s: RuleStratum, c: Clause) {
    exists j | 0 <= j < |s.rules| :: UnifyClausesAsWritten(s.rules[j].head, c, map[]).Success?
  }

  /** `j` is below some root stratum from the `i`-th on. */
  ghost predicate BelowRootFrom(ss: seq<RuleStratum>, c: Clause, i: nat, j: nat)
    requires DepsEarlier(ss)
  {
    exists k | i <= k < |ss| && IsRoot(ss[k], c) :: j in Below(ss, k)
  }

  /** The loop over the root strata from the `i`-th on. */
  function AddRoots(ss: seq<RuleStratum>, c: Clause, i: nat, acc: seq<nat>): (r: seq<nat>)
    requires DepsEarlier(ss) && i <= |ss|
    ensures Grows(ss, acc, r)
    ensures forall j | j in r :: j in acc || BelowRootFrom(ss, c, i, j)
    ensures forall k | i <= k < |ss| && IsRoot(ss[k], c) :: k in r
    decreases |ss| - i
  {
    if i == |ss| then acc
    else
      var acc' := if IsRoot(ss[i], c) then AddTransitiveDeps(ss, i, acc) else acc;
      var r := AddRoots(ss, c, i + 1, acc');
      assert forall j | j in r :: j in acc || BelowRootFrom(ss, c, i, j) by {
        forall j | j in r && j !in acc ensures BelowRootFrom(ss, c, i, j) {
          if j !in acc' {
            var k :| i + 1 <= k < |ss| && IsRoot(ss[k], c) && j in Below(ss, k);
          }
        }
      }
      r
  }

  /**
   * The strata `onlyDependenciesOf` keeps, in the order it keeps them: every stratum below
   * a root stratum, once, each after the strata it depends on.
   */
  function DependencyStrata(ss: seq<RuleStratum>, c: Clause): (r: seq<nat>)
    requires DepsEarlier(ss)
    ensures Distinct(r) && DepsFirst(ss, r)
    ensures forall j :: j in r <==> BelowRootFrom(ss, c, 0, j)
  {
    var r := AddRoots(ss, c, 0, []);
    RootsClose(ss, c, r);
    r
  }

  /** A list with every stratum after its deps and every root stratum in it holds all below them. */
  lemma RootsClose(ss: seq<RuleStratum>, c: Clause, r: seq<nat>)
    requires DepsEarlier(ss) && DepsFirst(ss, r)
    requires forall k | 0 <= k < |ss| && IsRoot(ss[k], c) :: k in r
    ensures forall j | BelowRootFrom(ss, c, 0, j) :: j in r
  {
    forall j | BelowRootFrom(ss, c, 0, j) ensures j in r {
      var k :| 0 <= k < |ss| && IsRoot(ss[k], c) && j in Below(ss, k);
      DepsFirstCloses(ss, r, k);
    }
  }

  /** The rules of the listed strata, stratum after stratum. */
  function Gather(ss: seq<RuleStratum>, ks: seq<nat>): (r: seq<Rule>)
    requires forall p | 0 <= p < |ks| :: ks[p] < |ss|
    ensures forall x :: x in r <==> exists p | 0 <= p < |ks| :: x in ss[ks[p]].rules
  {
    if ks == [] then []
    else
      var r := ss[ks[0]].rules + Gather(ss, ks[1..]);
      assert forall x :: (exists p | 0 <= p < |ks| :: x in ss[ks[p]].rules) <==>
        x in ss[ks[0]].rules || exists p | 0 <= p < |ks[1..]| :: x in ss[ks[1..][p]].rules by {
        forall x | exists p | 0 <= p < |ks| :: x in ss[ks[p]].rules
          ensures x in ss[ks[0]].rules || exists p | 0 <= p < |ks[1..]| :: x in ss[ks[1..][p]].rules
        {
          var p :| 0 <= p < |ks| && x in ss[ks[p]].rules;
          if p > 0 {
            assert ks[1..][p - 1] == ks[p];
          }
        }
      }
      r
  }

  /** `x` is a rule of a stratum below some root stratum. */
  ghost predicate Kept(ss: seq<RuleStratum>, c: Clause, x: Rule)
    requires DepsEarlier(ss)
  {
    exists j | 0 <= j < |ss| :: BelowRootFrom(ss, c, 0, j) && x in ss[j].rules
  }

  /** The rules of the strata below some root stratum. */
  function Pruned(ss: seq<RuleStratum>, c: Clause): (r: seq<Rule>)
    requires DepsEarlier(ss)
    ensures forall x :: x in r <==> Kept(ss, c, x)
  {
    var ks := DependencyStrata(ss, c);
    GatherKept(ss, c, ks);
    Gather(ss, ks)
  }

  /** Gathering the strata below the root strata keeps exactly their rules. */
  lemma GatherKept(ss: seq<RuleStratum>, c: Clause, ks: seq<nat>)
    requires DepsEarlier(ss)
    requires forall p | 0 <= p < |ks| :: ks[p] < |ss|
    requires forall j :: j in ks <==> BelowRootFrom(ss, c, 0, j)
    ensures forall x :: x in Gather(ss, ks) <==> Kept(ss, c, x)
  {
    forall x ensures x in Gather(ss, ks) <==> Kept(ss, c, x) {
      if x in Gather(ss, ks) {
        var p :| 0 <= p < |ks| && x in ss[ks[p]].rules;
        assert ks[p] in ks;
      }
      if Kept(ss, c, x) {
        var j :| 0 <= j < |ss| && BelowRootFrom(ss, c, 0, j) && x in ss[j].rules;
        assert j in ks;
        var p :| 0 <= p < |ks| && ks[p] == j;
      }
    }
  }

  /**
   * `onlyDependenciesOf`: nothing for a built-in; otherwise the rules of every stratum a
   * root stratum depends on, directly or not, the root strata included. With
   * `MayUseAsWritten` for `uses` the strata are the engine's.
   */
  function OnlyDependenciesOf(rules: seq<Rule>, uses: (Condition, Clause) -> bool, c: Clause): (r: seq<Rule>)
    ensures IsBuiltin(c.name) ==> r == []
    ensures !IsBuiltin(c.name) ==> r == Pruned(ProgramStrata(rules, uses), c)
  {
    if IsBuiltin(c.name) then [] else Pruned(ProgramStrata(rules, uses), c)
  }

  /** Every kept rule is a rule of the program, from a stratum below a root stratum. */
  lemma OnlyDependenciesOfKeepsRules(rules: seq<Rule>, uses: (Condition, Clause) -> bool, c: Clause, x: Rule)
    requires x in OnlyDependenciesOf(rules, uses, c)
    ensures x in rules
    ensures Kept(ProgramStrata(rules, uses), c, x)
  {
    var ss := ProgramStrata(rules, uses);
    assert x in Pruned(ss, c);
    var j :| 0 <= j < |ss| && BelowRootFrom(ss, c, 0, j) && x in ss[j].rules;
    PlacedRuleIsRule(ss, rules, j, x);
  }
}
