/**
 * The fact store and the grouping of aggregate rules (`recordNewFact`,
 * `recordNewAggregateFact`, `ensureAggregatedFact`, `storeAggregateFacts`).
 * Facts are kept in insertion order, each once.
 */
module Facts {
  import opened Literals
  import opened Terms
  import opened Aggregates
  import opened Graphs

  /** The facts known so far, in the order they were found. */
  type Store = seq<Clause>

  /** Adding a fact to the fact table: the fact goes in, and the flag says it was not there before. */
  function AddFact(store: Store, fact: Clause): (r: (Store, bool))
    ensures r.1 <==> fact !in store
    ensures fact in r.0
    ensures forall f :: f in r.0 <==> f in store || f == fact
    ensures store <= r.0
    ensures Distinct(store) ==> Distinct(r.0)
  {
    if fact in store then (store, false) else (store + [fact], true)
  }

  // ---------------------------------------------------------------------------
  // Aggregate groups
  // ---------------------------------------------------------------------------

  /**
   * A rule's `aggregateMap`: the accumulated fact for each tuple of non-aggregate argument
   * values, with the tuples in the order they were first met.
   */
  datatype Groups = Groups(keys: seq<seq<Term>>, byKey: map<seq<Term>, Clause>)

  ghost predicate GroupsOk(g: Groups) {
    && (forall i, j | 0 <= i < j < |g.keys| :: g.keys[i] != g.keys[j])
    && (forall k :: k in g.keys <==> k in g.byKey)
  }

  /** The arguments of `args` at the positions where the pattern has no aggregate. */
  function GroupKey(pattern: seq<Term>, args: seq<Term>): (r: seq<Term>)
    requires |args| == |pattern|
    ensures |r| <= |pattern|
    decreases |pattern|
  {
    if pattern == [] then []
    else (if pattern[0].Agg? then [] else [args[0]]) + GroupKey(pattern[1..], args[1..])
  }

  /** `a.value` for the argument of an aggregated fact or the term under an aggregate. */
  function LitOf(t: Term): Literal {
    if t.Val? then t.lit else Undefined
  }

  /** The value a derived fact contributes at aggregate position `i`. */
  function Contribution(fact: Clause, i: nat): Literal
    requires i < |fact.args|
  {
    if fact.args[i].Agg? then LitOf(fact.args[i].term) else Undefined
  }

  /** `ensureAggregatedFact` for a new tuple: the fact's arguments, `undefined` at aggregate positions. */
  function EmptyGroup(pattern: seq<Term>, fact: Clause, name: string): (r: Clause)
    requires |fact.args| == |pattern|
    ensures r.name == name && |r.args| == |pattern|
    ensures forall i | 0 <= i < |pattern| :: r.args[i] == if pattern[i].Agg? then Val(Undefined) else fact.args[i]
  {
    Clause(name, seq(|pattern|, i requires 0 <= i < |pattern| =>
      if pattern[i].Agg? then Val(Undefined) else fact.args[i]))
  }

  /** The merge in `recordNewAggregateFact`: each aggregate position takes one more step. */
  function Merge(pattern: seq<Term>, acc: Clause, fact: Clause): (r: Clause)
    requires |fact.args| == |pattern| && |acc.args| == |pattern|
    ensures r.name == acc.name && |r.args| == |pattern|
    ensures forall i | 0 <= i < |pattern| && pattern[i].Agg? ::
      r.args[i] == Val(Step(pattern[i].kind, LitOf(acc.args[i]), Contribution(fact, i)))
    ensures forall i | 0 <= i < |pattern| && !pattern[i].Agg? :: r.args[i] == acc.args[i]
  {
    Clause(acc.name, seq(|pattern|, i requires 0 <= i < |pattern| =>
      if pattern[i].Agg? then Val(Step(pattern[i].kind, LitOf(acc.args[i]), Contribution(fact, i))) else acc.args[i]))
  }

  /** `recordNewAggregateFact`: the fact joins the group of its tuple (made on first sight). */
  function AddToGroup(g: Groups, head: Clause, fact: Clause): (r: Groups)
    requires |fact.args| == |head.args|
    requires forall k | k in g.byKey :: |g.byKey[k].args| == |head.args|
    ensures forall k | k in r.byKey :: |r.byKey[k].args| == |head.args|
    ensures GroupsOk(g) ==> GroupsOk(r)
  {
    var key := GroupKey(head.args, fact.args);
    var acc := if key in g.byKey then g.byKey[key] else EmptyGroup(head.args, fact, head.name);
    var keys := if key in g.byKey then g.keys else g.keys + [key];
    Groups(keys, g.byKey[key := Merge(head.args, acc, fact)])
  }

  /** The groups after the facts `facts` were derived in this order. */
  function GroupAll(g: Groups, head: Clause, facts: seq<Clause>): (r: Groups)
    requires forall j | 0 <= j < |facts| :: |facts[j].args| == |head.args|
    requires forall k | k in g.byKey :: |g.byKey[k].args| == |head.args|
    ensures forall k | k in r.byKey :: |r.byKey[k].args| == |head.args|
    decreases |facts|
  {
    if facts == [] then g
    else GroupAll(AddToGroup(g, head, facts[0]), head, facts[1..])
  }

  // ---------------------------------------------------------------------------
  // One accumulated fact per tuple
  // ---------------------------------------------------------------------------

  /** The values the facts with tuple `key` contribute at position `i`, in order. */
  function ValuesFor(pattern: seq<Term>, facts: seq<Clause>, key: seq<Term>, i: nat): seq<Literal>
    requires forall j | 0 <= j < |facts| :: |facts[j].args| == |pattern|
    requires i < |pattern|
    decreases |facts|
  {
    if facts == [] then []
    else
      (if GroupKey(pattern, facts[0].args) == key then [Contribution(facts[0], i)] else [])
        + ValuesFor(pattern, facts[1..], key, i)
  }

  lemma {:induction false} FoldAppend(k: AggKind, acc: Literal, xs: seq<Literal>, x: Literal)
    ensures Fold(k, acc, xs + [x]) == Step(k, Fold(k, acc, xs), x)
    decreases |xs|
  {
    if xs != [] {
      assert (xs + [x])[1..] == xs[1..] + [x];
      FoldAppend(k, Step(k, acc, xs[0]), xs[1..], x);
    }
  }

  lemma {:induction false} ValuesForAppend(pattern: seq<Term>, facts: seq<Clause>, f: Clause, key: seq<Term>, i: nat)
    requires forall j | 0 <= j < |facts| :: |facts[j].args| == |pattern|
    requires |f.args| == |pattern| && i < |pattern|
    ensures forall j | 0 <= j < |facts + [f]| :: |(facts + [f])[j].args| == |pattern|
    ensures ValuesFor(pattern, facts + [f], key, i) ==
      ValuesFor(pattern, facts, key, i) + (if GroupKey(pattern, f.args) == key then [Contribution(f, i)] else [])
    decreases |facts|
  {
    if facts != [] {
      var all := facts + [f];
      assert all[0] == facts[0] && all[1..] == facts[1..] + [f];
      ValuesForAppend(pattern, facts[1..], f, key, i);
      var h := if GroupKey(pattern, facts[0].args) == key then [Contribution(facts[0], i)] else [];
      var t := if GroupKey(pattern, f.args) == key then [Contribution(f, i)] else [];
      var rest := ValuesFor(pattern, facts[1..], key, i);
      assert ValuesFor(pattern, all, key, i) == h + (rest + t);
      assert h + (rest + t) == h + rest + t;
    }
  }

  /** The group of a tuple: the tuple's values where the pattern has none, an aggregate elsewhere. */
  ghost predicate GroupOf(head: Clause, facts: seq<Clause>, key: seq<Term>, c: Clause)
    requires forall j | 0 <= j < |facts| :: |facts[j].args| == |head.args|
  {
    && c.name == head.name && |c.args| == |head.args|
    && GroupKey(head.args, c.args) == key
    && forall i | 0 <= i < |head.args| && head.args[i].Agg? ::
         c.args[i] == Val(Aggregate(head.args[i].kind, ValuesFor(head.args, facts, key, i)))
  }

  /** Some fact has the tuple `key`. */
  ghost predicate Met(pattern: seq<Term>, facts: seq<Clause>, key: seq<Term>)
    requires forall j | 0 <= j < |facts| :: |facts[j].args| == |pattern|
  {
    exists j | 0 <= j < |facts| :: GroupKey(pattern, facts[j].args) == key
  }

  lemma MetAppend(pattern: seq<Term>, facts: seq<Clause>, f: Clause, key: seq<Term>)
    requires forall j | 0 <= j < |facts| :: |facts[j].args| == |pattern|
    requires |f.args| == |pattern|
    ensures forall j | 0 <= j < |facts + [f]| :: |(facts + [f])[j].args| == |pattern|
    ensures Met(pattern, facts + [f], key) <==> Met(pattern, facts, key) || GroupKey(pattern, f.args) == key
  {
    var all := facts + [f];
    if Met(pattern, facts, key) {
      var j :| 0 <= j < |facts| && GroupKey(pattern, facts[j].args) == key;
      assert all[j] == facts[j];
    }
    if GroupKey(pattern, f.args) == key {
      assert all[|facts|] == f;
    }
    if Met(pattern, all, key) {
      var j :| 0 <= j < |all| && GroupKey(pattern, all[j].args) == key;
      if j < |facts| {
        assert all[j] == facts[j];
      }
    }
  }

  /** What the groups hold after `facts`: one group per tuple met, in order of first sight. */
  ghost predicate Grouped(g: Groups, head: Clause, facts: seq<Clause>)
    requires forall j | 0 <= j < |facts| :: |facts[j].args| == |head.args|
  {
    && GroupsOk(g)
    && (forall key :: key in g.byKey <==> Met(head.args, facts, key))
    && (forall key | key in g.byKey :: GroupOf(head, facts, key, g.byKey[key]))
  }

  /** Replacing the aggregate positions keeps the tuple. */
  lemma {:induction false} GroupKeyAgnostic(pattern: seq<Term>, a: seq<Term>, b: seq<Term>)
    requires |a| == |pattern| && |b| == |pattern|
    requires forall i | 0 <= i < |pattern| && !pattern[i].Agg? :: a[i] == b[i]
    ensures GroupKey(pattern, a) == GroupKey(pattern, b)
    decreases |pattern|
  {
    if pattern != [] {
      GroupKeyAgnostic(pattern[1..], a[1..], b[1..]);
    }
  }

  lemma AddToGroupGroups(g: Groups, head: Clause, facts: seq<Clause>, f: Clause)
    requires forall j | 0 <= j < |facts| :: |facts[j].args| == |head.args|
    requires |f.args| == |head.args|
    requires forall k | k in g.byKey :: |g.byKey[k].args| == |head.args|
    requires Grouped(g, head, facts)
    ensures forall j | 0 <= j < |facts + [f]| :: |(facts + [f])[j].args| == |head.args|
    ensures Grouped(AddToGroup(g, head, f), head, facts + [f])
  {
    var all := facts + [f];
    assert forall j | 0 <= j < |all| :: |all[j].args| == |head.args|;
    var key := GroupKey(head.args, f.args);
    var r := AddToGroup(g, head, f);
    forall k ensures k in r.byKey <==> Met(head.args, all, k) {
      MetAppend(head.args, facts, f, k);
    }
    AddToGroupKeeps(g, head, facts, f);
  }

  lemma AddToGroupKeeps(g: Groups, head: Clause, facts: seq<Clause>, f: Clause)
    requires forall j | 0 <= j < |facts| :: |facts[j].args| == |head.args|
    requires |f.args| == |head.args|
    requires forall k | k in g.byKey :: |g.byKey[k].args| == |head.args|
    requires Grouped(g, head, facts)
    ensures forall j | 0 <= j < |facts + [f]| :: |(facts + [f])[j].args| == |head.args|
    ensures forall k | k in AddToGroup(g, head, f).byKey :: GroupOf(head, facts + [f], k, AddToGroup(g, head, f).byKey[k])
  {
    var all := facts + [f];
    assert forall j | 0 <= j < |all| :: |all[j].args| == |head.args|;
    var r := AddToGroup(g, head, f);
    forall k | k in r.byKey ensures GroupOf(head, all, k, r.byKey[k]) {
      if k == GroupKey(head.args, f.args) {
        AddToGroupSameKey(g, head, facts, f);
      } else {
        AddToGroupOtherKey(g, head, facts, f, k);
      }
    }
  }

  /** A group the new fact does not belong to stays as it was. */
  lemma AddToGroupOtherKey(g: Groups, head: Clause, facts: seq<Clause>, f: Clause, k: seq<Term>)
    requires forall j | 0 <= j < |facts| :: |facts[j].args| == |head.args|
    requires |f.args| == |head.args|
    requires forall k | k in g.byKey :: |g.byKey[k].args| == |head.args|
    requires Grouped(g, head, facts)
    requires k in g.byKey && k != GroupKey(head.args, f.args)
    ensures forall j | 0 <= j < |facts + [f]| :: |(facts + [f])[j].args| == |head.args|
    ensures GroupOf(head, facts + [f], k, g.byKey[k])
  {
    assert GroupOf(head, facts, k, g.byKey[k]);
    forall i | 0 <= i < |head.args| && head.args[i].Agg?
      ensures ValuesFor(head.args, facts + [f], k, i) == ValuesFor(head.args, facts, k, i)
    {
      ValuesForAppend(head.args, facts, f, k, i);
    }
  }

  /** One more step of the fold on the accumulated value aggregates one more value. */
  lemma MergeStep(k: AggKind, prev: seq<Literal>, acc: Term, c: Literal)
    requires acc == Val(Aggregate(k, prev))
    ensures Val(Step(k, LitOf(acc), c)) == Val(Aggregate(k, prev + [c]))
  {
    FoldAppend(k, Undefined, prev, c);
  }

  /** The group the new fact belongs to takes one more step at each aggregate position. */
  lemma AddToGroupSameKey(g: Groups, head: Clause, facts: seq<Clause>, f: Clause)
    requires forall j | 0 <= j < |facts| :: |facts[j].args| == |head.args|
    requires |f.args| == |head.args|
    requires forall k | k in g.byKey :: |g.byKey[k].args| == |head.args|
    requires Grouped(g, head, facts)
    ensures forall j | 0 <= j < |facts + [f]| :: |(facts + [f])[j].args| == |head.args|
    ensures GroupOf(head, facts + [f], GroupKey(head.args, f.args), AddToGroup(g, head, f).byKey[GroupKey(head.args, f.args)])
  {
    var all := facts + [f];
    assert forall j | 0 <= j < |all| :: |all[j].args| == |head.args|;
    var key := GroupKey(head.args, f.args);
    var acc := if key in g.byKey then g.byKey[key] else EmptyGroup(head.args, f, head.name);
    var merged := Merge(head.args, acc, f);
    assert AddToGroup(g, head, f).byKey[key] == merged;
    if key in g.byKey {
      assert GroupOf(head, facts, key, acc);
    } else {
      GroupKeyAgnostic(head.args, acc.args, f.args);
      assert !Met(head.args, facts, key);
      forall i | 0 <= i < |head.args| && head.args[i].Agg?
        ensures acc.args[i] == Val(Aggregate(head.args[i].kind, ValuesFor(head.args, facts, key, i)))
      {
        NoValuesFor(head.args, facts, key, i);
      }
    }
    GroupKeyAgnostic(head.args, merged.args, acc.args);
    forall i | 0 <= i < |head.args| && head.args[i].Agg?
      ensures merged.args[i] == Val(Aggregate(head.args[i].kind, ValuesFor(head.args, all, key, i)))
    {
      ValuesForAppend(head.args, facts, f, key, i);
      MergeStep(head.args[i].kind, ValuesFor(head.args, facts, key, i), acc.args[i], Contribution(f, i));
    }
  }

  /** A tuple no fact has collects no values. */
  lemma {:induction false} NoValuesFor(pattern: seq<Term>, facts: seq<Clause>, key: seq<Term>, i: nat)
    requires forall j | 0 <= j < |facts| :: |facts[j].args| == |pattern|
    requires i < |pattern|
    requires forall j | 0 <= j < |facts| :: GroupKey(pattern, facts[j].args) != key
    ensures ValuesFor(pattern, facts, key, i) == []
    decreases |facts|
  {
    if facts != [] {
      NoValuesFor(pattern, facts[1..], key, i);
    }
  }

  lemma {:induction false} GroupAllGroups(g: Groups, head: Clause, done: seq<Clause>, facts: seq<Clause>)
    requires forall j | 0 <= j < |done| :: |done[j].args| == |head.args|
    requires forall j | 0 <= j < |facts| :: |facts[j].args| == |head.args|
    requires forall k | k in g.byKey :: |g.byKey[k].args| == |head.args|
    requires Grouped(g, head, done)
    ensures forall j | 0 <= j < |done + facts| :: |(done + facts)[j].args| == |head.args|
    ensures Grouped(GroupAll(g, head, facts), head, done + facts)
    decreases |facts|
  {
    if facts != [] {
      assert done + [facts[0]] + facts[1..] == done + facts;
      AddToGroupGroups(g, head, done, facts[0]);
      GroupAllGroups(AddToGroup(g, head, facts[0]), head, done + [facts[0]], facts[1..]);
    } else {
      assert done + facts == done;
    }
  }

  /**
   * Grouping keeps one accumulated fact per distinct tuple of non-aggregate values: a tuple
   * has a group exactly when some fact has it, and each aggregate position of the group
   * holds the aggregate of the values the facts with that tuple contributed, in order.
   */
  lemma GroupingAggregates(head: Clause, facts: seq<Clause>)
    requires forall j | 0 <= j < |facts| :: |facts[j].args| == |head.args|
    ensures Grouped(GroupAll(Groups([], map[]), head, facts), head, facts)
  {
    GroupAllGroups(Groups([], map[]), head, [], facts);
    assert [] + facts == facts;
  }

  /** `f` is the fact of a group at position `i` or later. */
  ghost predicate GroupFactFrom(g: Groups, i: nat, f: Clause)
    requires GroupsOk(g) && i <= |g.keys|
  {
    exists j | i <= j < |g.keys| :: g.byKey[g.keys[j]] == f
  }

  /** `storeAggregateFacts`: every group's fact goes into the store, in order of first sight. */
  function StoreGroups(store: Store, g: Groups, i: nat): (r: Store)
    requires GroupsOk(g) && i <= |g.keys|
    ensures store <= r
    ensures forall f :: f in r <==> f in store || GroupFactFrom(g, i, f)
    ensures Distinct(store) ==> Distinct(r)
    decreases |g.keys| - i
  {
    if i == |g.keys| then store
    else
      var r := StoreGroups(AddFact(store, g.byKey[g.keys[i]]).0, g, i + 1);
      assert forall f :: GroupFactFrom(g, i, f) <==> g.byKey[g.keys[i]] == f || GroupFactFrom(g, i + 1, f);
      r
  }
}
