/**
  Stratification (datalog.js:84-141): the components found by `FindSCCs`
  become strata, each stratum records the components it uses, and the strata
  are put in an order where every stratum comes after the ones it uses.
 */
module Strata {
  import opened Wrappers
  import opened Graphs
  import opened Scc

  /**
    One stratum: the names of the rules in one component (in labelling order),
    named by the component's leader, and the leaders of the other components
    its rules use.
   */
  datatype Stratum = Stratum(leader: string, members: seq<string>, deps: seq<string>)

  function Leaders(ss: seq<Stratum>): (r: seq<string>)
    ensures |r| == |ss|
    ensures forall i | 0 <= i < |ss| :: r[i] == ss[i].leader
  {
    if ss == [] then [] else [ss[0].leader] + Leaders(ss[1..])
  }

  // ----------------------------------------------------------------
  // buildStratumDict (datalog.js:115-124)
  // ----------------------------------------------------------------

  /** The `strataByName` object: strata by leader, with the leaders in insertion order. */
  datatype StratumDict = StratumDict(names: seq<string>, byName: map<string, Stratum>)

  /** Each stratum is filed under its own leader. */
  predicate DictOk(d: StratumDict) {
    forall l | l in d.byName :: d.byName[l].leader == l
  }

  /** `names` lists the leaders in the dictionary, once each. */
  predicate NamesOk(d: StratumDict) {
    Distinct(d.names) && (forall l | l in d.names :: l in d.byName) && forall l | l in d.byName :: l in d.names
  }

  /** Files `n` under the stratum named `l`, opening that stratum if it is new. */
  function AddMember(d: StratumDict, l: string, n: string): (r: StratumDict)
    requires DictOk(d)
    ensures DictOk(r) && r.byName.Keys == d.byName.Keys + {l}
    ensures NamesOk(d) ==> NamesOk(r)
    ensures forall k {:trigger r.byName[k]} | k in r.byName ::
      r.byName[k].deps == if k in d.byName then d.byName[k].deps else []
    ensures forall k {:trigger r.byName[k]} | k in r.byName ::
      r.byName[k].members == (if k != l then d.byName[k].members else if k in d.byName then d.byName[k].members + [n] else [n])
  {
    if l in d.byName then d.(byName := d.byName[l := d.byName[l].(members := d.byName[l].members + [n])])
    else StratumDict(d.names + [l], d.byName[l := Stratum(l, [n], [])])
  }

  /** Files the names of `order`, first to last, under their leaders. */
  function Group(order: seq<string>, leader: map<string, string>): (r: StratumDict)
    requires forall x | x in order :: x in leader
    ensures DictOk(r)
  {
    if order == [] then StratumDict([], map[])
    else AddMember(Group(order[..|order| - 1], leader), leader[order[|order| - 1]], order[|order| - 1])
  }

  lemma GroupKeys(order: seq<string>, leader: map<string, string>)
    requires forall x | x in order :: x in leader
    ensures forall x | x in order :: leader[x] in Group(order, leader).byName
    ensures forall l | l in Group(order, leader).byName :: exists x | x in order :: leader[x] == l
    ensures forall l | l in Group(order, leader).byName :: Group(order, leader).byName[l].deps == []
  {
    GroupHasLeaders(order, leader);
    GroupOnlyLeaders(order, leader);
    GroupNoDeps(order, leader);
  }

  lemma {:induction false} GroupHasLeaders(order: seq<string>, leader: map<string, string>)
    requires forall x | x in order :: x in leader
    ensures forall x | x in order :: leader[x] in Group(order, leader).byName
  {
    if order != [] {
      var init := order[..|order| - 1];
      var last := order[|order| - 1];
      assert order == init + [last];
      GroupHasLeaders(init, leader);
    }
  }

  lemma {:induction false} GroupOnlyLeaders(order: seq<string>, leader: map<string, string>)
    requires forall x | x in order :: x in leader
    ensures forall l | l in Group(order, leader).byName :: exists x | x in order :: leader[x] == l
  {
    if order != [] {
      var init := order[..|order| - 1];
      var last := order[|order| - 1];
      assert order == init + [last];
      GroupOnlyLeaders(init, leader);
      var d := Group(init, leader);
      var r := Group(order, leader);
      forall l | l in r.byName
        ensures exists x | x in order :: leader[x] == l
      {
        if l in d.byName {
          var x :| x in init && leader[x] == l;
          assert x in order;
        } else {
          assert last in order;
        }
      }
    }
  }

  lemma {:induction false} GroupNoDeps(order: seq<string>, leader: map<string, string>)
    requires forall x | x in order :: x in leader
    ensures forall l | l in Group(order, leader).byName :: Group(order, leader).byName[l].deps == []
  {
    if order != [] {
      GroupNoDeps(order[..|order| - 1], leader);
    }
  }

  lemma {:induction false} GroupNames(order: seq<string>, leader: map<string, string>)
    requires forall x | x in order :: x in leader
    ensures NamesOk(Group(order, leader))
  {
    if order != [] {
      GroupNames(order[..|order| - 1], leader);
    }
  }

  /** The members of the strata of `d` are the names of `init`, filed under their leaders. */
  ghost predicate MembersAre(d: StratumDict, init: seq<string>, leader: map<string, string>)
    requires forall x | x in init :: x in leader
  {
    forall l, x {:trigger x in d.byName[l].members} | l in d.byName ::
      x in d.byName[l].members <==> x in init && leader[x] == l
  }

  lemma {:induction false} AddMemberMembers(d: StratumDict, init: seq<string>, last: string, leader: map<string, string>)
    requires DictOk(d) && forall x | x in init + [last] :: x in leader
    requires forall x | x in init :: leader[x] in d.byName
    requires MembersAre(d, init, leader)
    ensures MembersAre(AddMember(d, leader[last], last), init + [last], leader)
  {
    var r := AddMember(d, leader[last], last);
    forall l, x | l in r.byName
      ensures x in r.byName[l].members <==> x in init + [last] && leader[x] == l
    {
      assert x in init + [last] <==> x in init || x == last;
      if l != leader[last] {
        assert r.byName[l].members == d.byName[l].members;
      } else if l in d.byName {
        assert r.byName[l].members == d.byName[l].members + [last];
      } else {
        assert r.byName[l].members == [last];
      }
    }
  }

  lemma {:induction false} GroupMembers(order: seq<string>, leader: map<string, string>)
    requires forall x | x in order :: x in leader
    ensures MembersAre(Group(order, leader), order, leader)
  {
    if order != [] {
      var init := order[..|order| - 1];
      var last := order[|order| - 1];
      assert order == init + [last];
      GroupMembers(init, leader);
      GroupKeys(init, leader);
      AddMemberMembers(Group(init, leader), init, last, leader);
    }
  }

  /**
    `buildStratumDict` (datalog.js:115-124): one stratum for each leader of a
    labelled name and no other, every labelled name filed under its own
    leader, no deps yet.
   */
  function BuildStratumDict(lb: Labels): (r: StratumDict)
    requires LabelsOk(lb)
    ensures DictOk(r) && NamesOk(r)
    ensures forall x | x in lb.leader :: lb.leader[x] in r.byName
    ensures forall l | l in r.byName :: exists x | x in lb.leader :: lb.leader[x] == l
    ensures forall l | l in r.byName :: r.byName[l].deps == []
    ensures forall l, x {:trigger x in r.byName[l].members} | l in r.byName ::
      x in r.byName[l].members <==> x in lb.leader && lb.leader[x] == l
  {
    GroupKeys(lb.order, lb.leader);
    GroupNames(lb.order, lb.leader);
    GroupMembers(lb.order, lb.leader);
    Group(lb.order, lb.leader)
  }

  // ----------------------------------------------------------------
  // computeDeps (datalog.js:126-141)
  // ----------------------------------------------------------------

  /** Some name of `ts` has the leader `d`. */
  ghost predicate TargetLeader(ts: seq<string>, leader: map<string, string>, d: string) {
    exists m | m in ts && m in leader :: leader[m] == d
  }

  /** Some member of `ns` depends on a name whose leader is `d`. */
  ghost predicate UsesLeader(g: Graph, leader: map<string, string>, ns: seq<string>, d: string) {
    exists n, m | n in ns && Edge(g, n, m) && m in leader :: leader[m] == d
  }

  lemma {:induction false} TargetLeaderCons(ts: seq<string>, leader: map<string, string>)
    requires ts != [] && ts[0] in leader
    ensures forall d :: TargetLeader(ts, leader, d) <==> leader[ts[0]] == d || TargetLeader(ts[1..], leader, d)
  {
    forall d | TargetLeader(ts, leader, d)
      ensures leader[ts[0]] == d || TargetLeader(ts[1..], leader, d)
    {
      var m :| m in ts && m in leader && leader[m] == d;
      if m != ts[0] {
        assert m in ts[1..];
      }
    }
    forall d | TargetLeader(ts[1..], leader, d)
      ensures TargetLeader(ts, leader, d)
    {
      var m :| m in ts[1..] && m in leader && leader[m] == d;
      assert m in ts;
    }
  }

  lemma {:induction false} UsesLeaderCons(g: Graph, leader: map<string, string>, ns: seq<string>)
    requires ns != [] && ns[0] in g.edges
    ensures forall d :: UsesLeader(g, leader, ns, d) <==>
      TargetLeader(g.edges[ns[0]], leader, d) || UsesLeader(g, leader, ns[1..], d)
  {
    forall d | UsesLeader(g, leader, ns, d)
      ensures TargetLeader(g.edges[ns[0]], leader, d) || UsesLeader(g, leader, ns[1..], d)
    {
      var n, m :| n in ns && Edge(g, n, m) && m in leader && leader[m] == d;
      if n != ns[0] {
        assert n in ns[1..];
      }
    }
    forall d | UsesLeader(g, leader, ns[1..], d)
      ensures UsesLeader(g, leader, ns, d)
    {
      var n, m :| n in ns[1..] && Edge(g, n, m) && m in leader && leader[m] == d;
      assert n in ns;
    }
    forall d | TargetLeader(g.edges[ns[0]], leader, d)
      ensures UsesLeader(g, leader, ns, d)
    {
      var m :| m in g.edges[ns[0]] && m in leader && leader[m] == d;
      assert Edge(g, ns[0], m);
    }
  }

  /**
    Scans the dependency names `ts` of one member, adding the leader of each
    to `acc` unless it is the stratum's own leader or already listed.
   */
  function AddDeps(own: string, ts: seq<string>, leader: map<string, string>, acc: seq<string>): (r: seq<string>)
    requires forall m | m in ts :: m in leader
    requires Distinct(acc) && own !in acc
    ensures Distinct(r) && own !in r && acc <= r
    ensures forall d :: d in r <==> d in acc || (d != own && TargetLeader(ts, leader, d))
    decreases |ts|
  {
    if ts == [] then acc
    else
      var l := leader[ts[0]];
      var acc' := if l != own && l !in acc then acc + [l] else acc;
      TargetLeaderCons(ts, leader);
      AddDeps(own, ts[1..], leader, acc')
  }

  /** Scans the members `ns` of a stratum in order, collecting its deps. */
  function DepsFrom(g: Graph, own: string, ns: seq<string>, leader: map<string, string>, acc: seq<string>): (r: seq<string>)
    requires Closed(g) && g.edges.Keys <= leader.Keys
    requires forall n | n in ns :: n in g.edges
    requires Distinct(acc) && own !in acc
    ensures Distinct(r) && own !in r
    ensures forall d :: d in r <==> d in acc || (d != own && UsesLeader(g, leader, ns, d))
    decreases |ns|
  {
    if ns == [] then acc
    else
      var acc' := AddDeps(own, g.edges[ns[0]], leader, acc);
      UsesLeaderCons(g, leader, ns);
      DepsFrom(g, own, ns[1..], leader, acc')
  }

  /**
    `computeDeps` (datalog.js:126-141): every stratum gets, once each, the
    leaders of the other strata its members depend on, and nothing else
    changes.
   */
  function ComputeDeps(d: StratumDict, g: Graph, leader: map<string, string>): (r: StratumDict)
    requires DictOk(d) && Closed(g) && g.edges.Keys <= leader.Keys
    requires forall l, n | l in d.byName && n in d.byName[l].members :: n in g.edges
    ensures DictOk(r) && r.names == d.names && r.byName.Keys == d.byName.Keys
    ensures forall l | l in r.byName :: r.byName[l].members == d.byName[l].members
    ensures forall l | l in r.byName :: Distinct(r.byName[l].deps)
    ensures forall l, x {:trigger x in r.byName[l].deps} | l in r.byName ::
      x in r.byName[l].deps <==> x != l && UsesLeader(g, leader, r.byName[l].members, x)
  {
    StratumDict(d.names, map l | l in d.byName :: d.byName[l].(deps := DepsFrom(g, l, d.byName[l].members, leader, [])))
  }

  // ----------------------------------------------------------------
  // sortStrata (datalog.js:92-113)
  // ----------------------------------------------------------------

  /** `onlyDependsOnEarlierStrata`: every dep of `t` names a stratum already in `sorted`. */
  predicate Ready(t: Stratum, sorted: seq<Stratum>) {
    forall d | d in t.deps :: d in Leaders(sorted)
  }

  lemma {:induction false} LeadersGrow(s: seq<Stratum>, s': seq<Stratum>)
    requires s <= s'
    ensures forall d | d in Leaders(s) :: d in Leaders(s')
  {
    forall d | d in Leaders(s)
      ensures d in Leaders(s')
    {
      var i :| 0 <= i < |s| && Leaders(s)[i] == d;
      assert Leaders(s')[i] == d;
    }
  }

  lemma {:induction false} ReadyGrows(t: Stratum, s: seq<Stratum>, s': seq<Stratum>)
    requires s <= s' && Ready(t, s)
    ensures Ready(t, s')
  {
    LeadersGrow(s, s');
  }

  /** The strata of `ss` from index `k` on each come after the strata they depend on. */
  predicate ReadyFrom(ss: seq<Stratum>, k: nat) {
    forall i {:trigger ss[..i]} | k <= i < |ss| :: Ready(ss[i], ss[..i])
  }

  /**
    One pass of the inner loop of `sortStrata`: scans `pending` front to back,
    moving every stratum whose deps are already sorted to the end of `sorted`
    (so a later stratum in the same pass may use one moved earlier in it).
    Returns the strata left pending and the extended sorted list.
   */
  function Sweep(pending: seq<Stratum>, sorted: seq<Stratum>): (r: (seq<Stratum>, seq<Stratum>))
    ensures sorted <= r.1 && |r.0| <= |pending|
    decreases |pending|
  {
    if pending == [] then ([], sorted)
    else if Ready(pending[0], sorted) then Sweep(pending[1..], sorted + [pending[0]])
    else
      var r := Sweep(pending[1..], sorted);
      ([pending[0]] + r.0, r.1)
  }

  /** A pass only moves strata: what it leaves pending and what it sorts make up what was pending. */
  lemma {:induction false} SweepMoves(pending: seq<Stratum>, sorted: seq<Stratum>)
    ensures multiset(pending) == multiset(Sweep(pending, sorted).0) + multiset(Sweep(pending, sorted).1[|sorted|..])
    decreases |pending|
  {
    if pending != [] {
      assert pending == [pending[0]] + pending[1..];
      if Ready(pending[0], sorted) {
        var s' := sorted + [pending[0]];
        SweepMoves(pending[1..], s');
        var r := Sweep(pending[1..], s');
        assert r.1[|sorted|..] == [pending[0]] + r.1[|s'|..];
      } else {
        SweepMoves(pending[1..], sorted);
      }
    }
  }

  /** Every stratum a pass sorts is ready when it is appended. */
  lemma {:induction false} SweepReady(pending: seq<Stratum>, sorted: seq<Stratum>)
    requires ReadyFrom(sorted, 0)
    ensures ReadyFrom(Sweep(pending, sorted).1, 0)
    decreases |pending|
  {
    if pending != [] {
      if Ready(pending[0], sorted) {
        var s' := sorted + [pending[0]];
        assert s'[..|sorted|] == sorted;
        assert forall i | 0 <= i < |sorted| :: s'[..i] == sorted[..i];
        SweepReady(pending[1..], s');
      } else {
        SweepReady(pending[1..], sorted);
      }
    }
  }

  /** A pass moves nothing exactly when no pending stratum is ready when it starts. */
  lemma {:induction false} SweepStuck(pending: seq<Stratum>, sorted: seq<Stratum>)
    ensures |Sweep(pending, sorted).0| == |pending| <==> forall t | t in pending :: !Ready(t, sorted)
    decreases |pending|
  {
    if pending != [] {
      if !Ready(pending[0], sorted) {
        SweepStuck(pending[1..], sorted);
        assert forall t | t in pending :: t == pending[0] || t in pending[1..];
      }
    }
  }

  /**
    The outer loop of `sortStrata`. `None` stands for a pass that moves
    nothing, where the source loops forever.
   */
  function SortFrom(pending: seq<Stratum>, sorted: seq<Stratum>): (r: Option<seq<Stratum>>)
    ensures r.Some? ==> sorted <= r.value
    decreases |pending|
  {
    if pending == [] then Some(sorted)
    else
      var sw := Sweep(pending, sorted);
      if |sw.0| == |pending| then None else SortFrom(sw.0, sw.1)
  }

  /** A finished sort is the sorted prefix followed by a reordering of the pending strata, each after its deps. */
  lemma {:induction false} SortFromSorts(pending: seq<Stratum>, sorted: seq<Stratum>)
    requires ReadyFrom(sorted, 0)
    requires SortFrom(pending, sorted).Some?
    ensures multiset(SortFrom(pending, sorted).value[|sorted|..]) == multiset(pending)
    ensures ReadyFrom(SortFrom(pending, sorted).value, 0)
    decreases |pending|
  {
    if pending != [] {
      var sw := Sweep(pending, sorted);
      SweepMoves(pending, sorted);
      SweepReady(pending, sorted);
      SortFromSorts(sw.0, sw.1);
      var r := SortFrom(sw.0, sw.1).value;
      assert r[|sorted|..] == sw.1[|sorted|..] + r[|sw.1|..];
    }
  }

  /**
    Every dep of a pending stratum is already sorted, or names a pending
    stratum of lower rank.
   */
  ghost predicate Ranked(pending: seq<Stratum>, sorted: seq<Stratum>, rank: map<string, nat>) {
    && (forall t | t in pending :: t.leader in rank)
    && forall t, d | t in pending && d in t.deps :: RankedDep(pending, sorted, rank, t, d)
  }

  ghost predicate RankedDep(pending: seq<Stratum>, sorted: seq<Stratum>, rank: map<string, nat>, t: Stratum, d: string)
    requires t.leader in rank
  {
    d in Leaders(sorted) || exists u | u in pending :: u.leader == d && d in rank && rank[d] < rank[t.leader]
  }

  lemma {:induction false} LowestRank(pending: seq<Stratum>, rank: map<string, nat>)
    requires pending != [] && forall t | t in pending :: t.leader in rank
    ensures exists t | t in pending :: forall u | u in pending :: rank[t.leader] <= rank[u.leader]
  {
    if |pending| > 1 {
      LowestRank(pending[1..], rank);
      var t :| t in pending[1..] && forall u | u in pending[1..] :: rank[t.leader] <= rank[u.leader];
      assert forall u | u in pending :: u == pending[0] || u in pending[1..];
      if rank[pending[0].leader] <= rank[t.leader] {
        assert pending[0] in pending;
      } else {
        assert t in pending;
      }
    } else {
      assert forall u | u in pending :: u == pending[0];
      assert pending[0] in pending;
    }
  }

  /** Where a stratum goes in a pass: it stays pending or is sorted, and nothing else appears. */
  lemma {:induction false} SweepPlaces(pending: seq<Stratum>, sorted: seq<Stratum>)
    ensures forall t | t in Sweep(pending, sorted).0 :: t in pending
    ensures forall u | u in pending :: u in Sweep(pending, sorted).0 || u in Sweep(pending, sorted).1[|sorted|..]
  {
    var sw := Sweep(pending, sorted);
    SweepMoves(pending, sorted);
    forall t | t in sw.0
      ensures t in pending
    {
      assert multiset(pending)[t] == multiset(sw.0)[t] + multiset(sw.1[|sorted|..])[t];
    }
    forall u | u in pending
      ensures u in sw.0 || u in sw.1[|sorted|..]
    {
      assert multiset(pending)[u] == multiset(sw.0)[u] + multiset(sw.1[|sorted|..])[u];
    }
  }

  lemma {:induction false} RankedSweep(pending: seq<Stratum>, sorted: seq<Stratum>, rank: map<string, nat>)
    requires Ranked(pending, sorted, rank)
    ensures Ranked(Sweep(pending, sorted).0, Sweep(pending, sorted).1, rank)
  {
    var sw := Sweep(pending, sorted);
    SweepPlaces(pending, sorted);
    LeadersGrow(sorted, sw.1);
    forall t, d | t in sw.0 && d in t.deps
      ensures RankedDep(sw.0, sw.1, rank, t, d)
    {
      assert RankedDep(pending, sorted, rank, t, d);
      if d !in Leaders(sorted) {
        var u :| u in pending && u.leader == d && rank[d] < rank[t.leader];
        if u !in sw.0 {
        var i :| |sorted| <= i < |sw.1| && sw.1[i] == u;
          assert Leaders(sw.1)[i] == d;
        }
      }
    }
  }

  /** A pending stratum of lowest rank is ready. */
  lemma {:induction false} LowestReady(pending: seq<Stratum>, sorted: seq<Stratum>, rank: map<string, nat>, t: Stratum)
    requires Ranked(pending, sorted, rank) && t in pending
    requires forall u | u in pending :: rank[t.leader] <= rank[u.leader]
    ensures Ready(t, sorted)
  {
    forall d | d in t.deps
      ensures d in Leaders(sorted)
    {
      assert RankedDep(pending, sorted, rank, t, d);
    }
  }

  /** Ranked strata never get stuck: the sort finishes. */
  lemma {:induction false} SortSucceeds(pending: seq<Stratum>, sorted: seq<Stratum>, rank: map<string, nat>)
    requires Ranked(pending, sorted, rank)
    ensures SortFrom(pending, sorted).Some?
    decreases |pending|
  {
    if pending != [] {
      LowestRank(pending, rank);
      var t :| t in pending && forall u | u in pending :: rank[t.leader] <= rank[u.leader];
      LowestReady(pending, sorted, rank, t);
      SweepStuck(pending, sorted);
      RankedSweep(pending, sorted, rank);
      var sw := Sweep(pending, sorted);
      SortSucceeds(sw.0, sw.1, rank);
    }
  }

  /** The strata of the dictionary, in leader insertion order (`objectUtils.values`). */
  function Values(d: StratumDict): (r: seq<Stratum>)
    requires forall l | l in d.names :: l in d.byName
    ensures |r| == |d.names| && forall i | 0 <= i < |r| :: r[i] == d.byName[d.names[i]]
  {
    seq(|d.names|, i requires 0 <= i < |d.names| => d.byName[d.names[i]])
  }

  /**
    `sortStrata` (datalog.js:92-107): when it finishes, the result holds the
    dictionary's strata, each once, every one after the strata it depends on.
   */
  function SortStrata(d: StratumDict): (r: Option<seq<Stratum>>)
    requires forall l | l in d.names :: l in d.byName
    ensures r.Some? ==> multiset(r.value) == multiset(Values(d)) && ReadyFrom(r.value, 0)
  {
    var r := SortFrom(Values(d), []);
    if r.Some? then
      SortFromSorts(Values(d), []);
      assert r.value[0..] == r.value;
      r
    else r
  }

  // ----------------------------------------------------------------
  // Properties of a stratification
  // ----------------------------------------------------------------

  /** Multiplicity 1 everywhere is the same as no repetition. */
  lemma {:induction false} DistinctCount<T>(s: seq<T>)
    ensures Distinct(s) <==> forall x | x in s :: multiset(s)[x] == 1
  {
    if s != [] {
      var rest := s[1..];
      assert s == [s[0]] + rest;
      DistinctCount(rest);
      if Distinct(s) {
        assert Distinct(rest) by {
          forall i, j | 0 <= i < j < |rest| ensures rest[i] != rest[j] {
            assert rest[i] == s[i + 1] && rest[j] == s[j + 1];
          }
        }
      } else {
        var i, j :| 0 <= i < j < |s| && s[i] == s[j];
        if i == 0 {
          assert s[j] == rest[j - 1];
          assert multiset(s)[s[0]] == 1 + multiset(rest)[s[0]];
        } else {
          assert s[i] == rest[i - 1] && s[j] == rest[j - 1];
          assert !Distinct(rest);
          var x :| x in rest && multiset(rest)[x] != 1;
          assert multiset(s)[x] == (if x == s[0] then 1 else 0) + multiset(rest)[x];
        }
      }
    }
  }

  lemma DistinctPerm<T>(a: seq<T>, b: seq<T>)
    requires multiset(a) == multiset(b) && Distinct(a)
    ensures Distinct(b)
  {
    DistinctCount(a);
    DistinctCount(b);
  }

  /** The members of `t` are exactly the keys in its leader's component. */
  ghost predicate IsComponent(g: Graph, t: Stratum) {
    && t.leader in g.edges
    && forall x {:trigger x in t.members} :: x in t.members <==> x in g.edges && SameScc(g, x, t.leader)
  }

  /** The strata cut the keys into components: each key in exactly one stratum, one stratum per leader. */
  ghost predicate Partition(g: Graph, ss: seq<Stratum>) {
    && Distinct(Leaders(ss))
    && (forall i {:trigger IsComponent(g, ss[i])} | 0 <= i < |ss| :: IsComponent(g, ss[i]))
    && (forall x | x in g.edges :: exists i :: 0 <= i < |ss| && x in ss[i].members)
    && Disjoint(ss)
  }

  /** No name is a member of two strata. */
  predicate Disjoint(ss: seq<Stratum>) {
    forall i, j, x | 0 <= i < |ss| && 0 <= j < |ss| && x in ss[i].members && x in ss[j].members :: i == j
  }

  /** Some member of `ss[i]` depends on some member of `ss[j]`. */
  ghost predicate Uses(g: Graph, ss: seq<Stratum>, i: int, j: int)
    requires 0 <= i < |ss| && 0 <= j < |ss|
  {
    exists n, m | n in ss[i].members && m in ss[j].members :: Edge(g, n, m)
  }

  /** The deps of each stratum are exactly the leaders of the other strata it uses. */
  ghost predicate DepsExact(g: Graph, ss: seq<Stratum>) {
    forall i, x {:trigger x in ss[i].deps} | 0 <= i < |ss| ::
      x in ss[i].deps <==> exists j {:trigger Uses(g, ss, i, j)} | 0 <= j < |ss| && j != i && Uses(g, ss, i, j) :: ss[j].leader == x
  }

  /** A stratum uses other strata only when they come before it. */
  lemma {:induction false} UsesEarlier(g: Graph, ss: seq<Stratum>, i: int, j: int, n: string, m: string)
    requires Distinct(Leaders(ss)) && DepsExact(g, ss) && ReadyFrom(ss, 0)
    requires 0 <= i < |ss| && 0 <= j < |ss| && j != i
    requires n in ss[i].members && m in ss[j].members && Edge(g, n, m)
    ensures j < i
  {
    assert Uses(g, ss, i, j);
    assert ss[j].leader in ss[i].deps;
    assert Ready(ss[i], ss[..i]);
    var k :| 0 <= k < i && Leaders(ss[..i])[k] == ss[j].leader;
    assert Leaders(ss)[k] == Leaders(ss)[j];
  }

  /** Two keys share a stratum exactly when they are in the same component. */
  lemma {:induction false} SameStratum(g: Graph, ss: seq<Stratum>, i: int, j: int, n: string, m: string)
    requires Partition(g, ss)
    requires 0 <= i < |ss| && 0 <= j < |ss| && n in ss[i].members && m in ss[j].members
    ensures j == i <==> SameScc(g, n, m)
  {
    assert IsComponent(g, ss[i]) && IsComponent(g, ss[j]);
    var li := ss[i].leader;
    assert SameScc(g, n, li);
    if j != i {
      if SameScc(g, n, m) {
        ReachTrans(g, m, n, li);
        ReachTrans(g, li, n, m);
      }
    } else {
      assert SameScc(g, m, li);
      ReachTrans(g, n, li, m);
      ReachTrans(g, m, li, n);
    }
  }

  /**
    What stratification is for: a rule only depends on rules of its own
    stratum or of earlier ones, and on its own stratum exactly when the two
    are mutually dependent.
   */
  lemma {:induction false} EdgesGoBack(g: Graph, ss: seq<Stratum>, i: int, j: int, n: string, m: string)
    requires Partition(g, ss) && DepsExact(g, ss) && ReadyFrom(ss, 0)
    requires 0 <= i < |ss| && 0 <= j < |ss| && n in ss[i].members && m in ss[j].members && Edge(g, n, m)
    ensures j <= i
    ensures j == i <==> SameScc(g, n, m)
  {
    SameStratum(g, ss, i, j, n, m);
    if j != i {
      UsesEarlier(g, ss, i, j, n, m);
    }
  }

  // ----------------------------------------------------------------
  // stratify (datalog.js:84-90)
  // ----------------------------------------------------------------

  /** The labelling covers exactly the keys. */
  predicate LabelKeys(g: Graph, lb: Labels) {
    lb.leader.Keys == g.edges.Keys
  }

  /** What `FindSCCs` promises about the leaders of a successful labelling. */
  ghost predicate SccLabels(g: Graph, lb: Labels)
    requires LabelKeys(g, lb)
  {
    && (forall a | a in g.edges :: SameScc(g, lb.leader[a], a))
    && (forall a, b | a in g.edges && b in g.edges :: lb.leader[a] == lb.leader[b] <==> SameScc(g, a, b))
  }

  /** Every key's leader names a stratum. */
  predicate DictCovers(g: Graph, lb: Labels, d: StratumDict)
    requires LabelKeys(g, lb)
  {
    forall x | x in g.edges :: lb.leader[x] in d.byName
  }

  /** Every stratum is named by the leader of some key. */
  ghost predicate DictNamed(g: Graph, lb: Labels, d: StratumDict)
    requires LabelKeys(g, lb)
  {
    forall l | l in d.byName :: exists x | x in g.edges :: lb.leader[x] == l
  }

  /** The members of a stratum are the keys with its leader. */
  ghost predicate DictMembers(g: Graph, lb: Labels, d: StratumDict)
    requires LabelKeys(g, lb)
  {
    forall l, x {:trigger x in d.byName[l].members} | l in d.byName ::
      x in d.byName[l].members <==> x in g.edges && lb.leader[x] == l
  }

  /** The deps of a stratum are the other leaders its members use. */
  ghost predicate DictDeps(g: Graph, lb: Labels, d: StratumDict) {
    forall l, x {:trigger x in d.byName[l].deps} | l in d.byName ::
      x in d.byName[l].deps <==> x != l && UsesLeader(g, lb.leader, d.byName[l].members, x)
  }

  /** A stratum's name is a key, and it is its own leader. */
  lemma LeaderFixed(g: Graph, lb: Labels, d: StratumDict, l: string)
    requires LabelKeys(g, lb) && SccLabels(g, lb) && DictNamed(g, lb, d) && l in d.byName
    ensures l in g.edges && lb.leader[l] == l
  {
    var x :| x in g.edges && lb.leader[x] == l;
    assert SameScc(g, l, x);
    ReachIsKey(g, l, x);
  }

  /** The keys `a` reaches. */
  ghost function ReachSet(g: Graph, a: string): set<string> {
    set x | x in g.edges && Reach(g, a, x)
  }

  /** Going down to a component that cannot reach back strictly shrinks what is reachable. */
  lemma RankDrops(g: Graph, a: string, b: string)
    requires Reach(g, a, b) && !Reach(g, b, a)
    ensures |ReachSet(g, b)| < |ReachSet(g, a)|
  {
    ReachIsKey(g, a, b);
    ReachRefl(g, a);
    forall x | x in ReachSet(g, b)
      ensures x in ReachSet(g, a)
    {
      ReachTrans(g, a, b, x);
    }
    assert a in ReachSet(g, a) - ReachSet(g, b);
    StrictSubsetCard(ReachSet(g, b), ReachSet(g, a));
  }

  /** A dep of a stratum is a stratum it reaches and that cannot reach it back. */
  lemma DepDown(g: Graph, lb: Labels, d: StratumDict, l: string, x: string)
    requires Closed(g) && LabelKeys(g, lb) && SccLabels(g, lb)
    requires DictCovers(g, lb, d) && DictNamed(g, lb, d) && DictMembers(g, lb, d) && DictDeps(g, lb, d)
    requires l in d.byName && x in d.byName[l].deps
    ensures x in d.byName && Reach(g, l, x) && !Reach(g, x, l)
  {
    var n, m :| n in d.byName[l].members && Edge(g, n, m) && m in lb.leader && lb.leader[m] == x;
    LeaderFixed(g, lb, d, l);
    assert SameScc(g, l, n);
    ReachStepTrans(g, l, n, m);
    assert SameScc(g, x, m);
    ReachTrans(g, l, m, x);
    LeaderFixed(g, lb, d, x);
    if Reach(g, x, l) {
      assert SameScc(g, l, x);
      assert false;
    }
  }

  /** `ss` lists the strata of the dictionary, each once and nothing else. */
  ghost predicate Lists(d: StratumDict, ss: seq<Stratum>) {
    && Distinct(ss)
    && (forall t | t in ss :: t.leader in d.byName && d.byName[t.leader] == t)
    && (forall l | l in d.byName :: d.byName[l] in ss)
  }

  lemma {:induction false} ValuesLists(d: StratumDict)
    requires DictOk(d) && NamesOk(d)
    ensures Lists(d, Values(d))
  {
    var vs := Values(d);
    forall i, j | 0 <= i < j < |vs|
      ensures vs[i] != vs[j]
    {
      assert vs[i].leader == d.names[i] && vs[j].leader == d.names[j];
    }
    forall l | l in d.byName
      ensures d.byName[l] in vs
    {
      var i :| 0 <= i < |d.names| && d.names[i] == l;
      assert vs[i] == d.byName[l];
    }
  }

  lemma {:induction false} ListsPerm(d: StratumDict, a: seq<Stratum>, b: seq<Stratum>)
    requires Lists(d, a) && multiset(a) == multiset(b)
    ensures Lists(d, b)
  {
    DistinctPerm(a, b);
    forall t | t in b
      ensures t in a
    {
      assert t in multiset(b);
    }
    forall t | t in a
      ensures t in b
    {
      assert t in multiset(a);
    }
  }

  /** The rank of a stratum: how many keys its leader reaches. */
  ghost function RankOf(g: Graph, d: StratumDict): map<string, nat> {
    map l | l in d.byName :: |ReachSet(g, l)|
  }

  lemma {:induction false} DepRanked(g: Graph, lb: Labels, d: StratumDict, ss: seq<Stratum>, t: Stratum, x: string)
    requires Closed(g) && LabelKeys(g, lb) && SccLabels(g, lb)
    requires DictCovers(g, lb, d) && DictNamed(g, lb, d) && DictMembers(g, lb, d) && DictDeps(g, lb, d)
    requires DictOk(d) && Lists(d, ss) && t in ss && x in t.deps
    ensures t.leader in RankOf(g, d) && RankedDep(ss, [], RankOf(g, d), t, x)
  {
    var l := t.leader;
    DepDown(g, lb, d, l, x);
    RankDrops(g, l, x);
    var u := d.byName[x];
    assert u in ss && u.leader == x;
  }

  lemma {:induction false} ListsRanked(g: Graph, lb: Labels, d: StratumDict, ss: seq<Stratum>)
    requires Closed(g) && LabelKeys(g, lb) && SccLabels(g, lb)
    requires DictCovers(g, lb, d) && DictNamed(g, lb, d) && DictMembers(g, lb, d) && DictDeps(g, lb, d)
    requires DictOk(d) && Lists(d, ss)
    ensures Ranked(ss, [], RankOf(g, d))
  {
    forall t, x | t in ss && x in t.deps
      ensures RankedDep(ss, [], RankOf(g, d), t, x)
    {
      DepRanked(g, lb, d, ss, t, x);
    }
  }

  lemma {:induction false} ListsLeaders(d: StratumDict, ss: seq<Stratum>)
    requires Lists(d, ss)
    ensures Distinct(Leaders(ss))
  {
    forall i, j | 0 <= i < j < |ss|
      ensures Leaders(ss)[i] != Leaders(ss)[j]
    {
      assert ss[i] in ss && ss[j] in ss;
    }
  }

  lemma {:induction false} ListsComponents(g: Graph, lb: Labels, d: StratumDict, ss: seq<Stratum>)
    requires LabelKeys(g, lb) && SccLabels(g, lb) && DictNamed(g, lb, d) && DictMembers(g, lb, d)
    requires Lists(d, ss)
    ensures forall i {:trigger IsComponent(g, ss[i])} | 0 <= i < |ss| :: IsComponent(g, ss[i])
  {
    forall i | 0 <= i < |ss|
      ensures IsComponent(g, ss[i])
    {
      var l := ss[i].leader;
      assert ss[i] in ss;
      LeaderFixed(g, lb, d, l);
      forall x
        ensures x in ss[i].members <==> x in g.edges && SameScc(g, x, l)
      {
        if x in g.edges {
          assert SameScc(g, x, l) <==> lb.leader[x] == lb.leader[l];
        }
      }
    }
  }

  lemma {:induction false} ListsCover(g: Graph, lb: Labels, d: StratumDict, ss: seq<Stratum>)
    requires LabelKeys(g, lb) && DictCovers(g, lb, d) && DictMembers(g, lb, d) && Lists(d, ss)
    ensures forall x | x in g.edges :: exists i :: 0 <= i < |ss| && x in ss[i].members
  {
    forall x | x in g.edges
      ensures exists i :: 0 <= i < |ss| && x in ss[i].members
    {
      var t := d.byName[lb.leader[x]];
      assert t in ss;
      var i :| 0 <= i < |ss| && ss[i] == t;
      assert x in ss[i].members;
    }
  }

  lemma {:induction false} ListsDisjoint(g: Graph, lb: Labels, d: StratumDict, ss: seq<Stratum>)
    requires LabelKeys(g, lb) && DictMembers(g, lb, d) && Lists(d, ss)
    ensures Disjoint(ss)
  {
    ListsLeaders(d, ss);
    forall i, j, x | 0 <= i < |ss| && 0 <= j < |ss| && x in ss[i].members && x in ss[j].members
      ensures i == j
    {
      assert ss[i] in ss && ss[j] in ss;
      assert Leaders(ss)[i] == Leaders(ss)[j];
    }
  }

  lemma {:induction false} ListsPartition(g: Graph, lb: Labels, d: StratumDict, ss: seq<Stratum>)
    requires LabelKeys(g, lb) && SccLabels(g, lb)
    requires DictCovers(g, lb, d) && DictNamed(g, lb, d) && DictMembers(g, lb, d)
    requires Lists(d, ss)
    ensures Partition(g, ss)
  {
    ListsLeaders(d, ss);
    ListsComponents(g, lb, d, ss);
    ListsCover(g, lb, d, ss);
    ListsDisjoint(g, lb, d, ss);
  }

  lemma {:induction false} DepIsUsed(g: Graph, lb: Labels, d: StratumDict, ss: seq<Stratum>, i: int, x: string)
    requires Closed(g) && LabelKeys(g, lb)
    requires DictCovers(g, lb, d) && DictMembers(g, lb, d) && DictDeps(g, lb, d) && Lists(d, ss)
    requires 0 <= i < |ss| && x in ss[i].deps
    ensures exists j {:trigger Uses(g, ss, i, j)} | 0 <= j < |ss| && j != i && Uses(g, ss, i, j) :: ss[j].leader == x
  {
    ListsCover(g, lb, d, ss);
    assert ss[i] in ss;
    var n, m :| n in ss[i].members && Edge(g, n, m) && m in lb.leader && lb.leader[m] == x;
    var j :| 0 <= j < |ss| && m in ss[j].members;
    assert ss[j] in ss;
    assert Uses(g, ss, i, j);
  }

  lemma {:induction false} UsedIsDep(g: Graph, lb: Labels, d: StratumDict, ss: seq<Stratum>, i: int, j: int)
    requires LabelKeys(g, lb) && DictMembers(g, lb, d) && DictDeps(g, lb, d) && Lists(d, ss)
    requires 0 <= i < |ss| && 0 <= j < |ss| && j != i && Uses(g, ss, i, j)
    ensures ss[j].leader in ss[i].deps
  {
    ListsLeaders(d, ss);
    var x := ss[j].leader;
    var n, m :| n in ss[i].members && m in ss[j].members && Edge(g, n, m);
    assert ss[i] in ss && ss[j] in ss;
    assert Leaders(ss)[i] != Leaders(ss)[j];
    assert UsesLeader(g, lb.leader, d.byName[ss[i].leader].members, x);
  }

  lemma {:induction false} ListsDeps(g: Graph, lb: Labels, d: StratumDict, ss: seq<Stratum>)
    requires Closed(g) && LabelKeys(g, lb)
    requires DictCovers(g, lb, d) && DictMembers(g, lb, d) && DictDeps(g, lb, d) && Lists(d, ss)
    ensures DepsExact(g, ss)
  {
    forall i, x | 0 <= i < |ss|
      ensures x in ss[i].deps <==> exists j {:trigger Uses(g, ss, i, j)} | 0 <= j < |ss| && j != i && Uses(g, ss, i, j) :: ss[j].leader == x
    {
      if x in ss[i].deps {
        DepIsUsed(g, lb, d, ss, i, x);
      }
      if exists j {:trigger Uses(g, ss, i, j)} | 0 <= j < |ss| && j != i && Uses(g, ss, i, j) :: ss[j].leader == x {
        var j :| 0 <= j < |ss| && j != i && Uses(g, ss, i, j) && ss[j].leader == x;
        UsedIsDep(g, lb, d, ss, i, j);
      }
    }
  }

  /** The dictionary `stratify` builds from a labelling, deps included. */
  function Built(g: Graph, lb: Labels): (d: StratumDict)
    requires Closed(g) && LabelsOk(lb) && LabelKeys(g, lb)
    ensures DictOk(d) && NamesOk(d)
  {
    var d0 := BuildStratumDict(lb);
    ComputeDeps(d0, g, lb.leader)
  }

  lemma {:induction false} BuiltFacts(g: Graph, lb: Labels)
    requires Closed(g) && LabelsOk(lb) && LabelKeys(g, lb)
    ensures DictCovers(g, lb, Built(g, lb)) && DictNamed(g, lb, Built(g, lb))
    ensures DictMembers(g, lb, Built(g, lb)) && DictDeps(g, lb, Built(g, lb))
  {
    var d0 := BuildStratumDict(lb);
    var d := ComputeDeps(d0, g, lb.leader);
    assert Built(g, lb) == d;
    forall l | l in d.byName
      ensures exists x | x in g.edges :: lb.leader[x] == l
    {
      var x :| x in lb.leader && lb.leader[x] == l;
    }
    forall l, x | l in d.byName
      ensures x in d.byName[l].members <==> x in g.edges && lb.leader[x] == l
    {
      assert d.byName[l].members == d0.byName[l].members;
    }
  }

  /** Sorting the strata built from a component labelling finishes, with a stratification. */
  lemma {:induction false} BuiltSorts(g: Graph, lb: Labels)
    requires Closed(g) && LabelsOk(lb) && LabelKeys(g, lb) && SccLabels(g, lb)
    ensures SortStrata(Built(g, lb)).Some?
    ensures Partition(g, SortStrata(Built(g, lb)).value)
    ensures DepsExact(g, SortStrata(Built(g, lb)).value)
    ensures ReadyFrom(SortStrata(Built(g, lb)).value, 0)
  {
    var d := Built(g, lb);
    BuiltFacts(g, lb);
    ValuesLists(d);
    ListsRanked(g, lb, d, Values(d));
    SortSucceeds(Values(d), [], RankOf(g, d));
    var ss := SortStrata(d).value;
    ListsPerm(d, Values(d), ss);
    ListsPartition(g, lb, d, ss);
    ListsDeps(g, lb, d, ss);
  }

  /**
    `stratify` (datalog.js:84-90): fails exactly when some dependency is not
    a key; otherwise cuts the keys into one stratum per strongly connected
    component, gives each stratum the leaders of the other strata it uses,
    and orders the strata so that each comes after all of those. The sort
    always finishes here, since a stratum only depends on components that
    cannot reach back to it.
   */
  function Stratify(g: Graph): (r: Result<seq<Stratum>, SccError>)
    requires WellFormed(g)
    ensures r.Failure? <==> !Closed(g)
    ensures r.Failure? ==> forall x :: x in r.error.names <==> x !in g.edges && Listed(g, x)
    ensures r.Success? ==> Partition(g, r.value) && DepsExact(g, r.value) && ReadyFrom(r.value, 0)
  {
    var scc := FindSCCs(g);
    if scc.Failure? then Failure(scc.error)
    else
      var lb := scc.value;
      BuiltSorts(g, lb);
      Success(SortStrata(Built(g, lb)).value)
  }
}
