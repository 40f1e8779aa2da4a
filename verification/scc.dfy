/**
  Strongly connected components of a dependency graph, found with Kosaraju's
  two-pass algorithm: a depth-first post-order over the graph, then a
  depth-first labelling of the reversed graph in reverse finishing order.
 */
module Scc {
  import opened Wrappers
  import opened Graphs

  datatype SccError = UndefinedRules(names: seq<string>)

  // ----------------------------------------------------------------
  // Validation: every dependency must name a key
  // ----------------------------------------------------------------

  /** Appends to `acc` each name of `ds` that is not a key, skipping repeats. */
  function AddMissing(g: Graph, ds: seq<string>, acc: seq<string>): (r: seq<string>)
    requires Distinct(acc)
    ensures Distinct(r) && acc <= r
    ensures forall x :: x in r <==> x in acc || (x in ds && x !in g.edges)
    decreases |ds|
  {
    if ds == [] then acc
    else if ds[0] !in g.edges && ds[0] !in acc then AddMissing(g, ds[1..], acc + [ds[0]])
    else AddMissing(g, ds[1..], acc)
  }

  /** Some key at position `i` or later lists `x` as a dependency. */
  ghost predicate ListedFrom(g: Graph, i: nat, x: string) {
    exists j :: i <= j < |g.keys| && g.keys[j] in g.edges && x in g.edges[g.keys[j]]
  }

  /** Some key lists `x` as a dependency. */
  ghost predicate Listed(g: Graph, x: string) {
    exists k :: k in g.edges && x in g.edges[k]
  }

  function MissingFrom(g: Graph, i: nat, acc: seq<string>): (r: seq<string>)
    requires WellFormed(g) && i <= |g.keys| && Distinct(acc)
    ensures Distinct(r)
    ensures forall x :: x in r <==> x in acc || (x !in g.edges && ListedFrom(g, i, x))
    decreases |g.keys| - i
  {
    if i == |g.keys| then acc
    else
      var r := MissingFrom(g, i + 1, AddMissing(g, g.edges[g.keys[i]], acc));
      assert forall x :: ListedFrom(g, i, x) <==> x in g.edges[g.keys[i]] || ListedFrom(g, i + 1, x) by {
        forall x | ListedFrom(g, i, x)
          ensures x in g.edges[g.keys[i]] || ListedFrom(g, i + 1, x)
        {
          var j :| i <= j < |g.keys| && g.keys[j] in g.edges && x in g.edges[g.keys[j]];
          if j > i {
            assert ListedFrom(g, i + 1, x);
          }
        }
        forall x | x in g.edges[g.keys[i]] || ListedFrom(g, i + 1, x)
          ensures ListedFrom(g, i, x)
        {
          if x in g.edges[g.keys[i]] {
            assert i <= i < |g.keys| && x in g.edges[g.keys[i]];
          } else {
            var j :| i + 1 <= j < |g.keys| && g.keys[j] in g.edges && x in g.edges[g.keys[j]];
          }
        }
      }
      r
  }

  /**
    The names used as dependencies that are not keys, each once, in the order
    the graph is scanned (datalog.js:68-79).
   */
  function UndefinedReferences(g: Graph): (r: seq<string>)
    requires WellFormed(g)
    ensures Distinct(r)
    ensures forall x :: x in r <==> x !in g.edges && Listed(g, x)
    ensures r == [] <==> Closed(g)
  {
    var r := MissingFrom(g, 0, []);
    assert forall x :: Listed(g, x) <==> ListedFrom(g, 0, x) by {
      forall x | Listed(g, x)
        ensures ListedFrom(g, 0, x)
      {
        var k :| k in g.edges && x in g.edges[k];
        var j :| 0 <= j < |g.keys| && g.keys[j] == k;
      }
      forall x | ListedFrom(g, 0, x)
        ensures Listed(g, x)
      {
        var j :| 0 <= j < |g.keys| && g.keys[j] in g.edges && x in g.edges[g.keys[j]];
      }
    }
    assert r == [] <==> Closed(g) by {
      if r != [] {
        assert r[0] in r;
      }
      if !Closed(g) {
        var k, d :| k in g.edges && d in g.edges[k] && d !in g.edges;
        assert Listed(g, d);
        assert d in r;
      }
    }
    r
  }

  // ----------------------------------------------------------------
  // Reversing the edges
  // ----------------------------------------------------------------

  /** Records `s` as a predecessor of every name in `ds` (inner loop of datalog.js:13-19). */
  function AddReverse(rev: map<string, seq<string>>, s: string, ds: seq<string>): (r: map<string, seq<string>>)
    requires forall d | d in ds :: d in rev
    requires forall d | d in rev :: Distinct(rev[d])
    ensures r.Keys == rev.Keys
    ensures forall d | d in r :: Distinct(r[d])
    ensures forall d, x {:trigger x in r[d]} | d in r :: x in r[d] <==> x in rev[d] || (x == s && d in ds)
    decreases |ds|
  {
    if ds == [] then rev
    else
      var d := ds[0];
      var rev' := if s in rev[d] then rev else rev[d := rev[d] + [s]];
      assert s !in rev[d] ==> Distinct(rev[d] + [s]) by {
        assert Distinct(rev[d]);
      }
      AddReverse(rev', s, ds[1..])
  }

  function ReverseFrom(g: Graph, i: nat, rev: map<string, seq<string>>): (r: map<string, seq<string>>)
    requires WellFormed(g) && Closed(g) && i <= |g.keys|
    requires rev.Keys == g.edges.Keys
    requires forall d | d in rev :: Distinct(rev[d])
    ensures r.Keys == g.edges.Keys
    ensures forall d | d in r :: Distinct(r[d])
    ensures forall d, x {:trigger x in r[d]} | d in r ::
      x in r[d] <==> x in rev[d] || (x in g.keys[i..] && d in g.edges[x])
    decreases |g.keys| - i
  {
    if i == |g.keys| then rev
    else
      assert forall x :: x in g.keys[i..] <==> x == g.keys[i] || x in g.keys[i + 1..] by {
        assert g.keys[i..] == [g.keys[i]] + g.keys[i + 1..];
      }
      ReverseFrom(g, i + 1, AddReverse(rev, g.keys[i], g.edges[g.keys[i]]))
  }

  /**
    The transposed graph over the same keys (datalog.js:7-21): `s` is listed
    under `d`, once, exactly when `d` is listed under `s`.
   */
  function ReverseEdges(g: Graph): (r: Graph)
    requires WellFormed(g) && Closed(g)
    ensures r.keys == g.keys && r.edges.Keys == g.edges.Keys
    ensures WellFormed(r) && Closed(r)
    ensures forall d | d in r.edges :: Distinct(r.edges[d])
    ensures forall a, b :: Edge(r, a, b) <==> Edge(g, b, a)
  {
    var empty := map k | k in g.edges :: [];
    var rev := ReverseFrom(g, 0, empty);
    var r := Graph(g.keys, rev);
    assert forall a, b :: Edge(r, a, b) <==> Edge(g, b, a) by {
      forall a, b
        ensures Edge(r, a, b) <==> Edge(g, b, a)
      {
        assert g.keys[0..] == g.keys;
      }
    }
    r
  }

  // ----------------------------------------------------------------
  // First pass: depth-first finishing order (datalog.js:23-40)
  // ----------------------------------------------------------------

  /** The traversal state: nodes visited so far and the finishing stack. */
  datatype Dfs = Dfs(visited: set<string>, stack: seq<string>)

  /** Visited nodes that have not finished: the active depth-first path. */
  function Gray(st: Dfs): set<string> {
    st.visited - set x | x in st.stack
  }

  lemma SubsetCard(a: set<string>, b: set<string>)
    requires a <= b
    ensures |a| <= |b|
  {
    if a != {} {
      var x :| x in a;
      SubsetCard(a - {x}, b - {x});
    }
  }

  lemma StrictSubsetCard(a: set<string>, b: set<string>)
    requires a < b
    ensures |a| < |b|
  {
    assert b - a != {};
    var x :| x in b - a;
    SubsetCard(a, b - {x});
  }

  /** Every finished node has been visited. */
  predicate StackVisited(st: Dfs) {
    forall x | x in st.stack :: x in st.visited
  }

  /** `dfs(n)` of the first pass: visit `n`'s successors, then push `n`. */
  function Visit(g: Graph, n: string, st: Dfs): (r: Dfs)
    requires Closed(g) && n in g.edges && st.visited <= g.edges.Keys && StackVisited(st)
    ensures st.visited <= r.visited <= g.edges.Keys && StackVisited(r)
    ensures st.stack <= r.stack
    ensures n in r.visited
    ensures Gray(r) == Gray(st)
    decreases |g.edges.Keys - st.visited|, 0
  {
    if n in st.visited then st
    else
      StrictSubsetCard(g.edges.Keys - (st.visited + {n}), g.edges.Keys - st.visited);
      GrayEnter(st, n);
      var inner := VisitAll(g, g.edges[n], Dfs(st.visited + {n}, st.stack));
      GrayFinish(inner, n);
      Dfs(inner.visited, inner.stack + [n])
  }

  /** Entering an unvisited node makes it gray. */
  lemma GrayEnter(st: Dfs, n: string)
    requires n !in st.visited && StackVisited(st)
    ensures Gray(Dfs(st.visited + {n}, st.stack)) == Gray(st) + {n}
  {
  }

  /** Finishing a node takes it off the gray set. */
  lemma GrayFinish(st: Dfs, n: string)
    ensures Gray(Dfs(st.visited, st.stack + [n])) == Gray(st) - {n}
  {
    assert (set x | x in st.stack + [n]) == (set x | x in st.stack) + {n};
  }

  /** `edges.forEach(dfs)`: visit each name of `ns` in turn. */
  function VisitAll(g: Graph, ns: seq<string>, st: Dfs): (r: Dfs)
    requires Closed(g) && (forall m | m in ns :: m in g.edges)
    requires st.visited <= g.edges.Keys && StackVisited(st)
    ensures st.visited <= r.visited <= g.edges.Keys && StackVisited(r)
    ensures st.stack <= r.stack
    ensures forall m | m in ns :: m in r.visited
    ensures Gray(r) == Gray(st)
    decreases |g.edges.Keys - st.visited|, |ns|
  {
    if ns == [] then st
    else
      var st1 := Visit(g, ns[0], st);
      SubsetCard(g.edges.Keys - st1.visited, g.edges.Keys - st.visited);
      VisitAll(g, ns[1..], st1)
  }

  /**
    The finishing order: every key once, in the order its traversal completed,
    with the finishing property of depth-first search.
   */
  function FindOrder(g: Graph): (r: seq<string>)
    requires WellFormed(g) && Closed(g)
    ensures Distinct(r)
    ensures forall x :: x in r <==> x in g.edges
    ensures FinishProp(g, r)
  {
    var st0 := Dfs({}, []);
    assert Gray(st0) == {};
    VisitAllInv(g, g.keys, st0);
    var st := VisitAll(g, g.keys, st0);
    assert forall x :: x in st.stack <==> x in g.edges by {
      forall x | x in g.edges
        ensures x in st.stack
      {
        assert x in g.keys;
        assert x !in Gray(st);
      }
    }
    st.stack
  }

  // Invariants of the first pass

  /** Every successor of a finished node has been visited. */
  ghost predicate SuccVisited(g: Graph, st: Dfs) {
    forall f, y | f in st.stack && Edge(g, f, y) :: y in st.visited
  }

  /**
    When `s[i]` finished, every node reachable from it had finished too, except
    those reachable only through an unfinished node of `s[i]`'s own component.
   */
  ghost predicate FinishProp(g: Graph, s: seq<string>) {
    forall i, w | 0 <= i < |s| && Reach(g, s[i], w) && w !in s[..i + 1] ::
      exists x :: x !in s[..i + 1] && SameScc(g, x, s[i])
  }

  ghost predicate PassInv(g: Graph, st: Dfs) {
    && Distinct(st.stack)
    && StackVisited(st)
    && st.visited <= g.edges.Keys
    && SuccVisited(g, st)
    && FinishProp(g, st.stack)
  }

  /** Pushing `n` once all its successors are visited keeps the invariant. */
  lemma PushInv(g: Graph, n: string, st: Dfs, inner: Dfs)
    requires Closed(g) && n in g.edges
    requires PassInv(g, inner)
    requires n in Gray(inner)
    requires forall y | Edge(g, n, y) :: y in inner.visited
    requires forall x | x in Gray(inner) && x != n :: Reach(g, x, n)
    ensures PassInv(g, Dfs(inner.visited, inner.stack + [n]))
  {
    var r := Dfs(inner.visited, inner.stack + [n]);
    var k := |inner.stack|;
    assert Distinct(r.stack);
    assert SuccVisited(g, r);
    forall i, w | 0 <= i < |r.stack| && Reach(g, r.stack[i], w) && w !in r.stack[..i + 1]
      ensures exists x :: x !in r.stack[..i + 1] && SameScc(g, x, r.stack[i])
    {
      if i < k {
        assert r.stack[..i + 1] == inner.stack[..i + 1];
        assert r.stack[i] == inner.stack[i];
      } else {
        assert r.stack[..i + 1] == r.stack;
        var c := set x | x in r.stack;
        EscapeReach(g, n, w, c, inner.visited);
        var x :| x in inner.visited && x !in c && Reach(g, n, x);
        assert x in Gray(inner) && x != n;
        assert SameScc(g, x, n);
      }
    }
  }

  lemma {:induction false} VisitInv(g: Graph, n: string, st: Dfs)
    requires Closed(g) && n in g.edges && PassInv(g, st)
    requires forall x | x in Gray(st) :: Reach(g, x, n)
    ensures PassInv(g, Visit(g, n, st))
    decreases |g.edges.Keys - st.visited|, 0
  {
    if n !in st.visited {
      StrictSubsetCard(g.edges.Keys - (st.visited + {n}), g.edges.Keys - st.visited);
      var st' := Dfs(st.visited + {n}, st.stack);
      assert Gray(st') == Gray(st) + {n};
      forall m, x | m in g.edges[n] && x in Gray(st')
        ensures Reach(g, x, m)
      {
        ReachEdge(g, n, m);
        if x != n {
          ReachTrans(g, x, n, m);
        }
      }
      VisitAllInv(g, g.edges[n], st');
      var inner := VisitAll(g, g.edges[n], st');
      PushInv(g, n, st, inner);
    }
  }

  lemma {:induction false} VisitAllInv(g: Graph, ns: seq<string>, st: Dfs)
    requires Closed(g) && (forall m | m in ns :: m in g.edges) && PassInv(g, st)
    requires forall m, x | m in ns && x in Gray(st) :: Reach(g, x, m)
    ensures PassInv(g, VisitAll(g, ns, st))
    decreases |g.edges.Keys - st.visited|, |ns|
  {
    if ns != [] {
      VisitInv(g, ns[0], st);
      var st1 := Visit(g, ns[0], st);
      SubsetCard(g.edges.Keys - st1.visited, g.edges.Keys - st.visited);
      VisitAllInv(g, ns[1..], st1);
    }
  }

  /**
    The property the second pass relies on: if `u` reaches `s[j]` but not the
    other way round, some node of `u`'s component finished after `s[j]`.
   */
  ghost predicate LaterInScc(g: Graph, s: seq<string>) {
    forall j, u {:trigger Reaches(g, s, j, u)} | Reaches(g, s, j, u) ::
      Reach(g, s[j], u) || exists i :: j < i < |s| && SameScc(g, s[i], u)
  }

  /** `u` reaches `s[j]`. */
  ghost predicate Reaches(g: Graph, s: seq<string>, j: int, u: string) {
    0 <= j < |s| && Reach(g, u, s[j])
  }

  lemma {:induction false} Climb(g: Graph, s: seq<string>, j: nat, u: string, i: nat)
    requires Distinct(s) && (forall x :: x in s <==> x in g.edges) && FinishProp(g, s)
    requires i < j < |s| && SameScc(g, s[i], u)
    requires Reach(g, u, s[j]) && !Reach(g, s[j], u)
    ensures exists i' :: j < i' < |s| && SameScc(g, s[i'], u)
    decreases j - i
  {
    ReachTrans(g, s[i], u, s[j]);
    assert s[j] !in s[..i + 1];
    var x :| x !in s[..i + 1] && SameScc(g, x, s[i]);
    ReachIsKey(g, x, s[i]);
    var i' :| 0 <= i' < |s| && s[i'] == x;
    assert i' > i;
    ReachTrans(g, x, s[i], u);
    ReachTrans(g, u, s[i], x);
    if i' < j {
      Climb(g, s, j, u, i');
    } else {
      assert i' != j;
    }
  }

  lemma FinishOrderLater(g: Graph, s: seq<string>)
    requires Distinct(s) && (forall x :: x in s <==> x in g.edges) && FinishProp(g, s)
    ensures LaterInScc(g, s)
  {
    forall j, u | Reaches(g, s, j, u)
      ensures Reach(g, s[j], u) || exists i :: j < i < |s| && SameScc(g, s[i], u)
    {
      ReachIsKey(g, u, s[j]);
      var i :| 0 <= i < |s| && s[i] == u;
      ReachRefl(g, u);
      if i < j && !Reach(g, s[j], u) {
        Climb(g, s, j, u, i);
      } else if !Reach(g, s[j], u) {
        assert i != j;
      }
    }
  }

  // ----------------------------------------------------------------
  // Second pass: labelling the reversed graph (datalog.js:42-66)
  // ----------------------------------------------------------------

  /** The `sccs` object: each labelled node's leader, keys in labelling order. */
  datatype Labels = Labels(order: seq<string>, leader: map<string, string>)

  predicate LabelsOk(lb: Labels) {
    && Distinct(lb.order)
    && (forall x | x in lb.order :: x in lb.leader)
    && (forall x | x in lb.leader :: x in lb.order)
  }

  /** Labels `n` with `src`, recording it in the order. */
  function Mark(lb: Labels, n: string, src: string): (r: Labels)
    requires LabelsOk(lb) && n !in lb.leader
    ensures LabelsOk(r) && r.leader.Keys == lb.leader.Keys + {n} && r.leader[n] == src
    ensures forall k {:trigger r.leader[k]} | k in lb.leader :: r.leader[k] == lb.leader[k]
  {
    assert n !in lb.order;
    Labels(lb.order + [n], lb.leader[n := src])
  }

  /** `dfs(n)` of the second pass: label `n` and its predecessors with `src`. */
  function Assign(rg: Graph, n: string, src: string, lb: Labels): (r: Labels)
    requires Closed(rg) && n in rg.edges && lb.leader.Keys <= rg.edges.Keys && LabelsOk(lb)
    ensures LabelsOk(r) && lb.leader.Keys <= r.leader.Keys <= rg.edges.Keys
    ensures n in r.leader
    ensures forall k {:trigger r.leader[k]} | k in lb.leader :: r.leader[k] == lb.leader[k]
    ensures forall k {:trigger r.leader[k]} | k in r.leader && k !in lb.leader :: r.leader[k] == src
    decreases |rg.edges.Keys - lb.leader.Keys|, 0
  {
    if n in lb.leader then lb
    else
      StrictSubsetCard(rg.edges.Keys - (lb.leader.Keys + {n}), rg.edges.Keys - lb.leader.Keys);
      AssignAll(rg, rg.edges[n], src, Mark(lb, n, src))
  }

  function AssignAll(rg: Graph, ns: seq<string>, src: string, lb: Labels): (r: Labels)
    requires Closed(rg) && (forall m | m in ns :: m in rg.edges)
    requires lb.leader.Keys <= rg.edges.Keys && LabelsOk(lb)
    ensures LabelsOk(r) && lb.leader.Keys <= r.leader.Keys <= rg.edges.Keys
    ensures forall m | m in ns :: m in r.leader
    ensures forall k {:trigger r.leader[k]} | k in lb.leader :: r.leader[k] == lb.leader[k]
    ensures forall k {:trigger r.leader[k]} | k in r.leader && k !in lb.leader :: r.leader[k] == src
    decreases |rg.edges.Keys - lb.leader.Keys|, |ns|
  {
    if ns == [] then lb
    else
      var lb1 := Assign(rg, ns[0], src, lb);
      SubsetCard(rg.edges.Keys - lb1.leader.Keys, rg.edges.Keys - lb.leader.Keys);
      AssignAll(rg, ns[1..], src, lb1)
  }

  ghost predicate Transposed(g: Graph, rg: Graph) {
    && rg.edges.Keys == g.edges.Keys
    && forall a, b :: Edge(rg, a, b) <==> Edge(g, b, a)
  }

  /** Every node labelled after `before` reaches `src` in the original graph. */
  ghost predicate NewReach(g: Graph, before: map<string, string>, after: map<string, string>, src: string) {
    forall w | w in after && w !in before :: Reach(g, w, src)
  }

  /** The predecessors of every node labelled after `before` are labelled. */
  ghost predicate NewClosed(rg: Graph, before: map<string, string>, after: map<string, string>) {
    forall w, m | w in after && w !in before && Edge(rg, w, m) :: m in after
  }

  lemma PredecessorsReach(g: Graph, rg: Graph, n: string, src: string)
    requires Closed(g) && Transposed(g, rg) && n in rg.edges && Reach(g, n, src)
    ensures forall m | m in rg.edges[n] :: Reach(g, m, src)
  {
    forall m | m in rg.edges[n]
      ensures Reach(g, m, src)
    {
      assert Edge(rg, n, m);
      ReachEdge(g, m, n);
      ReachTrans(g, m, n, src);
    }
  }

  lemma {:induction false} AssignInv(g: Graph, rg: Graph, n: string, src: string, lb: Labels)
    requires Closed(g) && Closed(rg) && Transposed(g, rg)
    requires n in rg.edges && lb.leader.Keys <= rg.edges.Keys && LabelsOk(lb)
    requires Reach(g, n, src)
    ensures NewReach(g, lb.leader, Assign(rg, n, src, lb).leader, src)
    ensures NewClosed(rg, lb.leader, Assign(rg, n, src, lb).leader)
    decreases |rg.edges.Keys - lb.leader.Keys|, 0
  {
    if n !in lb.leader {
      StrictSubsetCard(rg.edges.Keys - (lb.leader.Keys + {n}), rg.edges.Keys - lb.leader.Keys);
      PredecessorsReach(g, rg, n, src);
      AssignAllInv(g, rg, rg.edges[n], src, Mark(lb, n, src));
    }
  }

  lemma {:induction false} AssignAllInv(g: Graph, rg: Graph, ns: seq<string>, src: string, lb: Labels)
    requires Closed(g) && Closed(rg) && Transposed(g, rg)
    requires (forall m | m in ns :: m in rg.edges) && lb.leader.Keys <= rg.edges.Keys && LabelsOk(lb)
    requires forall m | m in ns :: Reach(g, m, src)
    ensures NewReach(g, lb.leader, AssignAll(rg, ns, src, lb).leader, src)
    ensures NewClosed(rg, lb.leader, AssignAll(rg, ns, src, lb).leader)
    decreases |rg.edges.Keys - lb.leader.Keys|, |ns|
  {
    if ns != [] {
      AssignInv(g, rg, ns[0], src, lb);
      var lb1 := Assign(rg, ns[0], src, lb);
      SubsetCard(rg.edges.Keys - lb1.leader.Keys, rg.edges.Keys - lb.leader.Keys);
      AssignAllInv(g, rg, ns[1..], src, lb1);
    }
  }

  /** Pops `s[k-1]`, ..., `s[0]` and labels from each (the `while` loop of datalog.js:60-63). */
  function LabelFrom(rg: Graph, s: seq<string>, k: nat, lb: Labels): (r: Labels)
    requires Closed(rg) && k <= |s| && (forall x | x in s :: x in rg.edges)
    requires lb.leader.Keys <= rg.edges.Keys && LabelsOk(lb)
    ensures LabelsOk(r) && lb.leader.Keys <= r.leader.Keys <= rg.edges.Keys
    ensures forall i | 0 <= i < k :: s[i] in r.leader
    decreases k
  {
    if k == 0 then lb
    else LabelFrom(rg, s, k - 1, Assign(rg, s[k - 1], s[k - 1], lb))
  }

  /** Labelled nodes form whole components. */
  ghost predicate SccClosed(g: Graph, l: map<string, string>) {
    forall a, b {:trigger SameScc(g, a, b)} | a in l && SameScc(g, a, b) :: b in l
  }

  /** Each labelled node is in its leader's component. */
  ghost predicate LeaderInScc(g: Graph, l: map<string, string>) {
    forall a {:trigger l[a]} | a in l :: SameScc(g, l[a], a)
  }

  /** Labelled nodes of one component share a leader. */
  ghost predicate SameLeader(g: Graph, l: map<string, string>) {
    forall a, b {:trigger l[a], l[b]} | a in l && b in l && SameScc(g, a, b) :: l[a] == l[b]
  }

  /** The labelled nodes form whole components, each led by one of its members. */
  ghost predicate Components(g: Graph, l: map<string, string>) {
    SccClosed(g, l) && LeaderInScc(g, l) && SameLeader(g, l)
  }

  /** `s[k..]` is labelled. */
  predicate LabelledFrom(s: seq<string>, k: nat, l: map<string, string>) {
    k <= |s| && forall i | k <= i < |s| :: s[i] in l
  }

  /** A path ending at a newly labelled node, avoiding old labels, is labelled throughout. */
  lemma {:induction false} PathBack(g: Graph, rg: Graph, p: seq<string>, before: map<string, string>, after: map<string, string>)
    requires Transposed(g, rg) && IsPath(g, p)
    requires p[|p| - 1] in after && p[|p| - 1] !in before
    requires forall i | 0 <= i < |p| :: p[i] !in before
    requires NewClosed(rg, before, after)
    ensures p[0] in after
    decreases |p|
  {
    if |p| > 1 {
      var q := p[1..];
      assert IsPath(g, q) by {
        forall i | 0 <= i < |q| - 1
          ensures Edge(g, q[i], q[i + 1])
        {
          assert q[i] == p[i + 1] && q[i + 1] == p[i + 2];
        }
      }
      PathBack(g, rg, q, before, after);
      assert Edge(g, p[0], p[1]);
      assert Edge(rg, p[1], p[0]);
    }
  }

  /** `s` lists exactly the keys of `g`, once each. */
  ghost predicate Enumerates(g: Graph, s: seq<string>) {
    Distinct(s) && forall x :: x in s <==> x in g.edges
  }

  /** The facts about the traversal that one labelling step relies on. */
  ghost predicate StepPre(g: Graph, rg: Graph, s: seq<string>, k: nat, lb: Labels) {
    && WellFormed(g) && Closed(g) && Closed(rg) && Transposed(g, rg)
    && Enumerates(g, s) && LaterInScc(g, s)
    && 0 < k <= |s| && lb.leader.Keys <= g.edges.Keys && LabelsOk(lb)
    && Components(g, lb.leader) && LabelledFrom(s, k, lb.leader)
  }

  /** A node newly labelled from `s[k-1]` lies in its component. */
  lemma NewAreInScc(g: Graph, rg: Graph, s: seq<string>, k: nat, lb: Labels, w: string)
    requires StepPre(g, rg, s, k, lb) && s[k - 1] !in lb.leader
    requires NewReach(g, lb.leader, Assign(rg, s[k - 1], s[k - 1], lb).leader, s[k - 1])
    requires w in Assign(rg, s[k - 1], s[k - 1], lb).leader && w !in lb.leader
    ensures SameScc(g, s[k - 1], w)
  {
    var l := lb.leader;
    assert Reaches(g, s, k - 1, w);
  }

  /** Every node of `s[k-1]`'s component is labelled from it. */
  lemma SccAreNew(g: Graph, rg: Graph, s: seq<string>, k: nat, lb: Labels, w: string)
    requires StepPre(g, rg, s, k, lb) && s[k - 1] !in lb.leader
    requires NewClosed(rg, lb.leader, Assign(rg, s[k - 1], s[k - 1], lb).leader)
    requires SameScc(g, s[k - 1], w)
    ensures w in Assign(rg, s[k - 1], s[k - 1], lb).leader
  {
    var src := s[k - 1];
    var l := lb.leader;
    var l' := Assign(rg, src, src, lb).leader;
    var p :| IsPath(g, p) && p[0] == w && p[|p| - 1] == src;
    forall i | 0 <= i < |p|
      ensures p[i] !in l
    {
      PathReach(g, p, i);
      ReachTrans(g, src, w, p[i]);
      if p[i] in l {
        assert SameScc(g, p[i], src);
      }
    }
    PathBack(g, rg, p, l, l');
  }

  /** The facts about one labelling step from an unlabelled `s[k-1]`. */
  ghost predicate FreshStep(g: Graph, rg: Graph, s: seq<string>, k: nat, lb: Labels) {
    && StepPre(g, rg, s, k, lb) && s[k - 1] !in lb.leader
    && NewReach(g, lb.leader, Assign(rg, s[k - 1], s[k - 1], lb).leader, s[k - 1])
    && NewClosed(rg, lb.leader, Assign(rg, s[k - 1], s[k - 1], lb).leader)
  }

  lemma StepClosed(g: Graph, rg: Graph, s: seq<string>, k: nat, lb: Labels)
    requires FreshStep(g, rg, s, k, lb)
    ensures SccClosed(g, Assign(rg, s[k - 1], s[k - 1], lb).leader)
  {
    var src := s[k - 1];
    var l := lb.leader;
    var l' := Assign(rg, src, src, lb).leader;
    forall a, b | a in l' && SameScc(g, a, b)
      ensures b in l'
    {
      if a !in l {
        NewAreInScc(g, rg, s, k, lb, a);
        ReachTrans(g, src, a, b);
        ReachTrans(g, b, a, src);
        SccAreNew(g, rg, s, k, lb, b);
      }
    }
  }

  lemma StepLeaders(g: Graph, rg: Graph, s: seq<string>, k: nat, lb: Labels)
    requires FreshStep(g, rg, s, k, lb)
    ensures LeaderInScc(g, Assign(rg, s[k - 1], s[k - 1], lb).leader)
  {
    var l := lb.leader;
    var l' := Assign(rg, s[k - 1], s[k - 1], lb).leader;
    forall a | a in l'
      ensures SameScc(g, l'[a], a)
    {
      if a !in l {
        NewAreInScc(g, rg, s, k, lb, a);
      }
    }
  }

  lemma StepSame(g: Graph, rg: Graph, s: seq<string>, k: nat, lb: Labels)
    requires FreshStep(g, rg, s, k, lb)
    ensures SameLeader(g, Assign(rg, s[k - 1], s[k - 1], lb).leader)
  {
    var src := s[k - 1];
    var l := lb.leader;
    var l' := Assign(rg, src, src, lb).leader;
    forall a, b | a in l' && b in l' && SameScc(g, a, b)
      ensures l'[a] == l'[b]
    {
      if a in l && b !in l {
        assert false;
      } else if a !in l && b in l {
        assert SameScc(g, b, a);
        assert false;
      } else if a !in l {
        assert l'[a] == src && l'[b] == src;
      }
    }
  }

  lemma LabelStep(g: Graph, rg: Graph, s: seq<string>, k: nat, lb: Labels)
    requires StepPre(g, rg, s, k, lb)
    ensures Components(g, Assign(rg, s[k - 1], s[k - 1], lb).leader)
  {
    var src := s[k - 1];
    if src !in lb.leader {
      ReachRefl(g, src);
      AssignInv(g, rg, src, src, lb);
      assert FreshStep(g, rg, s, k, lb);
      StepClosed(g, rg, s, k, lb);
      StepLeaders(g, rg, s, k, lb);
      StepSame(g, rg, s, k, lb);
    }
  }

  lemma LabelFromStep(rg: Graph, s: seq<string>, k: nat, lb: Labels)
    requires Closed(rg) && 0 < k <= |s| && (forall x | x in s :: x in rg.edges)
    requires lb.leader.Keys <= rg.edges.Keys && LabelsOk(lb)
    ensures LabelFrom(rg, s, k, lb) == LabelFrom(rg, s, k - 1, Assign(rg, s[k - 1], s[k - 1], lb))
  {
  }

  lemma {:induction false} LabelFromInv(g: Graph, rg: Graph, s: seq<string>, k: nat, lb: Labels)
    requires WellFormed(g) && Closed(g) && Closed(rg) && Transposed(g, rg)
    requires Enumerates(g, s) && LaterInScc(g, s)
    requires k <= |s| && lb.leader.Keys <= g.edges.Keys && LabelsOk(lb)
    requires Components(g, lb.leader) && LabelledFrom(s, k, lb.leader)
    requires forall x | x in s :: x in rg.edges
    ensures Components(g, LabelFrom(rg, s, k, lb).leader)
    decreases k
  {
    if k > 0 {
      assert StepPre(g, rg, s, k, lb);
      LabelStep(g, rg, s, k, lb);
      var lb' := Assign(rg, s[k - 1], s[k - 1], lb);
      assert lb'.leader.Keys <= g.edges.Keys;
      assert LabelledFrom(s, k - 1, lb'.leader);
      LabelFromInv(g, rg, s, k - 1, lb');
      LabelFromStep(rg, s, k, lb);
    } else {
      assert LabelFrom(rg, s, k, lb) == lb;
    }
  }

  /** With every node labelled, equal leaders mean the same component. */
  lemma SameLeaderIff(g: Graph, l: map<string, string>)
    requires Components(g, l) && l.Keys == g.edges.Keys
    ensures forall a, b | a in g.edges && b in g.edges :: l[a] == l[b] <==> SameScc(g, a, b)
  {
    forall a, b | a in g.edges && b in g.edges && l[a] == l[b]
      ensures SameScc(g, a, b)
    {
      assert SameScc(g, l[a], a) && SameScc(g, l[b], b);
      ReachTrans(g, a, l[a], b);
      ReachTrans(g, b, l[b], a);
    }
  }

  lemma CoversKeys(g: Graph, s: seq<string>, l: map<string, string>)
    requires Enumerates(g, s) && l.Keys <= g.edges.Keys
    requires forall i | 0 <= i < |s| :: s[i] in l
    ensures l.Keys == g.edges.Keys
  {
    forall x | x in g.edges
      ensures x in l
    {
      var i :| 0 <= i < |s| && s[i] == x;
    }
  }

  /** The two passes over a graph without undefined references. */
  function Label(g: Graph): (lb: Labels)
    requires WellFormed(g) && Closed(g)
    ensures LabelsOk(lb) && lb.leader.Keys == g.edges.Keys && Components(g, lb.leader)
  {
    var s := FindOrder(g);
    var rg := ReverseEdges(g);
    FinishOrderLater(g, s);
    var lb0 := Labels([], map[]);
    LabelFromInv(g, rg, s, |s|, lb0);
    var lb := LabelFrom(rg, s, |s|, lb0);
    CoversKeys(g, s, lb.leader);
    lb
  }

  /**
    `findSCCs` (datalog.js:42-66): fails exactly when some dependency is not a
    key, naming every such dependency; otherwise labels every key, and two keys
    get the same leader exactly when each reaches the other. A leader is a
    member of the component it names.
   */
  function FindSCCs(g: Graph): (r: Result<Labels, SccError>)
    requires WellFormed(g)
    ensures r.Failure? <==> !Closed(g)
    ensures r.Failure? ==> forall x :: x in r.error.names <==> x !in g.edges && Listed(g, x)
    ensures r.Success? ==> LabelsOk(r.value) && r.value.leader.Keys == g.edges.Keys
    ensures r.Success? ==> forall a | a in g.edges :: SameScc(g, r.value.leader[a], a)
    ensures r.Success? ==> forall a, b | a in g.edges && b in g.edges ::
      r.value.leader[a] == r.value.leader[b] <==> SameScc(g, a, b)
  {
    var undefined := UndefinedReferences(g);
    if undefined != [] then Failure(UndefinedRules(undefined))
    else
      var lb := Label(g);
      SameLeaderIff(g, lb.leader);
      Success(lb)
  }
}
