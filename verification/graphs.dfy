/**
  Dependency graphs as the engine builds them: a JavaScript object mapping a rule
  name to the list of names it depends on. The object's key order is kept as an
  explicit sequence because the traversals iterate keys in that order.
 */
module Graphs {

  datatype Graph = Graph(keys: seq<string>, edges: map<string, seq<string>>)

  predicate Distinct<T(==)>(s: seq<T>) {
    forall i, j | 0 <= i < j < |s| :: s[i] != s[j]
  }

  /** The key sequence enumerates exactly the keys of the edge map, once each. */
  predicate WellFormed(g: Graph) {
    && Distinct(g.keys)
    && (forall k | k in g.keys :: k in g.edges)
    && (forall k | k in g.edges :: k in g.keys)
  }

  /** Every name listed as a dependency is itself a key. */
  predicate Closed(g: Graph) {
    forall k, d | k in g.edges && d in g.edges[k] :: d in g.edges
  }

  predicate Edge(g: Graph, a: string, b: string) {
    a in g.edges && b in g.edges[a]
  }

  ghost predicate IsPath(g: Graph, p: seq<string>) {
    && |p| > 0
    && p[|p| - 1] in g.edges
    && forall i | 0 <= i < |p| - 1 :: Edge(g, p[i], p[i + 1])
  }

  /** `b` is reachable from the key `a` by zero or more edges. */
  ghost predicate Reach(g: Graph, a: string, b: string) {
    exists p :: IsPath(g, p) && p[0] == a && p[|p| - 1] == b
  }

  ghost predicate SameScc(g: Graph, a: string, b: string) {
    Reach(g, a, b) && Reach(g, b, a)
  }

  lemma ReachRefl(g: Graph, a: string)
    requires a in g.edges
    ensures Reach(g, a, a)
  {
    assert IsPath(g, [a]);
  }

  lemma ReachEdge(g: Graph, a: string, b: string)
    requires Closed(g) && Edge(g, a, b)
    ensures Reach(g, a, b)
  {
    assert IsPath(g, [a, b]);
  }

  lemma ReachTrans(g: Graph, a: string, b: string, c: string)
    requires Reach(g, a, b) && Reach(g, b, c)
    ensures Reach(g, a, c)
  {
    var p :| IsPath(g, p) && p[0] == a && p[|p| - 1] == b;
    var q :| IsPath(g, q) && q[0] == b && q[|q| - 1] == c;
    var r := p + q[1..];
    assert IsPath(g, r) by {
      forall i | 0 <= i < |r| - 1
        ensures Edge(g, r[i], r[i + 1])
      {
        if i < |p| - 1 {
          assert r[i] == p[i] && r[i + 1] == p[i + 1];
        } else {
          assert r[i] == q[i - |p| + 1] && r[i + 1] == q[i - |p| + 2];
        }
      }
    }
  }

  lemma ReachStepTrans(g: Graph, a: string, b: string, c: string)
    requires Closed(g) && Reach(g, a, b) && Edge(g, b, c)
    ensures Reach(g, a, c)
  {
    ReachEdge(g, b, c);
    ReachTrans(g, a, b, c);
  }

  lemma ReachIsKey(g: Graph, a: string, b: string)
    requires Reach(g, a, b)
    ensures a in g.edges && b in g.edges
  {
    var p :| IsPath(g, p) && p[0] == a && p[|p| - 1] == b;
    if |p| > 1 {
      assert Edge(g, p[0], p[1]);
    }
  }

  /** Every node of a path is a key. */
  lemma PathKeys(g: Graph, p: seq<string>, i: nat)
    requires IsPath(g, p) && i < |p|
    ensures p[i] in g.edges
  {
    if i < |p| - 1 {
      assert Edge(g, p[i], p[i + 1]);
    }
  }

  /**
    A path that starts inside a set `c` whose members' successors all lie in `v`
    and ends outside `c` passes through a node of `v - c`.
   */
  lemma {:induction false} Escape(g: Graph, p: seq<string>, c: set<string>, v: set<string>)
    requires IsPath(g, p) && p[0] in c && p[|p| - 1] !in c
    requires forall x, y | x in c && Edge(g, x, y) :: y in v
    ensures exists w :: w in v && w !in c && Reach(g, p[0], w)
    decreases |p|
  {
    if p[1] in c {
      var q := p[1..];
      assert IsPath(g, q) by {
        forall i | 0 <= i < |q| - 1
          ensures Edge(g, q[i], q[i + 1])
        {
          assert q[i] == p[i + 1] && q[i + 1] == p[i + 2];
        }
      }
      Escape(g, q, c, v);
      var w :| w in v && w !in c && Reach(g, q[0], w);
      assert Edge(g, p[0], p[1]);
      PathKeys(g, p, 1);
      assert IsPath(g, [p[0], p[1]]);
      ReachTrans(g, p[0], p[1], w);
    } else {
      assert Edge(g, p[0], p[1]);
      PathKeys(g, p, 1);
      assert IsPath(g, [p[0], p[1]]);
      assert Reach(g, p[0], p[1]);
    }
  }

  /** The Escape lemma stated for reachability. */
  lemma EscapeReach(g: Graph, a: string, b: string, c: set<string>, v: set<string>)
    requires Reach(g, a, b) && a in c && b !in c
    requires forall x, y | x in c && Edge(g, x, y) :: y in v
    ensures exists w :: w in v && w !in c && Reach(g, a, w)
  {
    var p :| IsPath(g, p) && p[0] == a && p[|p| - 1] == b;
    Escape(g, p, c, v);
  }

  /** Each node of a path is reachable from its start and reaches its end. */
  lemma PathReach(g: Graph, p: seq<string>, i: nat)
    requires IsPath(g, p) && i < |p|
    ensures Reach(g, p[0], p[i]) && Reach(g, p[i], p[|p| - 1])
  {
    var pre := p[..i + 1];
    var post := p[i..];
    PathKeys(g, p, i);
    assert IsPath(g, pre) by {
      forall k | 0 <= k < |pre| - 1
        ensures Edge(g, pre[k], pre[k + 1])
      {
        assert pre[k] == p[k] && pre[k + 1] == p[k + 1];
      }
    }
    assert IsPath(g, post) by {
      forall k | 0 <= k < |post| - 1
        ensures Edge(g, post[k], post[k + 1])
      {
        assert post[k] == p[i + k] && post[k + 1] == p[i + k + 1];
      }
    }
    assert pre[0] == p[0] && pre[|pre| - 1] == p[i];
    assert post[0] == p[i] && post[|post| - 1] == p[|p| - 1];
  }
}
