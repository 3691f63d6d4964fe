// Reachability in a finite directed graph given by its successor sets.  A
// vertex that is not a key of the map has no successors.
module Graphs {

  type Edges<T> = map<T, set<T>>

  ghost predicate Edge<T>(g: Edges<T>, u: T, v: T) {
    u in g && v in g[u]
  }

  ghost predicate IsPath<T>(g: Edges<T>, p: seq<T>) {
    |p| > 0 && forall i :: 0 <= i < |p| - 1 ==> Edge(g, p[i], p[i + 1])
  }

  // A path of zero or more edges leads from u to v.
  ghost predicate Reach<T(!new)>(g: Edges<T>, u: T, v: T) {
    exists p: seq<T> :: IsPath(g, p) && p[0] == u && p[|p| - 1] == v
  }

  // A path of at least one edge leads from u to v.
  ghost predicate ReachPlus<T(!new)>(g: Edges<T>, u: T, v: T) {
    exists w :: Edge(g, u, w) && Reach(g, w, v)
  }

  ghost predicate Mutual<T(!new)>(g: Edges<T>, u: T, v: T) {
    Reach(g, u, v) && Reach(g, v, u)
  }

  ghost predicate CoClosed<T(!new)>(g: Edges<T>, s: set<T>) {
    forall a, b :: b in s && Edge(g, a, b) ==> a in s
  }

  lemma ReachRefl<T(!new)>(g: Edges<T>, u: T)
    ensures Reach(g, u, u)
  {
    assert IsPath(g, [u]) && [u][0] == u;
  }

  lemma ReachEdge<T(!new)>(g: Edges<T>, u: T, v: T)
    requires Edge(g, u, v)
    ensures Reach(g, u, v)
  {
    var p := [u, v];
    assert IsPath(g, p) && p[0] == u && p[|p| - 1] == v;
  }

  lemma ReachTrans<T(!new)>(g: Edges<T>, u: T, v: T, w: T)
    requires Reach(g, u, v) && Reach(g, v, w)
    ensures Reach(g, u, w)
  {
    var p :| IsPath(g, p) && p[0] == u && p[|p| - 1] == v;
    var q :| IsPath(g, q) && q[0] == v && q[|q| - 1] == w;
    var r := p + q[1..];
    forall i | 0 <= i < |r| - 1
      ensures Edge(g, r[i], r[i + 1])
    {
      if i < |p| - 1 {
        assert Edge(g, p[i], p[i + 1]);
      } else {
        assert Edge(g, q[i - |p| + 1], q[i - |p| + 2]);
      }
    }
    assert IsPath(g, r) && r[0] == u && r[|r| - 1] == w;
  }

  lemma PathTail<T>(g: Edges<T>, p: seq<T>)
    requires IsPath(g, p) && |p| > 1
    ensures Edge(g, p[0], p[1]) && IsPath(g, p[1..])
  {
  }

  // A path that starts inside s and ends outside crosses the border of s.
  lemma {:induction false} Crossing<T(!new)>(g: Edges<T>, p: seq<T>, s: set<T>) returns (a: T, b: T)
    requires IsPath(g, p) && p[0] in s && p[|p| - 1] !in s
    ensures a in s && b !in s && Edge(g, a, b)
    ensures Reach(g, p[0], a) && Reach(g, b, p[|p| - 1])
    decreases |p|
  {
    if p[1] !in s {
      a, b := p[0], p[1];
      PathTail(g, p);
      ReachRefl(g, a);
      var q := p[1..];
      assert IsPath(g, q) && q[0] == b && q[|q| - 1] == p[|p| - 1];
    } else {
      var q := p[1..];
      PathTail(g, p);
      a, b := Crossing(g, q, s);
      ReachEdge(g, p[0], p[1]);
      ReachTrans(g, p[0], p[1], a);
    }
  }

  // A set closed under successors contains everything its members reach.
  lemma ClosedReach<T(!new)>(g: Edges<T>, s: set<T>, u: T, v: T)
    requires forall a, b :: a in s && Edge(g, a, b) ==> b in s
    requires u in s && Reach(g, u, v)
    ensures v in s
  {
    if v !in s {
      var p :| IsPath(g, p) && p[0] == u && p[|p| - 1] == v;
      var a, b := Crossing(g, p, s);
    }
  }

  // A set closed under predecessors contains everything that reaches a member.
  lemma CoClosedReach<T(!new)>(g: Edges<T>, s: set<T>, u: T, v: T)
    requires CoClosed(g, s)
    requires v in s && Reach(g, u, v)
    ensures u in s
  {
    var p :| IsPath(g, p) && p[0] == u && p[|p| - 1] == v;
    CoClosedPath(g, s, p);
  }

  lemma {:induction false} CoClosedPath<T(!new)>(g: Edges<T>, s: set<T>, p: seq<T>)
    requires CoClosed(g, s)
    requires IsPath(g, p) && p[|p| - 1] in s
    ensures p[0] in s
    decreases |p|
  {
    if |p| > 1 {
      var q := p[1..];
      PathTail(g, p);
      CoClosedPath(g, s, q);
    }
  }

  // If f sends every edge of g to a connection in h, it does so for paths.
  lemma {:induction false} PathMaps<A(!new), B(!new)>(g: Edges<A>, h: Edges<B>, f: A -> B, p: seq<A>)
    requires forall a, b :: Edge(g, a, b) ==> Reach(h, f(a), f(b))
    requires IsPath(g, p)
    ensures Reach(h, f(p[0]), f(p[|p| - 1]))
    decreases |p|
  {
    if |p| == 1 {
      ReachRefl(h, f(p[0]));
    } else {
      PathTail(g, p);
      PathMaps(g, h, f, p[1..]);
      ReachTrans(h, f(p[0]), f(p[1]), f(p[|p| - 1]));
    }
  }

  lemma ReachMaps<A(!new), B(!new)>(g: Edges<A>, h: Edges<B>, f: A -> B, u: A, v: A)
    requires forall a, b :: Edge(g, a, b) ==> Reach(h, f(a), f(b))
    requires Reach(g, u, v)
    ensures Reach(h, f(u), f(v))
  {
    var p :| IsPath(g, p) && p[0] == u && p[|p| - 1] == v;
    PathMaps(g, h, f, p);
  }

  // A connection between different vertices starts and ends with an edge.
  lemma FirstAndLastEdge<T(!new)>(g: Edges<T>, u: T, v: T)
    requires Reach(g, u, v) && u != v
    ensures exists w :: Edge(g, u, w) && Reach(g, w, v)
    ensures exists w :: Edge(g, w, v)
  {
    var p :| IsPath(g, p) && p[0] == u && p[|p| - 1] == v;
    PathTail(g, p);
    var q := p[1..];
    assert IsPath(g, q) && q[0] == p[1] && q[|q| - 1] == v;
    assert Edge(g, p[|p| - 2], p[|p| - 2 + 1]);
  }
}
