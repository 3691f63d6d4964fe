// Strongly connected components of a control flow graph
// (slither/utils/code_complexity.py).
//
// The search object carries the variables that the two nested procedures
// `visit` and `assign` share; the graph itself is only read.
module Kosaraju {
  import opened Graphs

  type Node = int

  datatype Cfg = Cfg(nodes: seq<Node>, sons: map<Node, seq<Node>>, fathers: map<Node, seq<Node>>) {
    function NodeSet(): set<Node> { set n | n in nodes }

    // Every edge stays inside `nodes`, and `fathers` is the inverse of `sons`.
    ghost predicate Valid() {
      && sons.Keys == NodeSet()
      && fathers.Keys == NodeSet()
      && (forall a, b :: a in sons && b in sons[a] ==> b in sons)
      && (forall a, b :: b in fathers && a in fathers[b] ==> a in fathers)
      && (forall a, b :: a in sons && b in fathers ==> (b in sons[a] <==> a in fathers[b]))
    }

    ghost function Succ(): Edges<Node> { map n | n in sons :: set s | s in sons[n] }
  }

  ghost predicate Distinct<T>(s: seq<T>) {
    forall i, j :: 0 <= i < j < |s| ==> s[i] != s[j]
  }

  // ---------------------------------------------------------------------
  // First pass: the order in which nodes finish
  // ---------------------------------------------------------------------

  // A node still on the recursion stack lies in the component of m.
  ghost predicate OpenMate(e: Edges<Node>, visited: set<Node>, l: seq<Node>, m: Node) {
    exists g :: g in visited && g !in l && Mutual(e, g, m)
  }

  // A node of m's component finishes at position j or later.
  ghost predicate LateMate(e: Edges<Node>, l: seq<Node>, j: int, m: Node) {
    exists k :: 0 <= j <= k < |l| && Mutual(e, l[k], m)
  }

  // What the second pass needs of the finish order: a node that reaches a
  // later one has a member of its own component at that position or later.
  ghost predicate FinishOrder(e: Edges<Node>, l: seq<Node>) {
    forall i, j :: 0 <= i < j < |l| && Reach(e, l[i], l[j]) ==> LateMate(e, l, j, l[i])
  }

  ghost predicate SearchInv(e: Edges<Node>, visited: set<Node>, l: seq<Node>) {
    && Distinct(l)
    && (forall n :: n in l ==> n in visited)
    && (forall a, b :: a in l && Edge(e, a, b) ==> b in visited)
    && (forall m, g :: m in l && g in visited && g !in l && Reach(e, m, g) ==> OpenMate(e, visited, l, m))
    && (forall i, j :: 0 <= i < j < |l| && Reach(e, l[i], l[j]) ==>
          LateMate(e, l, j, l[i]) || OpenMate(e, visited, l, l[i]))
  }

  // All nodes on the recursion stack reach n.
  ghost predicate StackReaches(e: Edges<Node>, visited: set<Node>, l: seq<Node>, n: Node) {
    forall g :: g in visited && g !in l ==> Reach(e, g, n)
  }

  // A finished node that reaches an unvisited one does so through the stack.
  lemma ThroughStack(e: Edges<Node>, visited: set<Node>, l: seq<Node>, m: Node, n: Node)
    requires SearchInv(e, visited, l)
    requires m in l && n !in visited && Reach(e, m, n)
    ensures OpenMate(e, visited, l, m)
  {
    var p :| IsPath(e, p) && p[0] == m && p[|p| - 1] == n;
    var done := set x | x in l;
    var a, b := Crossing(e, p, done);
    ReachEdge(e, a, b);
    ReachTrans(e, m, a, b);
  }

  lemma MateFrame(e: Edges<Node>, v: set<Node>, v': set<Node>, l: seq<Node>, m: Node)
    requires OpenMate(e, v, l, m) && v <= v'
    ensures OpenMate(e, v', l, m)
  {
  }

  lemma Discover(e: Edges<Node>, visited: set<Node>, l: seq<Node>, n: Node)
    requires SearchInv(e, visited, l)
    requires n !in visited && StackReaches(e, visited, l, n)
    ensures n !in l && SearchInv(e, visited + {n}, l)
  {
    var v' := visited + {n};
    forall m, g | m in l && g in v' && g !in l && Reach(e, m, g)
      ensures OpenMate(e, v', l, m)
    {
      if g == n {
        ThroughStack(e, visited, l, m, n);
      }
      MateFrame(e, visited, v', l, m);
    }
    forall i, j | 0 <= i < j < |l| && Reach(e, l[i], l[j])
      ensures LateMate(e, l, j, l[i]) || OpenMate(e, v', l, l[i])
    {
      if !LateMate(e, l, j, l[i]) {
        MateFrame(e, visited, v', l, l[i]);
      }
    }
  }

  // Finishing n: any mate that was open is either still open or is n itself.
  lemma MateAfterFinish(e: Edges<Node>, visited: set<Node>, l: seq<Node>, n: Node, m: Node)
    requires OpenMate(e, visited, l, m)
    ensures OpenMate(e, visited, l + [n], m) || Mutual(e, n, m)
  {
  }

  lemma Finish(e: Edges<Node>, visited: set<Node>, l: seq<Node>, n: Node)
    requires SearchInv(e, visited, l)
    requires n in visited && n !in l && StackReaches(e, visited, l, n)
    requires forall b :: Edge(e, n, b) ==> b in visited
    ensures SearchInv(e, visited, l + [n])
  {
    var l' := l + [n];
    forall m, g | m in l' && g in visited && g !in l' && Reach(e, m, g)
      ensures OpenMate(e, visited, l', m)
    {
      assert g !in l;
      assert Reach(e, g, n);
      if m == n {
        assert Mutual(e, g, n);
      } else {
        assert m in l;
        MateAfterFinish(e, visited, l, n, m);
        if Mutual(e, n, m) {
          ReachTrans(e, g, n, m);
          assert Mutual(e, g, m);
        }
      }
    }
    forall i, j | 0 <= i < j < |l'| && Reach(e, l'[i], l'[j])
      ensures LateMate(e, l', j, l'[i]) || OpenMate(e, visited, l', l'[i])
    {
      var m := l[i];
      assert l'[i] == m;
      if j < |l| && LateMate(e, l, j, m) {
        var k :| 0 <= j <= k < |l| && Mutual(e, l[k], m);
        assert Mutual(e, l'[k], m);
      } else {
        assert OpenMate(e, visited, l, m);
        MateAfterFinish(e, visited, l, n, m);
        if Mutual(e, n, m) {
          assert Mutual(e, l'[|l|], m);
        }
      }
    }
  }

  // Once no node is open the order is the one the second pass needs.
  lemma FirstPassDone(e: Edges<Node>, all: set<Node>, visited: set<Node>, l: seq<Node>)
    requires SearchInv(e, visited, l) && visited == all
    requires forall n :: n in visited ==> n in l
    ensures Traversal(e, all, l) && (forall n :: n in l <==> n in all)
  {
    assert forall n :: n in l <==> n in all;
  }

  // ---------------------------------------------------------------------
  // Second pass: collecting components
  // ---------------------------------------------------------------------

  ghost predicate IsComponent(e: Edges<Node>, all: set<Node>, c: seq<Node>) {
    && |c| > 0
    && Distinct(c)
    && (forall x, y :: x in c && y in all ==> (y in c <==> Mutual(e, x, y)))
  }

  ghost function Union(cs: seq<seq<Node>>): set<Node> {
    set c, n | c in cs && n in c :: n
  }

  // `cs` lists components that partition the taken nodes, and no path leads
  // from a later component to an earlier one.
  ghost predicate Collected(e: Edges<Node>, all: set<Node>, cs: seq<seq<Node>>, taken: set<Node>) {
    && Union(cs) == taken
    && (forall i :: 0 <= i < |cs| ==> IsComponent(e, all, cs[i]))
    && (forall i, j, x :: 0 <= i < j < |cs| && x in cs[i] ==> x !in cs[j])
    && (forall i, j, x, y :: 0 <= i < j < |cs| && x in cs[i] && y in cs[j] ==> !Reach(e, y, x))
  }

  // What is assigned once positions j.. of the finish order are done: the
  // nodes whose component has a member there.
  ghost predicate SettledFrom(e: Edges<Node>, l: seq<Node>, j: int, all: set<Node>, taken: set<Node>) {
    && CoClosed(e, taken)
    && taken == set m | m in all && LateMate(e, l, j, m)
  }

  ghost predicate Traversal(e: Edges<Node>, all: set<Node>, l: seq<Node>) {
    && Distinct(l)
    && (set n | n in l) == all
    && FinishOrder(e, l)
  }

  // If before' is before plus the ancestors of n = l[j], then what was added
  // is exactly the component of n, and settledness moves from j + 1 to j.
  lemma CollectedIsComponent(e: Edges<Node>, all: set<Node>, l: seq<Node>, j: nat, before: set<Node>, after: set<Node>)
    requires Traversal(e, all, l) && j < |l|
    requires SettledFrom(e, l, j + 1, all, before)
    requires before <= after <= all && l[j] in after
    requires PredecessorsIn(e, after - before, after)
    requires forall m :: m in after && m !in before ==> Reach(e, m, l[j])
    ensures SettledFrom(e, l, j, all, after)
    ensures forall m :: m in after - before ==> Mutual(e, l[j], m)
    ensures l[j] !in before ==> forall m :: m in all && Mutual(e, l[j], m) ==> m in after - before
  {
    hide Reach;
    hide Mutual;
    hide CoClosed;
    hide Traversal;
    StaysCoClosed(e, before, after);
    forall m | m in after
      ensures LateMate(e, l, j, m)
      ensures m !in before ==> Mutual(e, l[j], m)
    {
      if m in before {
        var k :| j + 1 <= k < |l| && Mutual(e, l[k], m);
      } else {
        AddedIsMate(e, all, l, j, before, m);
      }
    }
    forall m | m in all && LateMate(e, l, j, m)
      ensures m in after
    {
      var k :| j <= k < |l| && Mutual(e, l[k], m);
      if k > j {
        assert LateMate(e, l, j + 1, m);
      } else {
        MateCoClosed(e, after, l[j], m);
      }
    }
    if l[j] !in before {
      forall m | m in all && Mutual(e, l[j], m)
        ensures m in after - before
      {
        MateCoClosed(e, after, l[j], m);
        MateCoClosed(e, before, l[j], m);
      }
    }
  }

  lemma StaysCoClosed(e: Edges<Node>, before: set<Node>, after: set<Node>)
    requires CoClosed(e, before) && before <= after
    requires PredecessorsIn(e, after - before, after)
    ensures CoClosed(e, after)
  {
  }

  // A closed set holds both of two mates or neither.
  lemma MateCoClosed(e: Edges<Node>, s: set<Node>, n: Node, m: Node)
    requires CoClosed(e, s) && Mutual(e, n, m)
    ensures n in s <==> m in s
  {
    hide Reach;
    if n in s { CoClosedReach(e, s, m, n); }
    if m in s { CoClosedReach(e, s, n, m); }
  }

  lemma AddedIsMate(e: Edges<Node>, all: set<Node>, l: seq<Node>, j: nat, before: set<Node>, m: Node)
    requires Traversal(e, all, l) && j < |l|
    requires SettledFrom(e, l, j + 1, all, before)
    requires m in all && m !in before && Reach(e, m, l[j])
    ensures Mutual(e, l[j], m)
  {
    hide Reach;
    hide CoClosed;
    hide Distinct;
    assert m in (set n | n in l);
    var i :| 0 <= i < |l| && l[i] == m;
    if i >= j {
      ReachRefl(e, m);
      assert Mutual(e, l[i], m);
    }
    assert LateMate(e, l, j, m);
    var k :| j <= k < |l| && Mutual(e, l[k], m);
    assert !LateMate(e, l, j + 1, m);
    assert k == j;
  }

  // ---------------------------------------------------------------------
  // The algorithm
  // ---------------------------------------------------------------------

  ghost function Marked(m: map<Node, bool>): set<Node> { set n | n in m && m[n] }

  class SccSearch {
    const g: Cfg
    var visited: map<Node, bool>
    var isAssigned: map<Node, bool>
    var l: seq<Node>
    var component: seq<Node>

    constructor (g: Cfg)
      requires g.Valid()
      ensures this.g == g && l == [] && InFirstPass() && Marked(visited) == {}
      ensures isAssigned.Keys == g.NodeSet() && Marked(isAssigned) == {}
    {
      this.g := g;
      visited := map n | n in g.NodeSet() :: false;
      isAssigned := map n | n in g.NodeSet() :: false;
      l := [];
      component := [];
    }

    ghost predicate InFirstPass()
      reads this
    {
      g.Valid() && visited.Keys == g.NodeSet() && SearchInv(g.Succ(), Marked(visited), l)
    }

    // Visiting leaves the set of open nodes as it was.
    method Visit(node: Node)
      requires InFirstPass() && node in visited
      requires StackReaches(g.Succ(), Marked(visited), l, node)
      modifies this`visited, this`l
      ensures InFirstPass()
      ensures node in Marked(visited) && Marked(old(visited)) <= Marked(visited)
      ensures old(l) <= l
      ensures forall n :: n in Marked(visited) && n !in l <==> n in Marked(old(visited)) && n !in old(l)
      decreases visited.Keys - Marked(visited)
    {
      hide Reach;
      hide SearchInv;
      if !visited[node] {
        ghost var e := g.Succ();
        Discover(e, Marked(visited), l, node);
        visited := visited[node := true];
        assert Marked(visited) == Marked(old(visited)) + {node};
        ReachRefl(e, node);
        var i := 0;
        while i < |g.sons[node]|
          invariant 0 <= i <= |g.sons[node]|
          invariant InFirstPass()
          invariant Marked(old(visited)) + {node} <= Marked(visited)
          invariant old(l) <= l
          invariant forall n :: n in Marked(visited) && n !in l <==>
                                n == node || (n in Marked(old(visited)) && n !in old(l))
          invariant forall k :: 0 <= k < i ==> g.sons[node][k] in Marked(visited)
        {
          var son := g.sons[node][i];
          assert Edge(e, node, son);
          ReachEdge(e, node, son);
          forall o | o in Marked(visited) && o !in l
            ensures Reach(e, o, son)
          {
            ReachTrans(e, o, node, son);
          }
          Visit(son);
          i := i + 1;
        }
        Finish(e, Marked(visited), l, node);
        l := l + [node];
      }
    }

    // for n in function.nodes: visit(n)
    method VisitAll()
      requires InFirstPass() && l == [] && Marked(visited) == {}
      modifies this`visited, this`l
      ensures Traversal(g.Succ(), g.NodeSet(), l) && (forall n :: n in l <==> n in g.NodeSet())
    {
      hide Reach;
      hide SearchInv;
      hide Traversal;
      var i := 0;
      while i < |g.nodes|
        invariant 0 <= i <= |g.nodes|
        invariant InFirstPass()
        invariant forall n :: n in Marked(visited) ==> n in l
        invariant forall k :: 0 <= k < i ==> g.nodes[k] in Marked(visited)
      {
        Visit(g.nodes[i]);
        i := i + 1;
      }
      FirstPassDone(g.Succ(), g.NodeSet(), Marked(visited), l);
    }

    // Collects the unassigned nodes that lead to `node`.
    method Assign(node: Node)
      requires g.Valid() && isAssigned.Keys == g.NodeSet() && node in isAssigned
      requires Distinct(component) && (forall n :: n in component ==> n in Marked(isAssigned))
      modifies this`isAssigned, this`component
      ensures isAssigned.Keys == g.NodeSet()
      ensures node in Marked(isAssigned) && Marked(old(isAssigned)) <= Marked(isAssigned)
      ensures Distinct(component)
      ensures forall n :: n in component <==>
                          n in old(component) || (n in Marked(isAssigned) && n !in Marked(old(isAssigned)))
      ensures forall n :: n in Marked(isAssigned) && n !in Marked(old(isAssigned)) ==> Reach(g.Succ(), n, node)
      ensures PredecessorsIn(g.Succ(), Marked(isAssigned) - Marked(old(isAssigned)), Marked(isAssigned))
      decreases isAssigned.Keys - Marked(isAssigned)
    {
      hide Reach;
      hide PredecessorsIn;
      NothingNew(g.Succ(), Marked(isAssigned));
      if !isAssigned[node] {
        ghost var e := g.Succ();
        isAssigned := isAssigned[node := true];
        component := component + [node];
        ghost var start := Marked(isAssigned);
        assert start == Marked(old(isAssigned)) + {node};
        ReachRefl(e, node);
        NothingNew(e, start);
        var i := 0;
        while i < |g.fathers[node]|
          invariant 0 <= i <= |g.fathers[node]|
          invariant isAssigned.Keys == g.NodeSet()
          invariant start <= Marked(isAssigned)
          invariant Distinct(component)
          invariant forall n :: n in component <==>
                                n in old(component) || (n in Marked(isAssigned) && n !in Marked(old(isAssigned)))
          invariant forall n :: n in Marked(isAssigned) && n !in Marked(old(isAssigned)) ==> Reach(e, n, node)
          invariant PredecessorsIn(e, Marked(isAssigned) - start, Marked(isAssigned))
          invariant forall k :: 0 <= k < i ==> g.fathers[node][k] in Marked(isAssigned)
        {
          var father := g.fathers[node][i];
          ghost var prev := Marked(isAssigned);
          Assign(father);
          assert Edge(e, father, node);
          ReachEdge(e, father, node);
          forall n | n in Marked(isAssigned) && n !in prev
            ensures Reach(e, n, node)
          {
            ReachTrans(e, n, father, node);
          }
          PredecessorsJoin(e, start, prev, Marked(isAssigned));
          i := i + 1;
        }
        PredecessorsOf(e, Marked(old(isAssigned)), node, Marked(isAssigned));
      }
    }
  }

  // Whatever has an edge into `news` is in `all`.
  ghost predicate PredecessorsIn(e: Edges<Node>, news: set<Node>, all: set<Node>) {
    forall a, b :: b in news && Edge(e, a, b) ==> a in all
  }

  lemma NothingNew(e: Edges<Node>, all: set<Node>)
    ensures PredecessorsIn(e, all - all, all)
  {
  }

  lemma PredecessorsJoin(e: Edges<Node>, start: set<Node>, mid: set<Node>, after: set<Node>)
    requires mid <= after && PredecessorsIn(e, mid - start, mid) && PredecessorsIn(e, after - mid, after)
    ensures PredecessorsIn(e, after - start, after)
  {
    forall a, b | b in after - start && Edge(e, a, b)
      ensures a in after
    {
      assert b in mid - start || b in after - mid;
    }
  }

  lemma PredecessorsOf(e: Edges<Node>, before: set<Node>, n: Node, after: set<Node>)
    requires PredecessorsIn(e, after - (before + {n}), after) && forall a :: Edge(e, a, n) ==> a in after
    ensures PredecessorsIn(e, after - before, after)
  {
    forall a, b | b in after - before && Edge(e, a, b)
      ensures a in after
    {
      assert b == n || b in after - (before + {n});
    }
  }

  method ComputeStronglyConnectedComponents(g: Cfg) returns (components: seq<seq<Node>>)
    requires g.Valid()
    ensures Collected(g.Succ(), g.NodeSet(), components, g.NodeSet())
  {
    hide Reach;
    hide SearchInv;
    hide Collected;
    hide SettledFrom;
    hide Traversal;
    var s := new SccSearch(g);
    ghost var e, all := g.Succ(), g.NodeSet();
    s.VisitAll();

    components := [];
    NothingCollected(e, all, s.l);
    var j := |s.l|;
    while j > 0
      invariant 0 <= j <= |s.l|
      invariant fresh(s) && s.g == g && Traversal(e, all, s.l) && (forall n :: n in s.l <==> n in all)
      invariant s.isAssigned.Keys == g.NodeSet()
      invariant SettledFrom(e, s.l, j, all, Marked(s.isAssigned))
      invariant Collected(e, all, components, Marked(s.isAssigned))
    {
      j := j - 1;
      ghost var before := Marked(s.isAssigned);
      s.component := [];
      s.Assign(s.l[j]);
      ComponentDone(e, all, s.l, j, components, s.component, before, Marked(s.isAssigned));
      if s.component != [] {
        components := components + [s.component];
      }
    }
    AllSettled(e, all, s.l, Marked(s.isAssigned));
  }

  // One turn of the second pass, from what `assign` guarantees.
  lemma ComponentDone(e: Edges<Node>, all: set<Node>, l: seq<Node>, j: nat, cs: seq<seq<Node>>, c: seq<Node>,
                      before: set<Node>, after: set<Node>)
    requires Traversal(e, all, l) && j < |l|
    requires SettledFrom(e, l, j + 1, all, before) && Collected(e, all, cs, before)
    requires before <= after <= all && l[j] in after
    requires PredecessorsIn(e, after - before, after)
    requires forall m :: m in after && m !in before ==> Reach(e, m, l[j])
    requires Distinct(c) && forall n :: n in c <==> n in after && n !in before
    ensures SettledFrom(e, l, j, all, after)
    ensures Collected(e, all, if c != [] then cs + [c] else cs, after)
  {
    hide Reach;
    hide Mutual;
    hide Collected;
    hide SettledFrom;
    hide Traversal;
    hide Distinct;
    CollectedIsComponent(e, all, l, j, before, after);
    if c != [] {
      SettledCoClosed(e, l, j + 1, all, before);
      ExtendCollected(e, all, cs, c, before, after, l[j]);
    } else {
      assert forall n :: n in after ==> n in before || n in c;
      assert after == before;
    }
  }

  lemma InUnion(cs: seq<seq<Node>>, c: seq<Node>, x: Node)
    requires c in cs && x in c
    ensures x in Union(cs)
  {
  }

  lemma UnionAppend(cs: seq<seq<Node>>, c: seq<Node>)
    ensures Union(cs + [c]) == Union(cs) + set x | x in c
  {
    var cs' := cs + [c];
    assert cs'[|cs|] == c;
    forall x | x in Union(cs) + set x | x in c
      ensures x in Union(cs')
    {
      if x in Union(cs) {
        var d :| d in cs && x in d;
        assert d in cs';
      }
    }
  }

  lemma ExtendCollected(e: Edges<Node>, all: set<Node>, cs: seq<seq<Node>>, c: seq<Node>,
                        before: set<Node>, after: set<Node>, n: Node)
    requires Collected(e, all, cs, before) && CoClosed(e, before)
    requires before <= after <= all && c != [] && Distinct(c)
    requires forall x :: x in c <==> x in after && x !in before
    requires forall m :: m in after - before ==> Mutual(e, n, m)
    requires n !in before ==> forall m :: m in all && Mutual(e, n, m) ==> m in after - before
    ensures Collected(e, all, cs + [c], after)
  {
    var cs' := cs + [c];
    assert c[0] in c;
    assert n !in before by {
      if n in before { CoClosedReach(e, before, c[0], n); }
    }
    forall x, y | x in c && y in all
      ensures y in c <==> Mutual(e, x, y)
    {
      if y in c {
        ReachTrans(e, x, n, y);
        ReachTrans(e, y, n, x);
      }
      if Mutual(e, x, y) {
        ReachTrans(e, n, x, y);
        ReachTrans(e, y, x, n);
      }
    }
    assert IsComponent(e, all, c);
    UnionAppend(cs, c);
    forall i, j, x, y | 0 <= i < j < |cs'| && x in cs'[i] && y in cs'[j]
      ensures x != y && !Reach(e, y, x)
    {
      if j == |cs| {
        assert cs[i] in cs;
        assert x in Union(cs);
        if Reach(e, y, x) { CoClosedReach(e, before, y, x); }
      }
    }
  }

  lemma NothingCollected(e: Edges<Node>, all: set<Node>, l: seq<Node>)
    ensures SettledFrom(e, l, |l|, all, {}) && Collected(e, all, [], {})
  {
  }

  lemma SettledCoClosed(e: Edges<Node>, l: seq<Node>, j: int, all: set<Node>, taken: set<Node>)
    requires SettledFrom(e, l, j, all, taken)
    ensures CoClosed(e, taken)
  {
  }

  lemma AllSettled(e: Edges<Node>, all: set<Node>, l: seq<Node>, taken: set<Node>)
    requires Traversal(e, all, l) && SettledFrom(e, l, 0, all, taken)
    ensures taken == all
  {
    hide Reach;
    forall m | m in all
      ensures m in taken
    {
      assert m in (set n | n in l);
      var k :| 0 <= k < |l| && l[k] == m;
      ReachRefl(e, m);
      assert Mutual(e, l[k], m);
      assert LateMate(e, l, 0, m);
    }
  }

  // In the result two nodes share a component exactly when each reaches the other.
  lemma SameComponentIffMutual(e: Edges<Node>, all: set<Node>, cs: seq<seq<Node>>, x: Node, y: Node)
    requires Collected(e, all, cs, all) && x in all && y in all
    ensures (exists c :: c in cs && x in c && y in c) <==> Mutual(e, x, y)
  {
  }

  // The graph determines the components: any two results hold the same sets.
  lemma ComponentsAreUnique(e: Edges<Node>, all: set<Node>, cs: seq<seq<Node>>, ds: seq<seq<Node>>, i: nat)
    requires Collected(e, all, cs, all) && Collected(e, all, ds, all) && i < |cs|
    ensures exists d :: d in ds && multiset(cs[i]) == multiset(d)
  {
    hide Reach;
    var c := cs[i];
    assert IsComponent(e, all, c) && c[0] in c;
    InUnion(cs, c, c[0]);
    assert c[0] in Union(ds);
    var d :| d in ds && c[0] in d;
    var j :| 0 <= j < |ds| && ds[j] == d;
    assert IsComponent(e, all, ds[j]);
    forall y | y in c ensures y in all { InUnion(cs, c, y); }
    forall y | y in d ensures y in all { InUnion(ds, d, y); }
    SameDistinct(c, d);
  }

  lemma SameDistinct(c: seq<Node>, d: seq<Node>)
    requires Distinct(c) && Distinct(d) && forall y :: y in c <==> y in d
    ensures multiset(c) == multiset(d)
  {
    forall y
      ensures multiset(c)[y] == multiset(d)[y]
    {
      CountDistinct(c, y);
      CountDistinct(d, y);
    }
  }

  lemma {:induction false} CountDistinct(c: seq<Node>, y: Node)
    requires Distinct(c)
    ensures multiset(c)[y] == if y in c then 1 else 0
  {
    if c != [] {
      var n := |c| - 1;
      assert c == c[..n] + [c[n]];
      CountDistinct(c[..n], y);
    }
  }
}
