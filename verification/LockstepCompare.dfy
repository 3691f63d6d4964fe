// Comparing two versions of a function by walking their control flow graphs in
// lockstep (slither/utils/upgradeability.py, is_function_modified).
module LockstepCompare {
  import opened Graphs
  import opened Selections

  type Node = int
  type Ir = int

  datatype CfgNode = CfgNode(irs: seq<Ir>, sons: seq<Node>)
  datatype Function = Function(nodes: map<Node, CfgNode>, entry: Node, contentHash: int)

  ghost predicate ValidFunction(f: Function) {
    f.entry in f.nodes && forall n, i :: n in f.nodes && 0 <= i < |f.nodes[n].sons| ==> f.nodes[n].sons[i] in f.nodes
  }

  // ---------------------------------------------------------------------
  // The walk of one function on its own
  // ---------------------------------------------------------------------

  datatype Walk = Walk(queue: seq<Node>, visited: set<Node>)

  // (son for son in sons if son not in visited)
  function Unseen(sons: seq<Node>, visited: set<Node>): (r: seq<Node>)
    ensures forall n :: n in r <==> n in sons && n !in visited
  {
    if |sons| == 0 then []
    else
      var r := Unseen(sons[..|sons| - 1], visited);
      if sons[|sons| - 1] in visited then r else r + [sons[|sons| - 1]]
  }

  ghost function NotIn(sons: seq<Node>, visited: set<Node>): nat -> bool {
    (i: nat) => i < |sons| && sons[i] !in visited
  }

  // The sons keep their order, and a son that is listed twice is queued twice.
  lemma {:induction false} UnseenSelects(sons: seq<Node>, visited: set<Node>)
    ensures IsSelection(Unseen(sons, visited), sons, NotIn(sons, visited))
  {
    hide IsSelection;
    if |sons| == 0 {
      assert sons == [];
      SelectNothing<Node>(NotIn(sons, visited));
    } else {
      var n := |sons| - 1;
      var p, r := sons[..n], Unseen(sons[..n], visited);
      UnseenSelects(p, visited);
      SameChoice(r, p, NotIn(p, visited), NotIn(sons, visited));
      SelectLast(r, p, sons[n], NotIn(sons, visited));
      assert p + [sons[n]] == sons;
    }
  }

  ghost function WalkStep(f: Function, w: Walk): Walk {
    if w.queue == [] || w.queue[0] !in f.nodes then w
    else
      var visited := w.visited + {w.queue[0]};
      Walk(w.queue[1..] + Unseen(f.nodes[w.queue[0]].sons, visited), visited)
  }

  ghost function WalkAfter(f: Function, k: nat): Walk {
    if k == 0 then Walk([f.entry], {}) else WalkStep(f, WalkAfter(f, k - 1))
  }

  // The queue stays inside the function, and sons of visited nodes are visited
  // or queued, however often they are queued.
  ghost predicate WalkInv(f: Function, w: Walk) {
    && (forall n :: n in w.queue ==> n in f.nodes)
    && w.visited <= f.nodes.Keys
    && (forall n :: n in w.visited ==> SonsSeen(f, w, n))
  }

  ghost predicate SonsSeen(f: Function, w: Walk, n: Node)
    requires n in f.nodes
  {
    forall i :: 0 <= i < |f.nodes[n].sons| ==> f.nodes[n].sons[i] in w.visited || f.nodes[n].sons[i] in w.queue
  }

  lemma StepKeepsInv(f: Function, w: Walk)
    requires ValidFunction(f) && WalkInv(f, w)
    ensures WalkInv(f, WalkStep(f, w))
  {
    if w.queue != [] {
      var n := w.queue[0];
      assert w.queue == [n] + w.queue[1..];
      var w' := WalkStep(f, w);
      forall m | m in w'.visited
        ensures SonsSeen(f, w', m)
      {
        if m != n { assert SonsSeen(f, w, m); }
      }
    }
  }

  lemma {:induction false} InvAlways(f: Function, k: nat)
    requires ValidFunction(f)
    ensures WalkInv(f, WalkAfter(f, k))
  {
    if k > 0 {
      InvAlways(f, k - 1);
      StepKeepsInv(f, WalkAfter(f, k - 1));
    }
  }

  // Position of the first queue entry that is not visited yet, or the length
  // of the queue.
  ghost function FirstUnvisited(queue: seq<Node>, visited: set<Node>): (p: nat)
    ensures p <= |queue| && (p < |queue| ==> queue[p] !in visited)
    ensures forall i :: 0 <= i < p ==> queue[i] in visited
  {
    if queue == [] || queue[0] !in visited then 0 else 1 + FirstUnvisited(queue[1..], visited)
  }

  ghost function Unvisited(f: Function, w: Walk): set<Node> { f.nodes.Keys - w.visited }

  // Each pop visits a new node, or brings the first unvisited entry forward; a
  // queue of visited nodes only shrinks.
  lemma StepDecreases(f: Function, w: Walk)
    requires ValidFunction(f) && WalkInv(f, w) && w.queue != []
    ensures var w' := WalkStep(f, w);
            || Unvisited(f, w') < Unvisited(f, w)
            || (Unvisited(f, w') == Unvisited(f, w) &&
                FirstUnvisited(w'.queue, w'.visited) < FirstUnvisited(w.queue, w.visited))
  {
    var w' := WalkStep(f, w);
    var n := w.queue[0];
    if n !in w.visited {
      assert n in Unvisited(f, w) && n !in Unvisited(f, w');
    } else {
      assert w'.visited == w.visited;
      var p := FirstUnvisited(w.queue, w.visited);
      if p < |w.queue| {
        assert w'.queue[p - 1] == w.queue[p];
      } else {
        assert forall m :: m in w.queue ==> m in w.visited;
        var sons := f.nodes[n].sons;
        forall i | 0 <= i < |sons|
          ensures sons[i] in w.visited
        {
          assert SonsSeen(f, w, n);
        }
        NothingUnseen(f.nodes[n].sons, w.visited);
      }
    }
  }

  lemma {:induction false} NothingUnseen(sons: seq<Node>, visited: set<Node>)
    requires forall i :: 0 <= i < |sons| ==> sons[i] in visited
    ensures Unseen(sons, visited) == []
  {
    if |sons| > 0 {
      NothingUnseen(sons[..|sons| - 1], visited);
    }
  }

  lemma {:induction false} EmptyStaysEmpty(f: Function, k: nat, l: nat)
    requires k <= l && WalkAfter(f, k).queue == []
    ensures WalkAfter(f, l).queue == []
  {
    if k < l { EmptyStaysEmpty(f, k, l - 1); }
  }

  // ---------------------------------------------------------------------
  // The comparison
  // ---------------------------------------------------------------------

  ghost function Encoded(encode: Ir -> string, a: CfgNode): seq<string> {
    seq(|a.irs|, i requires 0 <= i < |a.irs| => encode(a.irs[i]))
  }

  ghost predicate SameIr(encode: Ir -> string, a: CfgNode, b: CfgNode) {
    Encoded(encode, a) == Encoded(encode, b)
  }

  ghost predicate Pops(f: Function, k: nat, n: Node) {
    var q := WalkAfter(f, k).queue;
    q != [] && q[0] == n && n in f.nodes
  }

  // The nodes that the two walks pop at the same time differ somewhere.
  ghost predicate DifferSomewhere(encode: Ir -> string, f1: Function, f2: Function) {
    exists k: nat, a, b :: Pops(f1, k, a) && Pops(f2, k, b) && !SameIr(encode, f1.nodes[a], f2.nodes[b])
  }

  ghost predicate Agree(f: Function, queue: seq<Node>, visited: seq<Node>, k: nat) {
    && queue == WalkAfter(f, k).queue
    && forall n :: n in f.nodes ==> (n in visited <==> n in WalkAfter(f, k).visited)
  }

  lemma {:induction false} UnseenAgree(sons: seq<Node>, v: set<Node>, v': set<Node>)
    requires forall i :: 0 <= i < |sons| ==> (sons[i] in v <==> sons[i] in v')
    ensures Unseen(sons, v) == Unseen(sons, v')
  {
    if |sons| > 0 {
      UnseenAgree(sons[..|sons| - 1], v, v');
    }
  }

  function Elems(s: seq<Node>): set<Node> { set n | n in s }

  // Popping keeps a queue in step with the walk of its function alone, although
  // `visited` also receives the node `other` of the other function.
  lemma AgreeSteps(f: Function, queue: seq<Node>, visited: seq<Node>, k: nat, visited': seq<Node>, other: Node)
    requires ValidFunction(f) && Agree(f, queue, visited, k) && queue != [] && other !in f.nodes
    requires forall n :: n in visited' <==> n in visited || n == queue[0] || n == other
    ensures Pops(f, k, queue[0])
    ensures Agree(f, queue[1..] + Unseen(f.nodes[queue[0]].sons, Elems(visited')), visited', k + 1)
  {
    InvAlways(f, k);
    var w, n := WalkAfter(f, k), queue[0];
    var sons := f.nodes[n].sons;
    forall i | 0 <= i < |sons|
      ensures sons[i] in Elems(visited') <==> sons[i] in w.visited + {n}
    {
      assert sons[i] in f.nodes && sons[i] != other;
      assert sons[i] in visited' <==> sons[i] in visited || sons[i] == n;
    }
    UnseenAgree(f.nodes[n].sons, Elems(visited'), w.visited + {n});
  }

  method IsFunctionModified(encode: Ir -> string, f1: Function, f2: Function) returns (modified: bool)
    requires ValidFunction(f1) && ValidFunction(f2) && f1.nodes.Keys !! f2.nodes.Keys
    ensures modified <==> f1.contentHash != f2.contentHash && DifferSomewhere(encode, f1, f2)
  {
    hide ValidFunction;
    hide WalkAfter;
    hide SameIr;
    if f1.contentHash == f2.contentHash {
      return false;
    }
    var queue1, queue2 := [f1.entry], [f2.entry];
    var visited: seq<Node> := [];
    ghost var k: nat := 0;
    AgreeStarts(f1);
    AgreeStarts(f2);
    while |queue1| > 0 && |queue2| > 0
      invariant Agree(f1, queue1, visited, k) && Agree(f2, queue2, visited, k)
      invariant forall j: nat, a, b :: j < k && Pops(f1, j, a) && Pops(f2, j, b) ==> SameIr(encode, f1.nodes[a], f2.nodes[b])
      decreases Unvisited(f1, WalkAfter(f1, k)), FirstUnvisited(queue1, WalkAfter(f1, k).visited)
    {
      var node1, node2 := queue1[0], queue2[0];
      Popped(f1, queue1, visited, k);
      Popped(f2, queue2, visited, k);
      var seen := visited + [node1, node2];
      AgreeSteps(f1, queue1, visited, k, seen, node2);
      AgreeSteps(f2, queue2, visited, k, seen, node1);
      WalkDecreases(f1, queue1, visited, k);
      queue1 := queue1[1..] + Unseen(f1.nodes[node1].sons, Elems(seen));
      queue2 := queue2[1..] + Unseen(f2.nodes[node2].sons, Elems(seen));
      visited := seen;
      var same := CompareIrs(encode, f1.nodes[node1], f2.nodes[node2]);
      if !same {
        return true;
      }
      k := k + 1;
    }
    NothingMorePops(if |queue1| == 0 then f1 else f2, k);
    return false;
  }

  method CompareIrs(encode: Ir -> string, a: CfgNode, b: CfgNode) returns (same: bool)
    ensures same <==> SameIr(encode, a, b)
  {
    ghost var x, y := Encoded(encode, a), Encoded(encode, b);
    if |a.irs| != |b.irs| {
      assert |x| != |y|;
      return false;
    }
    for i := 0 to |a.irs|
      invariant forall j :: 0 <= j < i ==> encode(a.irs[j]) == encode(b.irs[j])
    {
      if encode(a.irs[i]) != encode(b.irs[i]) {
        assert x[i] != y[i];
        return false;
      }
    }
    return true;
  }

  lemma AgreeStarts(f: Function)
    ensures Agree(f, [f.entry], [], 0)
  {
  }

  lemma Popped(f: Function, queue: seq<Node>, visited: seq<Node>, k: nat)
    requires ValidFunction(f) && Agree(f, queue, visited, k) && queue != []
    ensures Pops(f, k, queue[0]) && queue[0] in f.nodes
  {
    InvAlways(f, k);
    assert queue[0] in queue;
  }

  lemma WalkDecreases(f: Function, queue: seq<Node>, visited: seq<Node>, k: nat)
    requires ValidFunction(f) && Agree(f, queue, visited, k) && queue != []
    ensures var w, w' := WalkAfter(f, k), WalkAfter(f, k + 1);
            || Unvisited(f, w') < Unvisited(f, w)
            || (Unvisited(f, w') == Unvisited(f, w) &&
                FirstUnvisited(w'.queue, w'.visited) < FirstUnvisited(w.queue, w.visited))
  {
    InvAlways(f, k);
    StepDecreases(f, WalkAfter(f, k));
  }

  lemma NothingMorePops(f: Function, k: nat)
    requires WalkAfter(f, k).queue == []
    ensures forall j: nat, n :: j >= k ==> !Pops(f, j, n)
  {
    forall j: nat, n | j >= k
      ensures !Pops(f, j, n)
    {
      EmptyStaysEmpty(f, k, j);
    }
  }

  // ---------------------------------------------------------------------
  // What the answer means
  // ---------------------------------------------------------------------

  lemma DifferenceIsSymmetric(encode: Ir -> string, f1: Function, f2: Function)
    ensures DifferSomewhere(encode, f1, f2) <==> DifferSomewhere(encode, f2, f1)
  {
  }

  // phi renames the nodes of f1 to those of f2, keeping entry, order of sons
  // and encoded operations.
  ghost predicate Renaming(encode: Ir -> string, f1: Function, f2: Function, phi: map<Node, Node>) {
    && phi.Keys == f1.nodes.Keys
    && (forall n :: n in phi ==> phi[n] in f2.nodes)
    && (forall n, m :: n in phi && m in phi && phi[n] == phi[m] ==> n == m)
    && f1.entry in phi && phi[f1.entry] == f2.entry
    && (forall n :: n in phi ==> SameIr(encode, f1.nodes[n], f2.nodes[phi[n]]))
    && (forall n :: n in phi ==> IsImage(phi, f1.nodes[n].sons, f2.nodes[phi[n]].sons))
  }

  ghost predicate IsImage(phi: map<Node, Node>, q: seq<Node>, r: seq<Node>) {
    |q| == |r| && forall i :: 0 <= i < |q| ==> q[i] in phi && r[i] == phi[q[i]]
  }

  ghost predicate IsSetImage(phi: map<Node, Node>, v: set<Node>, w: set<Node>) {
    v <= phi.Keys && forall n :: n in phi ==> (n in v <==> phi[n] in w)
  }

  lemma ImageMember(phi: map<Node, Node>, v: set<Node>, w: set<Node>, n: Node)
    requires IsSetImage(phi, v, w) && n in phi
    ensures n in v <==> phi[n] in w
  {
  }

  lemma {:induction false} UnseenImage(phi: map<Node, Node>, q: seq<Node>, r: seq<Node>, v: set<Node>, w: set<Node>)
    requires IsImage(phi, q, r) && IsSetImage(phi, v, w)
    ensures IsImage(phi, Unseen(q, v), Unseen(r, w))
  {
    if |q| > 0 {
      var n := |q| - 1;
      UnseenImage(phi, q[..n], r[..n], v, w);
      assert q[n] in phi && r[n] == phi[q[n]];
      ImageMember(phi, v, w, q[n]);
    }
  }

  lemma {:induction false} WalksCorrespond(encode: Ir -> string, f1: Function, f2: Function, phi: map<Node, Node>, k: nat)
    requires ValidFunction(f1) && ValidFunction(f2) && Renaming(encode, f1, f2, phi)
    ensures IsImage(phi, WalkAfter(f1, k).queue, WalkAfter(f2, k).queue)
    ensures IsSetImage(phi, WalkAfter(f1, k).visited, WalkAfter(f2, k).visited)
  {
    hide ValidFunction;
    hide SameIr;
    hide WalkStep;
    if k > 0 {
      WalksCorrespond(encode, f1, f2, phi, k - 1);
      StepsCorrespond(encode, f1, f2, phi, WalkAfter(f1, k - 1), WalkAfter(f2, k - 1));
    }
  }

  lemma StepsCorrespond(encode: Ir -> string, f1: Function, f2: Function, phi: map<Node, Node>, w1: Walk, w2: Walk)
    requires ValidFunction(f1) && ValidFunction(f2) && Renaming(encode, f1, f2, phi)
    requires IsImage(phi, w1.queue, w2.queue) && IsSetImage(phi, w1.visited, w2.visited)
    ensures IsImage(phi, WalkStep(f1, w1).queue, WalkStep(f2, w2).queue)
    ensures IsSetImage(phi, WalkStep(f1, w1).visited, WalkStep(f2, w2).visited)
  {
    hide ValidFunction;
    hide Unseen;
    hide SameIr;
    hide IsSetImage;
    if |w1.queue| > 0 {
      var a, b := w1.queue[0], w2.queue[0];
      assert a in phi && b == phi[a];
      SetImageExtends(phi, w1.visited, w2.visited, a);
      UnseenImage(phi, f1.nodes[a].sons, f2.nodes[b].sons, w1.visited + {a}, w2.visited + {b});
    }
  }

  lemma SetImageExtends(phi: map<Node, Node>, v: set<Node>, w: set<Node>, a: Node)
    requires IsSetImage(phi, v, w) && a in phi
    requires forall n, m :: n in phi && m in phi && phi[n] == phi[m] ==> n == m
    ensures IsSetImage(phi, v + {a}, w + {phi[a]})
  {
  }

  // A mere renaming is never reported.
  lemma RenamedIsUnmodified(encode: Ir -> string, f1: Function, f2: Function, phi: map<Node, Node>)
    requires ValidFunction(f1) && ValidFunction(f2) && Renaming(encode, f1, f2, phi)
    ensures !DifferSomewhere(encode, f1, f2)
  {
    forall k: nat, a, b | Pops(f1, k, a) && Pops(f2, k, b)
      ensures SameIr(encode, f1.nodes[a], f2.nodes[b])
    {
      WalksCorrespond(encode, f1, f2, phi, k);
    }
  }

  // ---------------------------------------------------------------------
  // When an unreported pair is the same function
  // ---------------------------------------------------------------------

  ghost function Succ(f: Function): Edges<Node> { map n | n in f.nodes :: set s | s in f.nodes[n].sons }

  ghost predicate AllReachable(f: Function) {
    forall n :: n in f.nodes ==> Reach(Succ(f), f.entry, n)
  }

  // The two walks pop a and b at the same time.
  ghost predicate Paired(f1: Function, f2: Function, a: Node, b: Node) {
    exists k: nat :: Pops(f1, k, a) && Pops(f2, k, b)
  }

  ghost predicate RunOutTogether(f1: Function, f2: Function) {
    forall k: nat :: |WalkAfter(f1, k).queue| == 0 <==> |WalkAfter(f2, k).queue| == 0
  }

  ghost predicate PairedOneToOne(f1: Function, f2: Function) {
    forall a, b, c, d :: Paired(f1, f2, a, b) && Paired(f1, f2, c, d) ==> (a == c <==> b == d)
  }

  // The whole list of sons, visited or not, goes over to the whole list.
  ghost predicate SonsPaired(f1: Function, f2: Function, a: Node, b: Node)
    requires a in f1.nodes && b in f2.nodes
  {
    && |f1.nodes[a].sons| == |f2.nodes[b].sons|
    && forall i :: 0 <= i < |f1.nodes[a].sons| ==> Paired(f1, f2, f1.nodes[a].sons[i], f2.nodes[b].sons[i])
  }

  ghost predicate PairsCarrySons(f1: Function, f2: Function) {
    forall a, b :: Paired(f1, f2, a, b) ==> a in f1.nodes && b in f2.nodes && SonsPaired(f1, f2, a, b)
  }

  ghost predicate Isomorphic(encode: Ir -> string, f1: Function, f2: Function) {
    exists phi :: Renaming(encode, f1, f2, phi)
  }

  // Two functions are the same up to the names of their nodes if and only if
  // no popped pair differs, the walks run out together, and the pairing is one
  // to one and respects the lists of sons.
  lemma IsomorphicIffPaired(encode: Ir -> string, f1: Function, f2: Function)
    requires ValidFunction(f1) && ValidFunction(f2) && AllReachable(f1) && AllReachable(f2)
    ensures Isomorphic(encode, f1, f2) <==>
            && !DifferSomewhere(encode, f1, f2)
            && RunOutTogether(f1, f2) && PairedOneToOne(f1, f2) && PairsCarrySons(f1, f2)
  {
    hide ValidFunction;
    hide AllReachable;
    hide Renaming;
    hide DifferSomewhere;
    hide RunOutTogether;
    hide PairedOneToOne;
    hide PairsCarrySons;
    if Isomorphic(encode, f1, f2) {
      var phi :| Renaming(encode, f1, f2, phi);
      RenamedIsUnmodified(encode, f1, f2, phi);
      RenamedWalksMatch(encode, f1, f2, phi);
    }
    if !DifferSomewhere(encode, f1, f2) && RunOutTogether(f1, f2) && PairedOneToOne(f1, f2) && PairsCarrySons(f1, f2) {
      PairingRenames(encode, f1, f2);
    }
  }

  // So an unreported change is none at all if and only if the walks run out
  // together and the pairing respects the graphs; a reported one always is.
  lemma UnreportedExact(encode: Ir -> string, f1: Function, f2: Function)
    requires ValidFunction(f1) && ValidFunction(f2) && AllReachable(f1) && AllReachable(f2)
    ensures (DifferSomewhere(encode, f1, f2) <==> !Isomorphic(encode, f1, f2)) <==>
            DifferSomewhere(encode, f1, f2) ||
            (RunOutTogether(f1, f2) && PairedOneToOne(f1, f2) && PairsCarrySons(f1, f2))
  {
    hide *;
    IsomorphicIffPaired(encode, f1, f2);
  }

  lemma {:induction false} RunsOut(f: Function, k: nat) returns (end: nat)
    requires ValidFunction(f)
    ensures k <= end && |WalkAfter(f, end).queue| == 0
    decreases Unvisited(f, WalkAfter(f, k)), FirstUnvisited(WalkAfter(f, k).queue, WalkAfter(f, k).visited)
  {
    hide ValidFunction;
    if |WalkAfter(f, k).queue| == 0 {
      end := k;
    } else {
      InvAlways(f, k);
      StepDecreases(f, WalkAfter(f, k));
      end := RunsOut(f, k + 1);
    }
  }

  // What is visited has been popped, and stays visited.
  lemma {:induction false} VisitedWasPopped(f: Function, k: nat, n: Node)
    requires ValidFunction(f) && n in WalkAfter(f, k).visited
    ensures exists j: nat :: Pops(f, j, n)
  {
    if k > 0 {
      if n in WalkAfter(f, k - 1).visited {
        VisitedWasPopped(f, k - 1, n);
      } else {
        InvAlways(f, k - 1);
        assert Pops(f, k - 1, n);
      }
    }
  }

  lemma {:induction false} EntryVisited(f: Function, k: nat)
    requires ValidFunction(f) && k > 0
    ensures f.entry in WalkAfter(f, k).visited
  {
    if k > 1 {
      EntryVisited(f, k - 1);
    } else {
      assert WalkAfter(f, 0) == Walk([f.entry], {});
    }
  }

  // A walk pops every reachable node.
  lemma ReachableIsPopped(f: Function, n: Node)
    requires ValidFunction(f) && Reach(Succ(f), f.entry, n)
    ensures exists k: nat :: Pops(f, k, n)
  {
    hide Reach;
    var end := RunsOut(f, 1);
    var w := WalkAfter(f, end);
    InvAlways(f, end);
    EntryVisited(f, end);
    forall a, b | a in w.visited && Edge(Succ(f), a, b)
      ensures b in w.visited
    {
      assert SonsSeen(f, w, a);
      var i :| 0 <= i < |f.nodes[a].sons| && f.nodes[a].sons[i] == b;
      assert f.nodes[a].sons[i] !in w.queue;
    }
    ClosedReach(Succ(f), w.visited, f.entry, n);
    VisitedWasPopped(f, end, n);
  }

  // Under a renaming a node is paired with its new name and no other.
  lemma PairedIffRenamed(encode: Ir -> string, f1: Function, f2: Function, phi: map<Node, Node>, a: Node, b: Node)
    requires ValidFunction(f1) && ValidFunction(f2) && AllReachable(f1) && Renaming(encode, f1, f2, phi)
    ensures Paired(f1, f2, a, b) <==> a in phi && b == phi[a]
  {
    hide ValidFunction;
    hide SameIr;
    hide Reach;
    if Paired(f1, f2, a, b) {
      var k: nat :| Pops(f1, k, a) && Pops(f2, k, b);
      WalksCorrespond(encode, f1, f2, phi, k);
    }
    if a in phi && b == phi[a] {
      ReachableIsPopped(f1, a);
      var k: nat :| Pops(f1, k, a);
      WalksCorrespond(encode, f1, f2, phi, k);
      assert Pops(f2, k, b);
    }
  }

  lemma RenamedWalksMatch(encode: Ir -> string, f1: Function, f2: Function, phi: map<Node, Node>)
    requires ValidFunction(f1) && ValidFunction(f2) && AllReachable(f1) && Renaming(encode, f1, f2, phi)
    ensures RunOutTogether(f1, f2) && PairedOneToOne(f1, f2) && PairsCarrySons(f1, f2)
  {
    hide ValidFunction;
    hide AllReachable;
    hide SameIr;
    hide WalkAfter;
    hide Paired;
    forall k: nat
      ensures |WalkAfter(f1, k).queue| == 0 <==> |WalkAfter(f2, k).queue| == 0
    {
      WalksCorrespond(encode, f1, f2, phi, k);
    }
    forall a, b
      ensures Paired(f1, f2, a, b) <==> a in phi && b == phi[a]
    {
      PairedIffRenamed(encode, f1, f2, phi, a, b);
    }
    forall a, b | Paired(f1, f2, a, b)
      ensures a in f1.nodes && b in f2.nodes && SonsPaired(f1, f2, a, b)
    {
      assert IsImage(phi, f1.nodes[a].sons, f2.nodes[phi[a]].sons);
    }
  }

  // The pairing of two walks that match is a renaming.
  lemma PairingRenames(encode: Ir -> string, f1: Function, f2: Function)
    requires ValidFunction(f1) && ValidFunction(f2) && AllReachable(f1)
    requires !DifferSomewhere(encode, f1, f2)
    requires RunOutTogether(f1, f2) && PairedOneToOne(f1, f2) && PairsCarrySons(f1, f2)
    ensures Isomorphic(encode, f1, f2)
  {
    hide ValidFunction;
    hide AllReachable;
    hide SameIr;
    forall a | a in f1.nodes
      ensures exists b :: Paired(f1, f2, a, b)
    {
      PartnerExists(f1, f2, a);
    }
    var phi := map a | a in f1.nodes :: Partner(f1, f2, a);
    EntriesPaired(f1, f2);
    PartnersRename(encode, f1, f2, phi);
  }

  ghost function Partner(f1: Function, f2: Function, a: Node): (b: Node)
    requires exists b :: Paired(f1, f2, a, b)
    ensures Paired(f1, f2, a, b)
  {
    var b :| Paired(f1, f2, a, b);
    b
  }

  lemma PartnerExists(f1: Function, f2: Function, a: Node)
    requires ValidFunction(f1) && ValidFunction(f2) && AllReachable(f1) && RunOutTogether(f1, f2) && a in f1.nodes
    ensures exists b :: Paired(f1, f2, a, b)
  {
    hide Reach;
    hide WalkAfter;
    ReachableIsPopped(f1, a);
    var k: nat :| Pops(f1, k, a);
    assert |WalkAfter(f2, k).queue| != 0;
    InvAlways(f2, k);
    var b := WalkAfter(f2, k).queue[0];
    assert b in WalkAfter(f2, k).queue;
    assert Pops(f2, k, b);
    assert Paired(f1, f2, a, b);
  }

  lemma EntriesPaired(f1: Function, f2: Function)
    requires ValidFunction(f1) && ValidFunction(f2)
    ensures Paired(f1, f2, f1.entry, f2.entry)
  {
    assert WalkAfter(f1, 0) == Walk([f1.entry], {}) && WalkAfter(f2, 0) == Walk([f2.entry], {});
    assert Pops(f1, 0, f1.entry) && Pops(f2, 0, f2.entry);
  }

  lemma PartnersRename(encode: Ir -> string, f1: Function, f2: Function, phi: map<Node, Node>)
    requires f1.entry in f1.nodes && phi.Keys == f1.nodes.Keys
    requires forall a :: a in phi ==> Paired(f1, f2, a, phi[a])
    requires Paired(f1, f2, f1.entry, f2.entry)
    requires !DifferSomewhere(encode, f1, f2) && PairedOneToOne(f1, f2) && PairsCarrySons(f1, f2)
    ensures Renaming(encode, f1, f2, phi)
  {
    hide WalkAfter;
    forall a | a in phi
      ensures phi[a] in f2.nodes && SameIr(encode, f1.nodes[a], f2.nodes[phi[a]])
    {
      var k: nat :| Pops(f1, k, a) && Pops(f2, k, phi[a]);
      assert !(exists j: nat, c, d :: Pops(f1, j, c) && Pops(f2, j, d) && !SameIr(encode, f1.nodes[c], f2.nodes[d]));
    }
    forall a | a in phi
      ensures IsImage(phi, f1.nodes[a].sons, f2.nodes[phi[a]].sons)
    {
      SonsAreImage(f1, f2, phi, a);
    }
  }

  lemma SonsAreImage(f1: Function, f2: Function, phi: map<Node, Node>, a: Node)
    requires phi.Keys == f1.nodes.Keys && forall c :: c in phi ==> Paired(f1, f2, c, phi[c])
    requires PairedOneToOne(f1, f2) && PairsCarrySons(f1, f2) && a in phi && phi[a] in f2.nodes
    ensures IsImage(phi, f1.nodes[a].sons, f2.nodes[phi[a]].sons)
  {
    hide Paired;
    var q, r := f1.nodes[a].sons, f2.nodes[phi[a]].sons;
    assert SonsPaired(f1, f2, a, phi[a]);
    forall i | 0 <= i < |q|
      ensures q[i] in phi && r[i] == phi[q[i]]
    {
      assert Paired(f1, f2, q[i], r[i]);
    }
  }

  // Code appended after the last common node goes unnoticed: the walk stops
  // with the shorter queue.
  lemma AppendedCodeIsMissed(encode: Ir -> string, ir: Ir)
    ensures var f1 := Function(map[1 := CfgNode([ir], [])], 1, 0);
            var f2 := Function(map[2 := CfgNode([ir], [3]), 3 := CfgNode([ir, ir], [])], 2, 1);
            && ValidFunction(f1) && ValidFunction(f2)
            && !DifferSomewhere(encode, f1, f2) && !Isomorphic(encode, f1, f2) && !RunOutTogether(f1, f2)
  {
    var f1 := Function(map[1 := CfgNode([ir], [])], 1, 0);
    var f2 := Function(map[2 := CfgNode([ir], [3]), 3 := CfgNode([ir, ir], [])], 2, 1);
    OnlyEntryCompared(encode, f1, f2);
    assert WalkAfter(f2, 0) == Walk([2], {});
    assert WalkAfter(f2, 1) == WalkStep(f2, WalkAfter(f2, 0));
    assert 3 in Unseen(f2.nodes[2].sons, {} + {2});
    assert |WalkAfter(f2, 1).queue| > 0;
    assert |WalkAfter(f1, 1).queue| == 0;
    NoRenaming(encode, f1, f2);
  }

  // A loop goes unnoticed too: its back edge leads to a visited node and is never queued.
  lemma BackEdgeIsMissed(encode: Ir -> string, ir: Ir)
    ensures var f1 := Function(map[1 := CfgNode([ir], [1])], 1, 0);
            var f2 := Function(map[2 := CfgNode([ir], [])], 2, 1);
            && ValidFunction(f1) && ValidFunction(f2)
            && !DifferSomewhere(encode, f1, f2) && !Isomorphic(encode, f1, f2) && !PairsCarrySons(f1, f2)
  {
    var f1 := Function(map[1 := CfgNode([ir], [1])], 1, 0);
    var f2 := Function(map[2 := CfgNode([ir], [])], 2, 1);
    OnlyEntryCompared(encode, f1, f2);
    EntriesPaired(f1, f2);
    NoRenaming(encode, f1, f2);
  }

  lemma OnlyEntryCompared(encode: Ir -> string, f1: Function, f2: Function)
    requires f1.entry in f1.nodes && f2.entry in f2.nodes && SameIr(encode, f1.nodes[f1.entry], f2.nodes[f2.entry])
    requires Unseen(f1.nodes[f1.entry].sons, {f1.entry}) == []
    ensures !DifferSomewhere(encode, f1, f2) && |WalkAfter(f1, 1).queue| == 0
  {
    assert WalkAfter(f1, 0) == Walk([f1.entry], {}) && WalkAfter(f2, 0) == Walk([f2.entry], {});
    assert WalkAfter(f1, 1).queue == [] by { assert [f1.entry][1..] == [] && {} + {f1.entry} == {f1.entry}; }
    NothingMorePops(f1, 1);
    forall k: nat, a, b | Pops(f1, k, a) && Pops(f2, k, b)
      ensures SameIr(encode, f1.nodes[a], f2.nodes[b])
    {
      assert k == 0;
    }
  }

  lemma NoRenaming(encode: Ir -> string, f1: Function, f2: Function)
    requires f1.entry in f1.nodes && f2.entry in f2.nodes
    requires |f1.nodes[f1.entry].sons| != |f2.nodes[f2.entry].sons|
    ensures !Isomorphic(encode, f1, f2)
  {
    forall phi
      ensures !Renaming(encode, f1, f2, phi)
    {
      assert !IsImage(phi, f1.nodes[f1.entry].sons, f2.nodes[f2.entry].sons);
    }
  }
}
