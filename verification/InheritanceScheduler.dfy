// Analysing contracts after their ancestors
// (slither/solc_parsing/slither_compilation_unit_solc.py).
//
// Each phase rotates a work list: the front contract is analysed if everything
// it inherits from has been, and moved to the back otherwise.
module InheritanceScheduler {
  import opened Selections

  type ContractId = int
  type Inheritance = map<ContractId, set<ContractId>>

  ghost function Ids(q: seq<ContractId>): set<ContractId> {
    set c | c in q
  }

  ghost predicate Ready(inh: Inheritance, done: set<ContractId>, c: ContractId) {
    c in inh && inh[c] <= done
  }

  // ---------------------------------------------------------------------
  // The rotation as a machine, and when it halts
  // ---------------------------------------------------------------------

  datatype State = State(queue: seq<ContractId>, done: set<ContractId>)

  ghost function Step(inh: Inheritance, s: State): State {
    if s.queue == [] then s
    else if Ready(inh, s.done, s.queue[0]) then State(s.queue[1..], s.done + {s.queue[0]})
    else State(s.queue[1..] + [s.queue[0]], s.done)
  }

  ghost function Steps(inh: Inheritance, s: State, k: nat): State {
    if k == 0 then s else Step(inh, Steps(inh, s, k - 1))
  }

  // Some member of the group needs only contracts that are done or are queued
  // outside the group.
  ghost predicate HasEntry(inh: Inheritance, s: State, group: set<ContractId>) {
    exists c :: c in group && c in inh && inh[c] <= s.done + (Ids(s.queue) - group)
  }

  // No group of queued contracts waits for itself or for something absent.
  ghost predicate Schedulable(inh: Inheritance, s: State) {
    forall group :: group <= Ids(s.queue) && group != {} ==> HasEntry(inh, s, group)
  }

  function Triangle(n: nat): nat {
    if n == 0 then 0 else n + Triangle(n - 1)
  }

  lemma {:induction false} TriangleFormula(n: nat)
    ensures 2 * Triangle(n) == n * (n + 1)
  {
    if n > 0 { TriangleFormula(n - 1); }
  }

  // How many contracts stand before the first ready one.
  ghost function FirstReady(inh: Inheritance, q: seq<ContractId>, done: set<ContractId>): (p: nat)
    ensures p <= |q|
    ensures p < |q| ==> Ready(inh, done, q[p])
    ensures forall i :: 0 <= i < p ==> !Ready(inh, done, q[i])
  {
    if q == [] || Ready(inh, done, q[0]) then 0 else 1 + FirstReady(inh, q[1..], done)
  }

  // An upper bound on the pops still to come.
  ghost function Bound(inh: Inheritance, s: State): nat {
    if s.queue == [] then 0 else FirstReady(inh, s.queue, s.done) + 1 + Triangle(|s.queue| - 1)
  }

  lemma SomethingReady(inh: Inheritance, s: State)
    requires Schedulable(inh, s) && s.queue != []
    ensures FirstReady(inh, s.queue, s.done) < |s.queue|
    ensures Bound(inh, s) <= Triangle(|s.queue|)
  {
    var group := Ids(s.queue);
    assert s.queue[0] in group;
    assert HasEntry(inh, s, group);
    var c :| c in group && c in inh && inh[c] <= s.done + (Ids(s.queue) - group);
    var i :| 0 <= i < |s.queue| && s.queue[i] == c;
    assert Ready(inh, s.done, s.queue[i]);
  }

  lemma StepKeepsSchedulable(inh: Inheritance, s: State)
    requires Schedulable(inh, s)
    ensures Schedulable(inh, Step(inh, s))
  {
    var s' := Step(inh, s);
    if s.queue != [] {
      var front := s.queue[0];
      assert forall c :: c in s.queue <==> c == front || c in s.queue[1..];
      forall group | group <= Ids(s'.queue) && group != {}
        ensures HasEntry(inh, s', group)
      {
        assert group <= Ids(s.queue);
        assert HasEntry(inh, s, group);
        var c :| c in group && c in inh && inh[c] <= s.done + (Ids(s.queue) - group);
        assert s.done + (Ids(s.queue) - group) <= s'.done + (Ids(s'.queue) - group);
      }
    }
  }

  lemma StepLowersBound(inh: Inheritance, s: State)
    requires Schedulable(inh, s) && s.queue != []
    ensures Bound(inh, Step(inh, s)) < Bound(inh, s)
  {
    var s' := Step(inh, s);
    var front := s.queue[0];
    SomethingReady(inh, s);
    if Ready(inh, s.done, front) {
      StepKeepsSchedulable(inh, s);
      if s'.queue != [] { SomethingReady(inh, s'); }
    } else {
      var p := FirstReady(inh, s.queue, s.done);
      assert s'.queue[p - 1] == s.queue[p];
      var p' := FirstReady(inh, s'.queue, s'.done);
      assert p' <= p - 1;
    }
  }

  lemma {:induction false} BoundIsEnough(inh: Inheritance, s: State) returns (k: nat)
    requires Schedulable(inh, s)
    ensures k <= Bound(inh, s) && Steps(inh, s, k).queue == []
    decreases Bound(inh, s)
  {
    if s.queue == [] {
      k := 0;
    } else {
      StepLowersBound(inh, s);
      StepKeepsSchedulable(inh, s);
      var j := BoundIsEnough(inh, Step(inh, s));
      k := j + 1;
      StepsShift(inh, s, j);
    }
  }

  lemma {:induction false} StepsShift(inh: Inheritance, s: State, k: nat)
    ensures Steps(inh, Step(inh, s), k) == Steps(inh, s, k + 1)
  {
    if k > 0 { StepsShift(inh, s, k - 1); }
  }

  // A group without entry is still queued after any number of pops.
  lemma {:induction false} StuckForever(inh: Inheritance, s: State, group: set<ContractId>, k: nat)
    requires group <= Ids(s.queue) && !HasEntry(inh, s, group)
    ensures var t := Steps(inh, s, k);
            group <= Ids(t.queue) && t.done <= s.done + (Ids(s.queue) - group) && Ids(t.queue) <= Ids(s.queue)
  {
    if k > 0 {
      StuckForever(inh, s, group, k - 1);
      var t := Steps(inh, s, k - 1);
      if t.queue != [] {
        var front := t.queue[0];
        assert forall c :: c in t.queue <==> c == front || c in t.queue[1..];
        if front in group {
          assert !Ready(inh, t.done, front);
        }
      }
    }
  }

  // The loop of a phase ends if and only if its queue is schedulable, and then
  // within n(n+1)/2 pops.
  lemma HaltsIffSchedulable(inh: Inheritance, s: State)
    ensures (exists k: nat :: Steps(inh, s, k).queue == []) <==> Schedulable(inh, s)
    ensures Schedulable(inh, s) ==>
              exists k: nat :: 2 * k <= |s.queue| * (|s.queue| + 1) && Steps(inh, s, k).queue == []
  {
    if Schedulable(inh, s) {
      var k := BoundIsEnough(inh, s);
      TriangleFormula(|s.queue|);
      if s.queue != [] { SomethingReady(inh, s); }
    } else {
      var group :| group <= Ids(s.queue) && group != {} && !HasEntry(inh, s, group);
      forall k: nat
        ensures Steps(inh, s, k).queue != []
      {
        StuckForever(inh, s, group, k);
        EmptyOrMember(group);
        var c :| c in group;
        assert c in Ids(Steps(inh, s, k).queue);
      }
    }
  }

  // What the parser provides: the list of all ancestors of every contract.
  ghost predicate TransitiveAndAcyclic(inh: Inheritance) {
    && (forall c :: c in inh ==> c !in inh[c])
    && (forall c, f, g :: c in inh && f in inh[c] && f in inh && g in inh[f] ==> g in inh[c])
  }

  // Acyclic inheritance closed over the queue is schedulable.
  lemma AncestorListsAreSchedulable(inh: Inheritance, s: State)
    requires TransitiveAndAcyclic(inh)
    requires forall c :: c in s.queue ==> c in inh && inh[c] <= s.done + Ids(s.queue)
    ensures Schedulable(inh, s)
  {
    forall group | group <= Ids(s.queue) && group != {}
      ensures HasEntry(inh, s, group)
    {
      forall c | c in group ensures c in inh { assert c in s.queue; }
      var c := Minimal(inh, group);
      assert c in s.queue;
      forall x | x in inh[c]
        ensures x in s.done + (Ids(s.queue) - group)
      {
        assert x in s.done + Ids(s.queue);
      }
    }
  }

  lemma EmptyOrMember(group: set<ContractId>)
    ensures group == {} || exists c :: c in group
  {
    if forall c :: c !in group {
      assert group == {};
    }
  }

  lemma {:induction false} Minimal(inh: Inheritance, group: set<ContractId>) returns (c: ContractId)
    requires TransitiveAndAcyclic(inh) && group != {} && group <= inh.Keys
    ensures c in group && forall x :: x in inh[c] ==> x !in group
    decreases group
  {
    EmptyOrMember(group);
    c :| c in group;
    var smaller := inh[c] * group;
    if smaller != {} {
      assert c in group && c !in smaller;
      var f := Minimal(inh, smaller);
      assert f in inh[c];
      forall x | x in inh[f]
        ensures x !in group
      {
        assert x in inh[c] && x !in smaller;
      }
      c := f;
    } else {
      assert forall x :: x in inh[c] && x in group ==> x in smaller;
    }
  }

  // Everything a contract inherits from comes before it or was done before.
  ghost predicate AncestorsFirst(inh: Inheritance, done: set<ContractId>, order: seq<ContractId>) {
    forall i :: 0 <= i < |order| ==> order[i] in inh && inh[order[i]] <= done + Ids(order[..i])
  }

  // Where a run stands after some pops, having analysed `order`.
  ghost predicate Progress(inh: Inheritance, start: State, s: State, order: seq<ContractId>, pops: nat) {
    && s == Steps(inh, start, pops)
    && Schedulable(inh, s)
    && s.done == start.done + Ids(order)
    && AncestorsFirst(inh, start.done, order)
    && multiset(order) + multiset(s.queue) == multiset(start.queue)
    && pops + Bound(inh, s) <= Triangle(|start.queue|)
  }

  lemma ProgressStarts(inh: Inheritance, start: State)
    requires Schedulable(inh, start)
    ensures Progress(inh, start, start, [], 0)
  {
    if start.queue != [] { SomethingReady(inh, start); }
  }

  lemma ProgressSteps(inh: Inheritance, start: State, s: State, order: seq<ContractId>, pops: nat)
    requires Progress(inh, start, s, order, pops) && s.queue != []
    ensures var order' := if Ready(inh, s.done, s.queue[0]) then order + [s.queue[0]] else order;
            Progress(inh, start, Step(inh, s), order', pops + 1)
    ensures Bound(inh, Step(inh, s)) < Bound(inh, s)
  {
    StepKeepsSchedulable(inh, s);
    StepLowersBound(inh, s);
    var front := s.queue[0];
    assert s.queue == [front] + s.queue[1..];
    if Ready(inh, s.done, front) { OrderGrows(inh, start.done, order, front); }
  }

  lemma ProgressEnds(inh: Inheritance, start: State, s: State, order: seq<ContractId>, pops: nat)
    requires Progress(inh, start, s, order, pops) && s.queue == []
    ensures multiset(order) == multiset(start.queue) && AncestorsFirst(inh, start.done, order)
    ensures s.done == start.done + Ids(order)
    ensures 2 * pops <= |start.queue| * (|start.queue| + 1)
  {
    TriangleFormula(|start.queue|);
    assert multiset(s.queue) == multiset{};
  }

  lemma OrderGrows(inh: Inheritance, done: set<ContractId>, order: seq<ContractId>, c: ContractId)
    requires AncestorsFirst(inh, done, order) && Ready(inh, done + Ids(order), c)
    ensures AncestorsFirst(inh, done, order + [c]) && Ids(order + [c]) == Ids(order) + {c}
  {
    var order' := order + [c];
    assert order'[..|order|] == order;
    forall i | 0 <= i < |order|
      ensures order'[..i] == order[..i]
    {
    }
  }

  // ---------------------------------------------------------------------
  // The parser objects
  // ---------------------------------------------------------------------

  class ContractParser {
    const id: ContractId
    const inheritance: seq<ContractId>
    const isLibrary: bool
    var isAnalyzed: bool
  }

  // A list object: slicing makes a new one, += extends the one it is given.
  class ContractList {
    var items: seq<ContractParser>

    constructor (items: seq<ContractParser>)
      ensures this.items == items
    {
      this.items := items;
    }
  }

  type Parsers = map<ContractId, ContractParser>

  ghost predicate ValidParsers(parsers: Parsers) {
    && (forall c :: c in parsers ==> parsers[c].id == c)
    && (forall c :: c in parsers ==> FathersKnown(parsers, parsers[c]))
  }

  ghost predicate FathersKnown(parsers: Parsers, contract: ContractParser) {
    forall i :: 0 <= i < |contract.inheritance| ==> contract.inheritance[i] in parsers
  }

  ghost function InheritanceOf(parsers: Parsers): Inheritance {
    map c | c in parsers :: set f | f in parsers[c].inheritance
  }

  ghost function Analyzed(parsers: Parsers): set<ContractId>
    reads parsers.Values
  {
    set c | c in parsers && parsers[c].isAnalyzed
  }

  function IdsOf(q: seq<ContractParser>): (r: seq<ContractId>)
    ensures |r| == |q| && forall i :: 0 <= i < |q| ==> r[i] == q[i].id
  {
    seq(|q|, i requires 0 <= i < |q| => q[i].id)
  }

  ghost predicate Known(parsers: Parsers, q: seq<ContractParser>) {
    forall c :: c in q ==> c.id in parsers && parsers[c.id] == c
  }

  ghost function StateOf(parsers: Parsers, q: seq<ContractParser>): State
    reads parsers.Values
  {
    State(IdsOf(q), Analyzed(parsers))
  }

  // The `while` loop that all five phases share.  `order` lists the contracts
  // in the order in which they were analysed.
  method RunPhase(parsers: Parsers, caller: ContractList) returns (order: seq<ContractId>, ghost pops: nat)
    requires ValidParsers(parsers) && Known(parsers, caller.items)
    requires Schedulable(InheritanceOf(parsers), StateOf(parsers, caller.items))
    modifies parsers.Values
    ensures caller.items == old(caller.items)
    ensures multiset(order) == multiset(IdsOf(caller.items))
    ensures AncestorsFirst(InheritanceOf(parsers), old(Analyzed(parsers)), order)
    ensures Analyzed(parsers) == old(Analyzed(parsers)) + Ids(order)
    ensures 2 * pops <= |caller.items| * (|caller.items| + 1)
  {
    hide Progress;
    hide Schedulable;
    hide Step;
    hide AncestorsFirst;
    hide InheritanceOf;
    hide Bound;
    ghost var inh, start := InheritanceOf(parsers), StateOf(parsers, caller.items);
    order, pops := [], 0;
    var queue := caller;
    ProgressStarts(inh, start);
    while queue.items != []
      invariant queue == caller || fresh(queue)
      invariant caller.items == old(caller.items)
      invariant Known(parsers, queue.items)
      invariant Progress(inh, start, StateOf(parsers, queue.items), order, pops)
      decreases Bound(inh, StateOf(parsers, queue.items))
    {
      ghost var s := StateOf(parsers, queue.items);
      ProgressSteps(inh, start, s, order, pops);
      var contract := queue.items[0];
      var analyzed;
      queue, analyzed := PopFront(parsers, queue, contract);
      if analyzed {
        order := order + [contract.id];
      }
      pops := pops + 1;
    }
    ProgressEnds(inh, start, StateOf(parsers, queue.items), order, pops);
  }

  method PopFront(parsers: Parsers, queue: ContractList, contract: ContractParser)
    returns (rest: ContractList, analyzed: bool)
    requires ValidParsers(parsers) && Known(parsers, queue.items)
    requires queue.items != [] && contract == queue.items[0]
    modifies contract`isAnalyzed
    ensures fresh(rest) && Known(parsers, rest.items)
    ensures StateOf(parsers, rest.items) == Step(InheritanceOf(parsers), old(StateOf(parsers, queue.items)))
    ensures analyzed <==> Ready(InheritanceOf(parsers), old(Analyzed(parsers)), contract.id)
  {
    ghost var s, inh := StateOf(parsers, queue.items), InheritanceOf(parsers);
    assert contract in queue.items;
    assert FathersKnown(parsers, parsers[contract.id]);
    assert forall d :: d in parsers && d != contract.id ==> parsers[d].id != contract.id;
    rest := new ContractList(queue.items[1..]);
    assert IdsOf(rest.items) == s.queue[1..];
    var allFatherAnalyzed := AllAnalyzed(parsers, contract.inheritance);
    analyzed := contract.inheritance == [] || allFatherAnalyzed;
    assert analyzed <==> inh[contract.id] <= s.done by {
      assert forall i :: 0 <= i < |contract.inheritance| ==> contract.inheritance[i] in inh[contract.id];
    }
    if analyzed {
      contract.isAnalyzed := true;
      assert Analyzed(parsers) == s.done + {contract.id};
    } else {
      rest.items := rest.items + [contract];
      assert IdsOf(rest.items) == s.queue[1..] + [contract.id];
    }
  }

  // all(parser[father].is_analyzed for father in inheritance)
  method AllAnalyzed(parsers: Parsers, fathers: seq<ContractId>) returns (r: bool)
    requires forall i :: 0 <= i < |fathers| ==> fathers[i] in parsers
    ensures r <==> forall i :: 0 <= i < |fathers| ==> parsers[fathers[i]].isAnalyzed
  {
    for i := 0 to |fathers|
      invariant forall j :: 0 <= j < i ==> parsers[fathers[j]].isAnalyzed
    {
      if !parsers[fathers[i]].isAnalyzed {
        return false;
      }
    }
    return true;
  }

  // ---------------------------------------------------------------------
  // The five phases
  // ---------------------------------------------------------------------

  // A subset of the queue whose members inherit only from the subset is
  // schedulable too, and having more contracts done does no harm.
  lemma SubqueueSchedulable(inh: Inheritance, s: State, s': State)
    requires Schedulable(inh, s) && Ids(s'.queue) <= Ids(s.queue) && s.done <= s'.done
    requires forall c :: c in s'.queue && c in inh ==> inh[c] * Ids(s.queue) <= Ids(s'.queue) + s'.done
    ensures Schedulable(inh, s')
  {
    forall group | group <= Ids(s'.queue) && group != {}
      ensures HasEntry(inh, s', group)
    {
      assert HasEntry(inh, s, group);
      var c :| c in group && c in inh && inh[c] <= s.done + (Ids(s.queue) - group);
      assert c in s'.queue;
      forall x | x in inh[c]
        ensures x in s'.done + (Ids(s'.queue) - group)
      {
        if x !in s'.done { assert x in inh[c] * Ids(s.queue); }
      }
    }
  }

  // [c.set_is_analyzed(False) for c in ...values()]
  method ResetFlags(parsers: Parsers)
    modifies parsers.Values
    ensures Analyzed(parsers) == {}
  {
    var todo := parsers.Keys;
    while todo != {}
      invariant todo <= parsers.Keys
      invariant forall c :: c in parsers && c !in todo ==> !parsers[c].isAnalyzed
      decreases todo
    {
      EmptyOrMember(todo);
      var c :| c in todo;
      parsers[c].isAnalyzed := false;
      todo := todo - {c};
    }
    assert forall c :: c in parsers ==> !parsers[c].isAnalyzed;
  }

  // One phase after the first: the libraries, then the loop.  Only the last
  // phase leaves the libraries unmarked.
  method RunPhaseWithLibraries(parsers: Parsers, libraries: seq<ContractParser>, caller: ContractList, mark: bool)
    returns (order: seq<ContractId>)
    requires ValidParsers(parsers) && Known(parsers, caller.items) && Known(parsers, libraries)
    requires Schedulable(InheritanceOf(parsers), State(IdsOf(caller.items), {}))
    modifies parsers.Values
    ensures caller.items == old(caller.items)
    ensures multiset(order) == multiset(IdsOf(caller.items))
    ensures AncestorsFirst(InheritanceOf(parsers), if mark then Ids(IdsOf(libraries)) else {}, order)
  {
    hide Schedulable;
    hide AncestorsFirst;
    ResetFlags(parsers);
    if mark {
      MarkLibraries(parsers, libraries);
    }
    SubqueueSchedulable(InheritanceOf(parsers), State(IdsOf(caller.items), {}), StateOf(parsers, caller.items));
    ghost var pops;
    order, pops := RunPhase(parsers, caller);
  }

  method MarkLibraries(parsers: Parsers, libraries: seq<ContractParser>)
    requires ValidParsers(parsers) && Known(parsers, libraries) && Analyzed(parsers) == {}
    modifies parsers.Values
    ensures Analyzed(parsers) == Ids(IdsOf(libraries))
  {
    ghost var ids := IdsOf(libraries);
    for i := 0 to |libraries|
      invariant Analyzed(parsers) == Ids(ids[..i])
    {
      var library := libraries[i];
      assert library in libraries;
      assert forall d :: d in parsers && d != library.id ==> parsers[d].id != library.id;
      library.isAnalyzed := true;
      assert Analyzed(parsers) == Ids(ids[..i]) + {library.id};
      assert ids[..i + 1] == ids[..i] + [library.id];
    }
    assert ids[..|ids|] == ids;
  }

  predicate IsLibraryId(parsers: Parsers, c: ContractId) {
    c in parsers && parsers[c].isLibrary
  }

  // [c for c in contracts if (kind == "library") == wanted]
  function OfKind(q: seq<ContractParser>, wanted: bool): (r: seq<ContractParser>)
    ensures forall i :: 0 <= i < |r| ==> r[i] in q && r[i].isLibrary == wanted
    ensures forall i :: 0 <= i < |q| && q[i].isLibrary == wanted ==> q[i] in r
  {
    if |q| == 0 then []
    else
      var last := q[|q| - 1];
      var r := OfKind(q[..|q| - 1], wanted);
      if last.isLibrary == wanted then r + [last] else r
  }

  ghost function KindAt(q: seq<ContractParser>, wanted: bool): nat -> bool {
    (i: nat) => i < |q| && q[i].isLibrary == wanted
  }

  // Every occurrence is kept once, in its place.
  lemma {:induction false} OfKindSelects(q: seq<ContractParser>, wanted: bool)
    ensures IsSelection(OfKind(q, wanted), q, KindAt(q, wanted))
  {
    hide IsSelection;
    if |q| == 0 {
      assert q == [];
      SelectNothing<ContractParser>(KindAt(q, wanted));
    } else {
      var n := |q| - 1;
      var p, r := q[..n], OfKind(q[..n], wanted);
      OfKindSelects(p, wanted);
      SameChoice(r, p, KindAt(p, wanted), KindAt(q, wanted));
      SelectLast(r, p, q[n], KindAt(q, wanted));
      assert p + [q[n]] == q;
    }
  }

  // The two kinds make up the list.
  lemma {:induction false} KindsMakeUp(q: seq<ContractParser>)
    ensures multiset(OfKind(q, true)) + multiset(OfKind(q, false)) == multiset(q)
  {
    hide OfKind;
    OfKindLast(q, true);
    OfKindLast(q, false);
    if |q| > 0 {
      var p, last := q[..|q| - 1], q[|q| - 1];
      KindsMakeUp(p);
      assert q == p + [last];
      AppendToOne(OfKind(p, true), OfKind(p, false), p, last);
      AppendToOne(OfKind(p, false), OfKind(p, true), p, last);
    }
  }

  lemma OfKindLast(q: seq<ContractParser>, wanted: bool)
    ensures |q| == 0 ==> OfKind(q, wanted) == []
    ensures |q| > 0 ==>
              var last, r := q[|q| - 1], OfKind(q[..|q| - 1], wanted);
              OfKind(q, wanted) == if last.isLibrary == wanted then r + [last] else r
  {
  }

  lemma AppendToOne(a: seq<ContractParser>, b: seq<ContractParser>, c: seq<ContractParser>, x: ContractParser)
    ensures multiset(a) + multiset(b) == multiset(c) ==> multiset(a + [x]) + multiset(b) == multiset(c + [x])
  {
    assert multiset(a + [x]) == multiset(a) + multiset{x};
    assert multiset(c + [x]) == multiset(c) + multiset{x};
  }

  lemma {:induction false} OfKindCounts(parsers: Parsers, q: seq<ContractParser>, wanted: bool, id: ContractId)
    requires Known(parsers, q)
    ensures multiset(IdsOf(OfKind(q, wanted)))[id] ==
            if IsLibraryId(parsers, id) == wanted then multiset(IdsOf(q))[id] else 0
  {
    hide IsLibraryId;
    if |q| > 0 {
      var n := |q| - 1;
      var p, last := q[..n], q[n];
      KnownPrefix(parsers, q, n);
      OfKindCounts(parsers, p, wanted, id);
      IdsAppend(p, last);
      assert p + [last] == q;
      IdsAppend(OfKind(p, wanted), last);
    }
  }

  lemma KnownPrefix(parsers: Parsers, q: seq<ContractParser>, n: nat)
    requires Known(parsers, q) && n < |q|
    ensures Known(parsers, q[..n]) && (IsLibraryId(parsers, q[n].id) <==> q[n].isLibrary)
  {
    assert q[n] in q && forall c :: c in q[..n] ==> c in q;
  }

  lemma IdsAppend(q: seq<ContractParser>, x: ContractParser)
    ensures IdsOf(q + [x]) == IdsOf(q) + [x.id]
  {
  }

  // The order lists every contract that is no library as often as `all` does,
  // and nothing else.
  ghost predicate ListsOthers(parsers: Parsers, all: seq<ContractParser>, order: seq<ContractId>) {
    forall id :: multiset(order)[id] ==
                 if id in parsers && !parsers[id].isLibrary then multiset(IdsOf(all))[id] else 0
  }

  lemma OthersListed(parsers: Parsers, all: seq<ContractParser>, order: seq<ContractId>)
    requires Known(parsers, all) && multiset(order) == multiset(IdsOf(OfKind(all, false)))
    ensures ListsOthers(parsers, all, order)
  {
    forall id
      ensures multiset(order)[id] == if id in parsers && !parsers[id].isLibrary then multiset(IdsOf(all))[id] else 0
    {
      OfKindCounts(parsers, all, false, id);
      if id !in parsers { UnknownId(parsers, all, id); }
    }
  }

  lemma UnknownId(parsers: Parsers, q: seq<ContractParser>, id: ContractId)
    requires Known(parsers, q) && id !in parsers
    ensures multiset(IdsOf(q))[id] == 0
  {
    forall i | 0 <= i < |q|
      ensures IdsOf(q)[i] != id
    {
      assert q[i] in q;
    }
  }

  ghost function Libraries(parsers: Parsers): set<ContractId> { set c | c in parsers && parsers[c].isLibrary }

  lemma LibrariesListed(parsers: Parsers, all: seq<ContractParser>)
    requires ValidParsers(parsers) && Known(parsers, all) && forall c :: c in parsers ==> parsers[c] in all
    ensures Ids(IdsOf(OfKind(all, true))) == Libraries(parsers)
  {
    var libraries := OfKind(all, true);
    forall c | c in Libraries(parsers)
      ensures c in IdsOf(libraries)
    {
      var j :| 0 <= j < |all| && all[j] == parsers[c];
      assert all[j] in libraries;
      KnownIsQueued(parsers, libraries, c);
    }
    forall c | c in IdsOf(libraries)
      ensures c in Libraries(parsers)
    {
      var i :| 0 <= i < |libraries| && libraries[i].id == c;
      assert libraries[i] in all;
    }
  }

  // parse_contracts from the list of parsers on: enums over all contracts, then
  // four phases over the contracts that are not libraries.
  method RunAllPhases(parsers: Parsers, all: ContractList)
    returns (enums: seq<ContractId>, first: seq<ContractId>, second: seq<ContractId>, third: seq<ContractId>,
             usingFor: seq<ContractId>)
    requires ValidParsers(parsers) && Known(parsers, all.items)
    requires TransitiveAndAcyclic(InheritanceOf(parsers))
    requires forall c :: c in parsers ==> parsers[c] in all.items
    requires forall c, f :: c in parsers && f in InheritanceOf(parsers)[c] && IsLibraryId(parsers, f) ==>
                            IsLibraryId(parsers, c)
    modifies parsers.Values
    ensures all.items == old(all.items)
    ensures var inh := InheritanceOf(parsers);
            var libraries := Libraries(parsers);
            && multiset(enums) == multiset(IdsOf(all.items)) && AncestorsFirst(inh, old(Analyzed(parsers)), enums)
            && ListsOthers(parsers, all.items, first) && AncestorsFirst(inh, libraries, first)
            && ListsOthers(parsers, all.items, second) && AncestorsFirst(inh, libraries, second)
            && ListsOthers(parsers, all.items, third) && AncestorsFirst(inh, libraries, third)
            && ListsOthers(parsers, all.items, usingFor) && AncestorsFirst(inh, {}, usingFor)
  {
    AllSchedulable(parsers, all.items, Analyzed(parsers));
    OthersSchedulable(parsers, all.items);
    hide Schedulable;
    hide AncestorsFirst;
    hide TransitiveAndAcyclic;
    ghost var pops;
    enums, pops := RunPhase(parsers, all);
    var libraries := OfKind(all.items, true);
    var others := new ContractList(OfKind(all.items, false));
    first := RunPhaseWithLibraries(parsers, libraries, others, true);
    second := RunPhaseWithLibraries(parsers, libraries, others, true);
    third := RunPhaseWithLibraries(parsers, libraries, others, true);
    usingFor := RunPhaseWithLibraries(parsers, libraries, others, false);
    LibrariesListed(parsers, all.items);
    OthersListed(parsers, all.items, first);
    OthersListed(parsers, all.items, second);
    OthersListed(parsers, all.items, third);
    OthersListed(parsers, all.items, usingFor);
  }

  lemma AllSchedulable(parsers: Parsers, all: seq<ContractParser>, done: set<ContractId>)
    requires ValidParsers(parsers) && Known(parsers, all) && TransitiveAndAcyclic(InheritanceOf(parsers))
    requires forall c :: c in parsers ==> parsers[c] in all
    ensures Schedulable(InheritanceOf(parsers), State(IdsOf(all), done))
  {
    var inh, s := InheritanceOf(parsers), State(IdsOf(all), done);
    forall c | c in s.queue
      ensures c in inh && inh[c] <= s.done + Ids(s.queue)
    {
      var i :| 0 <= i < |all| && all[i].id == c;
      assert all[i] in all;
      forall f | f in inh[c]
        ensures f in Ids(s.queue)
      {
        assert FathersKnown(parsers, parsers[c]);
        KnownIsQueued(parsers, all, f);
      }
    }
    AncestorListsAreSchedulable(inh, s);
  }

  lemma KnownIsQueued(parsers: Parsers, all: seq<ContractParser>, f: ContractId)
    requires ValidParsers(parsers) && f in parsers && parsers[f] in all
    ensures f in IdsOf(all)
  {
  }

  // Only libraries inherit from libraries, so the others are closed.
  lemma OthersSchedulable(parsers: Parsers, all: seq<ContractParser>)
    requires ValidParsers(parsers) && Known(parsers, all) && TransitiveAndAcyclic(InheritanceOf(parsers))
    requires forall c :: c in parsers ==> parsers[c] in all
    requires forall c, f :: c in parsers && f in InheritanceOf(parsers)[c] && IsLibraryId(parsers, f) ==>
                            IsLibraryId(parsers, c)
    ensures Known(parsers, OfKind(all, true)) && Known(parsers, OfKind(all, false))
    ensures Schedulable(InheritanceOf(parsers), State(IdsOf(OfKind(all, false)), {}))
  {
    var inh, others := InheritanceOf(parsers), OfKind(all, false);
    var s := State(IdsOf(others), {});
    forall c | c in s.queue
      ensures c in inh && inh[c] <= s.done + Ids(s.queue)
    {
      var i :| 0 <= i < |others| && others[i].id == c;
      assert others[i] in others;
      forall f | f in inh[c]
        ensures f in Ids(s.queue)
      {
        assert FathersKnown(parsers, parsers[c]);
        assert !IsLibraryId(parsers, c);
        assert !IsLibraryId(parsers, f);
        var j :| 0 <= j < |all| && all[j] == parsers[f];
        assert all[j] in others;
        KnownIsQueued(parsers, others, f);
      }
    }
    AncestorListsAreSchedulable(inh, s);
  }
}
