// Folding f.value(..) and f.gas(..) into the call they belong to
// (slither/slithir/convert.py, integrate_value_gas).
//
// Instructions are objects whose call id, callee and origin are rewritten in
// place; the list itself is rebuilt by every pass.  Specifications speak of
// snapshots of the fields that change.
module ValueGasFolding {
  import opened Options

  type Name = int

  datatype Right = ValueMember | GasMember | OtherMember
  datatype Kind = ArgumentKind | TmpCallKind | MemberKind(left: Name, right: Right) | OtherKind
  datatype ArgumentType = ByCall | ByValue | ByGas

  // The fields of an instruction that the folding rewrites.
  datatype Fields = Fields(argumentType: ArgumentType, callId: Option<Name>, called: Name, calledIsVariable: bool,
                           ori: Operation?)

  class Operation {
    const kind: Kind
    const lvalue: Option<Name>
    var argumentType: ArgumentType
    var callId: Option<Name>
    var called: Name
    var calledIsVariable: bool
    var ori: Operation?

    ghost function Now(): Fields
      reads this
    {
      Fields(argumentType, callId, called, calledIsVariable, ori)
    }
  }

  type Ops = seq<Operation>

  ghost function Snapshot(ops: Ops): (r: seq<Fields>)
    reads ops
    ensures |r| == |ops| && forall i :: 0 <= i < |ops| ==> r[i] == ops[i].Now()
  {
    seq(|ops|, i requires 0 <= i < |ops| reads ops => ops[i].Now())
  }

  ghost predicate Distinct(ops: Ops) {
    forall i, j :: 0 <= i < j < |ops| ==> ops[i] != ops[j]
  }

  // A call of a member `value` or `gas`: is_value or is_gas.
  predicate IsSetter(op: Operation, f: Fields) {
    op.kind.TmpCallKind? && f.ori != null && f.ori.kind.MemberKind? && !f.ori.kind.right.OtherMember?
  }

  // A setter that directly follows an argument.
  ghost predicate Foldable(ops: Ops, fs: seq<Fields>, i: nat)
    requires |fs| == |ops| && i < |ops|
  {
    i > 0 && IsSetter(ops[i], fs[i]) && ops[i - 1].kind.ArgumentKind?
  }

  // Everything is defined from names of lower rank, so replacements end.
  ghost predicate RankedOp(op: Operation, f: Fields, rank: Name -> nat) {
    && (op.kind.MemberKind? && op.lvalue.Some? ==> rank(op.kind.left) < rank(op.lvalue.value))
    && (op.kind.TmpCallKind? ==>
          && op.lvalue.Some? && rank(f.called) < rank(op.lvalue.value)
          && (f.ori != null && f.ori.kind.MemberKind? ==> rank(f.ori.kind.left) < rank(op.lvalue.value)))
  }

  ghost predicate Ranked(ops: Ops, fs: seq<Fields>, rank: Name -> nat)
    requires |fs| == |ops|
  {
    forall i :: 0 <= i < |ops| ==> RankedOp(ops[i], fs[i], rank)
  }

  // ---------------------------------------------------------------------
  // First loop: origins
  // ---------------------------------------------------------------------

  // The assignments among the first n instructions; later ones win.
  function Assigned(ops: Ops, n: nat): (r: map<Name, Operation>)
    requires n <= |ops|
    ensures forall x :: x in r ==> r[x] in ops && r[x].lvalue == Some(x)
  {
    if n == 0 then map[]
    else
      var r := Assigned(ops, n - 1);
      if ops[n - 1].lvalue.Some? then r[ops[n - 1].lvalue.value := ops[n - 1]] else r
  }

  // Instruction i is the last of the first n to define x.
  ghost predicate DefinesLast(ops: Ops, n: nat, x: Name, i: nat)
    requires n <= |ops|
  {
    i < n && ops[i].lvalue == Some(x) && forall j :: i < j < n ==> ops[j].lvalue != Some(x)
  }

  // A name stands for its latest definition so far.
  lemma {:induction false} AssignedIsLatest(ops: Ops, n: nat, x: Name)
    requires n <= |ops|
    ensures x in Assigned(ops, n) <==> exists i :: 0 <= i < n && ops[i].lvalue == Some(x)
    ensures x in Assigned(ops, n) ==> exists i: nat :: DefinesLast(ops, n, x, i) && Assigned(ops, n)[x] == ops[i]
  {
    if n > 0 {
      AssignedIsLatest(ops, n - 1, x);
      if ops[n - 1].lvalue == Some(x) {
        assert DefinesLast(ops, n, x, n - 1);
      } else if x in Assigned(ops, n - 1) {
        var i: nat :| DefinesLast(ops, n - 1, x, i) && Assigned(ops, n - 1)[x] == ops[i];
        assert DefinesLast(ops, n, x, i);
      }
    }
  }

  ghost function Originated(ops: Ops, i: nat, f: Fields): Fields
    requires i < |ops|
  {
    var known := Assigned(ops, i + 1);
    if ops[i].kind.TmpCallKind? && f.calledIsVariable && f.called in known then f.(ori := known[f.called]) else f
  }

  ghost function Originate(ops: Ops, fs: seq<Fields>, n: nat): (r: seq<Fields>)
    requires |fs| == |ops| && n <= |ops|
    ensures |r| == |fs|
  {
    seq(|fs|, i requires 0 <= i < |fs| => if i < n then Originated(ops, i, fs[i]) else fs[i])
  }

  ghost predicate DefinedBefore(ops: Ops, n: nat, x: Name)
    requires n <= |ops|
  {
    exists k: nat :: DefinesLast(ops, n, x, k)
  }

  // A call by variable takes as origin the last definition of its callee up to
  // and including itself; nothing else changes.
  ghost predicate HasOrigin(ops: Ops, i: nat, before: Fields, after: Fields)
    requires i < |ops|
  {
    if ops[i].kind.TmpCallKind? && before.calledIsVariable && DefinedBefore(ops, i + 1, before.called) then
      exists k: nat :: DefinesLast(ops, i + 1, before.called, k) && after == before.(ori := ops[k])
    else after == before
  }

  lemma OriginatedMeans(ops: Ops, i: nat, f: Fields)
    requires i < |ops|
    ensures HasOrigin(ops, i, f, Originated(ops, i, f))
  {
    hide Assigned;
    hide DefinesLast;
    AssignedIsLatest(ops, i + 1, f.called);
    DefinedIsAssigned(ops, i + 1, f.called);
  }

  lemma DefinedIsAssigned(ops: Ops, n: nat, x: Name)
    requires n <= |ops|
    ensures DefinedBefore(ops, n, x) <==> x in Assigned(ops, n)
  {
    hide Assigned;
    AssignedIsLatest(ops, n, x);
    if DefinedBefore(ops, n, x) {
      var k: nat :| DefinesLast(ops, n, x, k);
      assert ops[k].lvalue == Some(x);
    }
  }

  lemma LastIsUnique(ops: Ops, n: nat, x: Name, k: nat, l: nat)
    requires n <= |ops| && DefinesLast(ops, n, x, k) && DefinesLast(ops, n, x, l)
    ensures k == l
  {
  }

  method FindOrigins(ops: Ops)
    requires Distinct(ops)
    modifies ops
    ensures Snapshot(ops) == Originate(ops, old(Snapshot(ops)), |ops|)
    ensures forall i :: 0 <= i < |ops| ==> HasOrigin(ops, i, old(Snapshot(ops))[i], ops[i].Now())
  {
    hide HasOrigin;
    hide Originate;
    hide Originated;
    hide Distinct;
    ghost var fs := Snapshot(ops);
    var assignments: map<Name, Operation> := map[];
    OriginateNone(ops, fs);
    for n := 0 to |ops|
      invariant assignments == Assigned(ops, n)
      invariant Snapshot(ops) == Originate(ops, fs, n)
    {
      var op := ops[n];
      if op.lvalue.Some? {
        assignments := assignments[op.lvalue.value := op];
      }
      assert assignments == Assigned(ops, n + 1);
      OriginateNext(ops, fs, n);
      assert ops[n].Now() == fs[n];
      SetOrigin(ops, n, assignments);
    }
    forall i | 0 <= i < |ops|
      ensures HasOrigin(ops, i, fs[i], ops[i].Now())
    {
      OriginateMeans(ops, fs, i);
      assert Snapshot(ops)[i] == ops[i].Now();
    }
  }

  lemma OriginateMeans(ops: Ops, fs: seq<Fields>, i: nat)
    requires |fs| == |ops| && i < |ops|
    ensures HasOrigin(ops, i, fs[i], Originate(ops, fs, |ops|)[i])
  {
    hide HasOrigin;
    OriginatedMeans(ops, i, fs[i]);
  }

  lemma OriginateNone(ops: Ops, fs: seq<Fields>)
    requires |fs| == |ops|
    ensures Originate(ops, fs, 0) == fs
  {
  }

  lemma OriginateNext(ops: Ops, fs: seq<Fields>, n: nat)
    requires |fs| == |ops| && n < |ops|
    ensures Originate(ops, fs, n)[n] == fs[n]
    ensures Originate(ops, fs, n + 1) == Originate(ops, fs, n)[n := Originated(ops, n, fs[n])]
  {
  }

  method SetOrigin(ops: Ops, n: nat, assignments: map<Name, Operation>)
    requires Distinct(ops) && n < |ops| && assignments == Assigned(ops, n + 1)
    modifies ops[n]
    ensures Snapshot(ops) == old(Snapshot(ops))[n := Originated(ops, n, old(ops[n].Now()))]
  {
    hide Assigned;
    var op := ops[n];
    if op.kind.TmpCallKind? && op.calledIsVariable && op.called in assignments {
      op.ori := assignments[op.called];
    }
    assert op.Now() == Originated(ops, n, old(ops[n].Now()));
  }

  lemma OriginateKeepsRanked(ops: Ops, fs: seq<Fields>, rank: Name -> nat)
    requires |fs| == |ops| && Ranked(ops, fs, rank)
    ensures Ranked(ops, Originate(ops, fs, |ops|), rank)
  {
    forall i | 0 <= i < |ops|
      ensures RankedOp(ops[i], Originated(ops, i, fs[i]), rank)
    {
      var known := Assigned(ops, i + 1);
      assert RankedOp(ops[i], fs[i], rank);
      if fs[i].called in known {
        var k :| 0 <= k < |ops| && ops[k] == known[fs[i].called];
        assert RankedOp(ops[k], fs[k], rank);
      }
    }
  }

  // ---------------------------------------------------------------------
  // Second loop: setters
  // ---------------------------------------------------------------------

  type Replacement = map<Name, Name>

  // What names are to be replaced by, from the setters among the first n.
  ghost function Replacements(ops: Ops, fs: seq<Fields>, n: nat): Replacement
    requires |fs| == |ops| && n <= |ops|
  {
    if n == 0 then map[]
    else
      var m := Replacements(ops, fs, n - 1);
      if Foldable(ops, fs, n - 1) && ops[n - 1].lvalue.Some? then
        m[ops[n - 1].lvalue.value := fs[n - 1].ori.kind.left]
      else m
  }

  ghost function Tagged(setter: Fields, f: Fields): Fields
    requires setter.ori != null && setter.ori.kind.MemberKind?
  {
    f.(argumentType := if setter.ori.kind.right.ValueMember? then ByValue else ByGas, callId := Some(setter.ori.kind.left))
  }

  // The argument before each setter is marked with its kind and its call.
  ghost function Tag(ops: Ops, fs: seq<Fields>, n: nat): (r: seq<Fields>)
    requires |fs| == |ops| && n <= |ops|
    ensures |r| == |fs|
  {
    seq(|fs|, i requires 0 <= i < |fs| => if i + 1 < n && Foldable(ops, fs, i + 1) then Tagged(fs[i + 1], fs[i]) else fs[i])
  }

  method CollectSetters(ops: Ops, ghost rank: Name -> nat) returns (toRemove: Ops, m: Replacement)
    requires Distinct(ops) && Ranked(ops, Snapshot(ops), rank)
    modifies ops
    ensures Snapshot(ops) == Tag(ops, old(Snapshot(ops)), |ops|)
    ensures m == Replacements(ops, old(Snapshot(ops)), |ops|)
    ensures Marks(ops, old(Snapshot(ops)), toRemove, |ops|)
    ensures toRemove != [] <==> exists i :: 0 <= i < |ops| && Foldable(ops, old(Snapshot(ops)), i)
  {
    hide Distinct;
    hide Foldable;
    hide Marks;
    hide Tag;
    hide Replacements;
    hide Ranked;
    hide Tagged;
    ghost var fs := Snapshot(ops);
    toRemove, m := [], map[];
    NothingCollected(ops, fs);
    for n := 0 to |ops|
      invariant Snapshot(ops) == Tag(ops, fs, n)
      invariant m == Replacements(ops, fs, n)
      invariant Marks(ops, fs, toRemove, n)
    {
      TagNext(ops, fs, n);
      assert ops[n].Now() == fs[n];
      FoldableNow(ops, fs, n);
      MarksNext(ops, fs, toRemove, n);
      ReplacementsNext(ops, fs, rank, n);
      if n > 0 && IsSetterNow(ops[n]) && ops[n - 1].kind.ArgumentKind? {
        assert ops[n - 1].Now() == fs[n - 1];
        toRemove := toRemove + [ops[n]];
        m := m[ops[n].lvalue.value := ops[n].ori.kind.left];
        TagArgument(ops, n);
      }
    }
    MarkedAny(ops, fs, toRemove);
  }

  lemma NothingCollected(ops: Ops, fs: seq<Fields>)
    requires |fs| == |ops|
    ensures Tag(ops, fs, 0) == fs && Replacements(ops, fs, 0) == map[] && Marks(ops, fs, [], 0)
  {
  }

  lemma TagNext(ops: Ops, fs: seq<Fields>, n: nat)
    requires |fs| == |ops| && n < |ops|
    ensures Tag(ops, fs, n)[n] == fs[n] && (n > 0 ==> Tag(ops, fs, n)[n - 1] == fs[n - 1])
    ensures Tag(ops, fs, n + 1) ==
            if Foldable(ops, fs, n) then Tag(ops, fs, n)[n - 1 := Tagged(fs[n], fs[n - 1])] else Tag(ops, fs, n)
  {
  }

  lemma ReplacementsNext(ops: Ops, fs: seq<Fields>, rank: Name -> nat, n: nat)
    requires |fs| == |ops| && n < |ops| && Ranked(ops, fs, rank)
    ensures Foldable(ops, fs, n) ==>
              && ops[n].lvalue.Some?
              && Replacements(ops, fs, n + 1) == Replacements(ops, fs, n)[ops[n].lvalue.value := fs[n].ori.kind.left]
    ensures !Foldable(ops, fs, n) ==> Replacements(ops, fs, n + 1) == Replacements(ops, fs, n)
  {
  }

  lemma FoldableNow(ops: Ops, fs: seq<Fields>, n: nat)
    requires |fs| == |ops| && n < |ops| && ops[n].Now() == fs[n]
    ensures Foldable(ops, fs, n) <==> n > 0 && IsSetterNow(ops[n]) && ops[n - 1].kind.ArgumentKind?
  {
  }

  // Among the first n instructions exactly the foldable setters are marked.
  ghost predicate Marks(ops: Ops, fs: seq<Fields>, toRemove: Ops, n: nat)
    requires |fs| == |ops| && n <= |ops|
  {
    && (forall i :: 0 <= i < |ops| ==> (ops[i] in toRemove <==> i < n && Foldable(ops, fs, i)))
    && (forall op :: op in toRemove ==> op in ops)
  }

  lemma MarkedAny(ops: Ops, fs: seq<Fields>, toRemove: Ops)
    requires |fs| == |ops| && Marks(ops, fs, toRemove, |ops|)
    ensures toRemove != [] <==> exists i :: 0 <= i < |ops| && Foldable(ops, fs, i)
  {
    hide Foldable;
    if toRemove != [] {
      assert toRemove[0] in toRemove;
    }
  }

  lemma MarksNext(ops: Ops, fs: seq<Fields>, toRemove: Ops, n: nat)
    requires |fs| == |ops| && n < |ops| && Distinct(ops) && Marks(ops, fs, toRemove, n)
    ensures Marks(ops, fs, if Foldable(ops, fs, n) then toRemove + [ops[n]] else toRemove, n + 1)
  {
    hide Foldable;
  }

  method TagArgument(ops: Ops, n: nat)
    requires Distinct(ops) && 0 < n < |ops| && IsSetterNow(ops[n])
    modifies ops[n - 1]
    ensures Snapshot(ops) == old(Snapshot(ops))[n - 1 := Tagged(old(ops[n].Now()), old(ops[n - 1].Now()))]
  {
    ghost var setter, before := ops[n].Now(), ops[n - 1].Now();
    ops[n - 1].argumentType := if ops[n].ori.kind.right.ValueMember? then ByValue else ByGas;
    ops[n - 1].callId := Some(ops[n].ori.kind.left);
    assert ops[n - 1].Now() == Tagged(setter, before);
  }

  predicate IsSetterNow(op: Operation)
    reads op
  {
    op.kind.TmpCallKind? && op.ori != null && op.ori.kind.MemberKind? && !op.ori.kind.right.OtherMember?
  }

  // ---------------------------------------------------------------------
  // Removal and redirection
  // ---------------------------------------------------------------------

  // The positions among the first n that are not those of setters.
  ghost function KeptAt(ops: Ops, fs: seq<Fields>, n: nat): (r: seq<nat>)
    requires |fs| == |ops| && n <= |ops|
    ensures |r| <= n && Increasing(r, n)
    ensures forall i :: 0 <= i < n ==> (i in r <==> !Foldable(ops, fs, i))
    ensures |r| == n <==> forall i :: 0 <= i < n ==> !Foldable(ops, fs, i)
  {
    if n == 0 then []
    else KeptAt(ops, fs, n - 1) + if Foldable(ops, fs, n - 1) then [] else [n - 1]
  }

  ghost predicate Increasing(r: seq<nat>, n: nat) {
    && (forall i :: 0 <= i < |r| ==> r[i] < n)
    && (forall i, j :: 0 <= i < j < |r| ==> r[i] < r[j])
  }

  ghost function Select(ops: Ops, at: seq<nat>): (r: Ops)
    requires Increasing(at, |ops|)
  {
    seq(|at|, i requires 0 <= i < |at| => ops[at[i]])
  }

  ghost function Kept(ops: Ops, fs: seq<Fields>, n: nat): Ops
    requires |fs| == |ops| && n <= |ops|
  {
    Select(ops, KeptAt(ops, fs, n))
  }

  lemma KeptNone(ops: Ops, fs: seq<Fields>)
    requires |fs| == |ops|
    ensures Kept(ops, fs, 0) == []
  {
  }

  lemma KeptStep(ops: Ops, fs: seq<Fields>, n: nat)
    requires |fs| == |ops| && n < |ops|
    ensures Kept(ops, fs, n + 1) == Kept(ops, fs, n) + if Foldable(ops, fs, n) then [] else [ops[n]]
  {
  }

  method RemoveSetters(ops: Ops, toRemove: Ops, ghost fs: seq<Fields>) returns (kept: Ops)
    requires |fs| == |ops| && Marks(ops, fs, toRemove, |ops|)
    ensures kept == Kept(ops, fs, |ops|)
  {
    hide Kept;
    hide Foldable;
    KeptNone(ops, fs);
    kept := [];
    for n := 0 to |ops|
      invariant kept == Kept(ops, fs, n)
    {
      KeptStep(ops, fs, n);
      if ops[n] !in toRemove {
        kept := kept + [ops[n]];
      }
    }
  }

  ghost predicate Descending(m: Replacement, rank: Name -> nat) {
    forall x :: x in m ==> rank(m[x]) < rank(x)
  }

  // The end of the chain of replacements that starts at x.
  ghost function Resolve(m: Replacement, rank: Name -> nat, x: Name): (r: Name)
    requires Descending(m, rank)
    ensures r !in m && rank(r) <= rank(x)
    decreases rank(x)
  {
    if x in m then Resolve(m, rank, m[x]) else x
  }

  ghost function Redirected(op: Operation, f: Fields, m: Replacement, rank: Name -> nat): Fields
    requires Descending(m, rank)
  {
    if op.kind.TmpCallKind? && f.called in m then
      var r := Resolve(m, rank, f.called);
      f.(called := r, callId := Some(r), calledIsVariable := true)
    else if op.kind.ArgumentKind? && f.callId.Some? && f.callId.value in m then
      f.(callId := Some(Resolve(m, rank, f.callId.value)))
    else f
  }

  // One turn of the last loop, with its two inner `while` loops.
  method RedirectOne(op: Operation, m: Replacement, ghost rank: Name -> nat) returns (changed: bool)
    requires Descending(m, rank)
    modifies op
    ensures op.Now() == Redirected(op, old(op.Now()), m, rank)
    ensures changed ==> m != map[]
  {
    changed := false;
    if op.kind.TmpCallKind? {
      while op.called in m
        invariant Resolve(m, rank, op.called) == Resolve(m, rank, old(op.called))
        invariant op.Now() == if changed then
                                old(op.Now()).(called := op.called, callId := Some(op.called), calledIsVariable := true)
                              else old(op.Now())
        invariant changed ==> old(op.called) in m
        invariant !changed ==> op.called == old(op.called)
        decreases rank(op.called)
      {
        changed := true;
        op.callId := Some(m[op.called]);
        op.called, op.calledIsVariable := m[op.called], true;
      }
    }
    if op.kind.ArgumentKind? {
      while op.callId.Some? && op.callId.value in m
        invariant op.callId.Some? <==> old(op.callId).Some?
        invariant op.callId.Some? ==> Resolve(m, rank, op.callId.value) == Resolve(m, rank, old(op.callId).value)
        invariant op.Now() == old(op.Now()).(callId := op.callId)
        invariant changed ==> old(op.callId).Some? && old(op.callId).value in m
        invariant !changed ==> op.callId == old(op.callId)
        decreases if op.callId.Some? then rank(op.callId.value) else 0
      {
        changed := true;
        op.callId := Some(m[op.callId.value]);
      }
    }
  }

  ghost function RedirectAll(ops: Ops, fs: seq<Fields>, m: Replacement, rank: Name -> nat, n: nat): (r: seq<Fields>)
    requires |fs| == |ops| && n <= |ops| && Descending(m, rank)
    ensures |r| == |fs|
  {
    seq(|fs|, i requires 0 <= i < |fs| => if i < n then Redirected(ops[i], fs[i], m, rank) else fs[i])
  }

  method Redirect(ops: Ops, m: Replacement, ghost rank: Name -> nat) returns (changed: bool)
    requires Distinct(ops) && Descending(m, rank)
    modifies ops
    ensures Snapshot(ops) == RedirectAll(ops, old(Snapshot(ops)), m, rank, |ops|)
    ensures changed ==> m != map[]
  {
    ghost var fs := Snapshot(ops);
    changed := false;
    assert RedirectAll(ops, fs, m, rank, 0) == fs;
    for n := 0 to |ops|
      invariant Snapshot(ops) == RedirectAll(ops, fs, m, rank, n)
      invariant changed ==> m != map[]
    {
      ghost var before := Snapshot(ops);
      assert ops[n].Now() == fs[n];
      var c := RedirectOne(ops[n], m, rank);
      changed := changed || c;
      assert Snapshot(ops) == before[n := Redirected(ops[n], fs[n], m, rank)];
      assert RedirectAll(ops, fs, m, rank, n + 1) == before[n := Redirected(ops[n], fs[n], m, rank)];
    }
  }

  // ---------------------------------------------------------------------
  // A whole pass
  // ---------------------------------------------------------------------

  lemma {:induction false} ReplacementsDescend(ops: Ops, fs: seq<Fields>, rank: Name -> nat, n: nat)
    requires |fs| == |ops| && n <= |ops| && Ranked(ops, fs, rank)
    ensures Descending(Replacements(ops, fs, n), rank)
    ensures forall i :: 0 <= i < n && Foldable(ops, fs, i) ==>
                        ops[i].lvalue.Some? && ops[i].lvalue.value in Replacements(ops, fs, n)
    ensures (forall i :: 0 <= i < n ==> !Foldable(ops, fs, i)) ==> Replacements(ops, fs, n) == map[]
  {
    if n > 0 {
      ReplacementsDescend(ops, fs, rank, n - 1);
      assert RankedOp(ops[n - 1], fs[n - 1], rank);
    }
  }

  // What a pass makes of the fields of one instruction.
  ghost function AfterPass(ops: Ops, fs: seq<Fields>, rank: Name -> nat, i: nat): Fields
    requires |fs| == |ops| && i < |ops| && Ranked(ops, fs, rank)
  {
    var m := Replacements(ops, fs, |ops|);
    ReplacementsDescend(ops, fs, rank, |ops|);
    Redirected(ops[i], Tag(ops, fs, |ops|)[i], m, rank)
  }

  lemma TagKeepsRanked(ops: Ops, fs: seq<Fields>, rank: Name -> nat)
    requires |fs| == |ops| && Ranked(ops, fs, rank)
    ensures Ranked(ops, Tag(ops, fs, |ops|), rank)
  {
    hide RankedOp;
    hide Tag;
    forall i | 0 <= i < |ops|
      ensures RankedOp(ops[i], Tag(ops, fs, |ops|)[i], rank)
    {
      assert RankedOp(ops[i], fs[i], rank);
      TagKeepsRankedAt(ops, fs, rank, i);
    }
  }

  lemma TagKeepsRankedAt(ops: Ops, fs: seq<Fields>, rank: Name -> nat, i: nat)
    requires |fs| == |ops| && i < |ops| && RankedOp(ops[i], fs[i], rank)
    ensures RankedOp(ops[i], Tag(ops, fs, |ops|)[i], rank)
  {
    hide RankedOp;
    if i + 1 < |ops| && Foldable(ops, fs, i + 1) { TaggedRanked(ops[i], fs[i + 1], fs[i], rank); }
  }

  lemma TaggedRanked(op: Operation, setter: Fields, f: Fields, rank: Name -> nat)
    requires setter.ori != null && setter.ori.kind.MemberKind? && RankedOp(op, f, rank)
    ensures RankedOp(op, Tagged(setter, f), rank)
  {
  }

  lemma RedirectedRanked(op: Operation, f: Fields, m: Replacement, rank: Name -> nat)
    requires Descending(m, rank) && RankedOp(op, f, rank)
    ensures RankedOp(op, Redirected(op, f, m, rank), rank)
  {
  }

  // No callee and no call id is left that names a removed setter.
  ghost predicate NamesNone(op: Operation, f: Fields, m: Replacement) {
    && (op.kind.TmpCallKind? ==> f.called !in m)
    && (op.kind.ArgumentKind? && f.callId.Some? ==> f.callId.value !in m)
  }

  lemma RedirectedNamesNone(op: Operation, f: Fields, m: Replacement, rank: Name -> nat)
    requires Descending(m, rank)
    ensures NamesNone(op, Redirected(op, f, m, rank), m)
  {
  }

  // fs are the fields once origins are known.
  method Pass(ops: Ops, ghost rank: Name -> nat) returns (kept: Ops, changed: bool, ghost fs: seq<Fields>)
    requires Distinct(ops) && Ranked(ops, Snapshot(ops), rank)
    modifies ops
    ensures fs == Originate(ops, old(Snapshot(ops)), |ops|) && Ranked(ops, fs, rank)
    ensures kept == Kept(ops, fs, |ops|) && Distinct(kept)
    ensures changed <==> exists i :: 0 <= i < |ops| && Foldable(ops, fs, i)
    ensures forall i :: 0 <= i < |ops| && !Foldable(ops, fs, i) ==> ops[i].Now() == AfterPass(ops, fs, rank, i)
    ensures forall i :: 0 <= i < |ops| && Foldable(ops, fs, i) ==> IsSetterNow(ops[i])
  {
    hide Foldable;
    hide Ranked;
    hide Originate;
    hide Tag;
    hide Replacements;
    hide Kept;
    hide Redirected;
    hide Distinct;
    ghost var before := Snapshot(ops);
    FindOrigins(ops);
    OriginateKeepsRanked(ops, before, rank);
    fs := Snapshot(ops);
    var m, folded;
    ghost var at;
    kept, m, folded, at := FoldSetters(ops, fs, rank);
    var redirected := RedirectKept(ops, kept, at, m, Snapshot(ops), rank);
    changed := folded || redirected;
    KeptAfterPass(ops, fs, rank, at, m);
  }

  // The second loop and the removal: setters go, their arguments are tagged.
  method FoldSetters(ops: Ops, ghost fs: seq<Fields>, ghost rank: Name -> nat)
    returns (kept: Ops, m: Replacement, folded: bool, ghost at: seq<nat>)
    requires fs == Snapshot(ops) && Distinct(ops) && Ranked(ops, fs, rank)
    modifies ops
    ensures Snapshot(ops) == Tag(ops, fs, |ops|)
    ensures m == Replacements(ops, fs, |ops|) && Descending(m, rank)
    ensures kept == Kept(ops, fs, |ops|) && at == KeptAt(ops, fs, |ops|) && kept == Select(ops, at)
    ensures folded <==> exists i :: 0 <= i < |ops| && Foldable(ops, fs, i)
    ensures m != map[] ==> folded
    ensures forall i :: 0 <= i < |ops| && Foldable(ops, fs, i) ==> IsSetterNow(ops[i]) && ops[i] !in kept
  {
    hide Foldable;
    hide Ranked;
    hide Tag;
    hide Replacements;
    hide Kept;
    hide Distinct;
    var toRemove;
    toRemove, m := CollectSetters(ops, rank);
    kept := RemoveSetters(ops, toRemove, fs);
    folded := toRemove != [];
    ReplacementsDescend(ops, fs, rank, |ops|);
    at := KeptAt(ops, fs, |ops|);
    KeptSelects(ops, fs);
    SettersStay(ops, fs);
    forall i | 0 <= i < |ops| && i !in at
      ensures ops[i] !in kept
    {
      LeftOutIsGone(ops, at, i);
    }
  }

  lemma KeptAfterPass(ops: Ops, fs: seq<Fields>, rank: Name -> nat, at: seq<nat>, m: Replacement)
    requires |fs| == |ops| && Ranked(ops, fs, rank) && at == KeptAt(ops, fs, |ops|)
    requires m == Replacements(ops, fs, |ops|) && Descending(m, rank)
    requires forall j :: 0 <= j < |at| ==> ops[at[j]].Now() == Redirected(ops[at[j]], Tag(ops, fs, |ops|)[at[j]], m, rank)
    ensures forall i :: 0 <= i < |ops| && !Foldable(ops, fs, i) ==> ops[i].Now() == AfterPass(ops, fs, rank, i)
  {
    hide Foldable;
    hide Ranked;
    hide Tag;
    hide Replacements;
    hide Redirected;
    forall i | 0 <= i < |ops| && !Foldable(ops, fs, i)
      ensures ops[i].Now() == AfterPass(ops, fs, rank, i)
    {
      assert i in at;
      var j :| 0 <= j < |at| && at[j] == i;
    }
  }

  lemma SettersStay(ops: Ops, fs: seq<Fields>)
    requires |fs| == |ops| && Snapshot(ops) == Tag(ops, fs, |ops|)
    ensures forall i :: 0 <= i < |ops| && Foldable(ops, fs, i) ==> IsSetterNow(ops[i])
  {
    forall i | 0 <= i < |ops| && Foldable(ops, fs, i)
      ensures IsSetterNow(ops[i])
    {
      assert Tag(ops, fs, |ops|)[i] == fs[i];
      assert ops[i].Now() == fs[i];
    }
  }

  lemma LeftOutIsGone(ops: Ops, at: seq<nat>, i: nat)
    requires Distinct(ops) && Increasing(at, |ops|) && i < |ops| && i !in at
    ensures ops[i] !in Select(ops, at)
  {
  }

  lemma KeptSelects(ops: Ops, fs: seq<Fields>)
    requires |fs| == |ops|
    ensures Kept(ops, fs, |ops|) == Select(ops, KeptAt(ops, fs, |ops|))
  {
  }

  method RedirectKept(ghost ops: Ops, kept: Ops, ghost at: seq<nat>, m: Replacement, ghost fs: seq<Fields>,
                      ghost rank: Name -> nat)
    returns (changed: bool)
    requires fs == Snapshot(ops) && Distinct(ops) && Increasing(at, |ops|) && kept == Select(ops, at) && Descending(m, rank)
    modifies kept
    ensures Distinct(kept)
    ensures forall j :: 0 <= j < |at| ==> ops[at[j]].Now() == Redirected(ops[at[j]], fs[at[j]], m, rank)
    ensures changed ==> m != map[]
  {
    hide Redirected;
    assert forall j :: 0 <= j < |at| ==> kept[j] == ops[at[j]];
    changed := Redirect(kept, m, rank);
    assert forall j :: 0 <= j < |at| ==> Snapshot(kept)[j] == kept[j].Now();
  }

  // An instruction that neither precedes a removed setter nor names one keeps
  // all its fields.
  lemma OthersUntouched(ops: Ops, fs: seq<Fields>, rank: Name -> nat, i: nat)
    requires |fs| == |ops| && Ranked(ops, fs, rank) && i < |ops|
    requires i + 1 < |ops| ==> !Foldable(ops, fs, i + 1)
    requires forall j :: 0 <= j < |ops| && Foldable(ops, fs, j) && ops[j].lvalue.Some? ==>
               && (ops[i].kind.TmpCallKind? ==> fs[i].called != ops[j].lvalue.value)
               && (ops[i].kind.ArgumentKind? ==> fs[i].callId != ops[j].lvalue)
    ensures AfterPass(ops, fs, rank, i) == fs[i]
  {
    hide Ranked;
    hide Replacements;
    hide Foldable;
    ReplacementsDescend(ops, fs, rank, |ops|);
    var m := Replacements(ops, fs, |ops|);
    if fs[i].called in m { ReplacementsMean(ops, fs, |ops|, fs[i].called); }
    if fs[i].callId.Some? && fs[i].callId.value in m { ReplacementsMean(ops, fs, |ops|, fs[i].callId.value); }
  }

  // After a pass no survivor names a setter that the pass removed.
  lemma SurvivorsNameNoSetter(ops: Ops, fs: seq<Fields>, rank: Name -> nat, i: nat, removed: nat)
    requires |fs| == |ops| && Ranked(ops, fs, rank) && i < |ops| && removed < |ops| && Foldable(ops, fs, removed)
    ensures ops[removed].lvalue.Some?
    ensures var f, name := AfterPass(ops, fs, rank, i), ops[removed].lvalue.value;
            && (ops[i].kind.TmpCallKind? ==> f.called != name)
            && (ops[i].kind.ArgumentKind? ==> f.callId != Some(name))
  {
    ReplacementsDescend(ops, fs, rank, |ops|);
    RedirectedNamesNone(ops[i], Tag(ops, fs, |ops|)[i], Replacements(ops, fs, |ops|), rank);
  }

  ghost predicate Names(op: Operation, f: Fields, gone: set<Name>) {
    || (op.kind.TmpCallKind? && f.called in gone)
    || (op.kind.ArgumentKind? && f.callId.Some? && f.callId.value in gone)
  }

  // A setter to be folded is a member of something whose name is gone.
  ghost predicate RefersBack(ops: Ops, fs: seq<Fields>, gone: set<Name>)
    requires |fs| == |ops|
  {
    exists j :: 0 <= j < |ops| && Foldable(ops, fs, j) && fs[j].ori.kind.left in gone
  }

  ghost predicate SurvivorNames(ops: Ops, fs: seq<Fields>, rank: Name -> nat, gone: set<Name>)
    requires |fs| == |ops| && Ranked(ops, fs, rank)
  {
    exists i :: 0 <= i < |ops| && !Foldable(ops, fs, i) && Names(ops[i], AfterPass(ops, fs, rank, i), gone)
  }

  // Let `gone` be names that earlier passes removed, named by no instruction.
  // A pass makes some survivor name one of them again if and only if it folds
  // a setter that refers back to one.
  lemma NameReturnsIffReferred(ops: Ops, fs: seq<Fields>, rank: Name -> nat, gone: set<Name>)
    requires |fs| == |ops| && Ranked(ops, fs, rank)
    requires forall i :: 0 <= i < |ops| ==> !Names(ops[i], fs[i], gone)
    requires forall i :: 0 <= i < |ops| && ops[i].lvalue.Some? ==> ops[i].lvalue.value !in gone
    ensures SurvivorNames(ops, fs, rank, gone) <==> RefersBack(ops, fs, gone)
  {
    hide Ranked;
    hide Replacements;
    hide AfterPass;
    if RefersBack(ops, fs, gone) {
      var j :| 0 <= j < |ops| && Foldable(ops, fs, j) && fs[j].ori.kind.left in gone;
      ArgumentTakesName(ops, fs, rank, gone, j);
      assert !Foldable(ops, fs, j - 1) && Names(ops[j - 1], AfterPass(ops, fs, rank, j - 1), gone);
    } else {
      forall i | 0 <= i < |ops|
        ensures !Names(ops[i], AfterPass(ops, fs, rank, i), gone)
      {
        StaysUnnamed(ops, fs, rank, gone, i);
      }
    }
  }

  lemma {:induction false} ReplacementsMean(ops: Ops, fs: seq<Fields>, n: nat, x: Name)
    requires |fs| == |ops| && n <= |ops| && x in Replacements(ops, fs, n)
    ensures exists i :: 0 <= i < n && Foldable(ops, fs, i) && ops[i].lvalue == Some(x)
                        && fs[i].ori.kind.left == Replacements(ops, fs, n)[x]
  {
    if !(Foldable(ops, fs, n - 1) && ops[n - 1].lvalue == Some(x)) {
      ReplacementsMean(ops, fs, n - 1, x);
    }
  }

  lemma {:induction false} ResolvesInto(m: Replacement, rank: Name -> nat, x: Name)
    requires Descending(m, rank)
    ensures Resolve(m, rank, x) == x || exists y :: y in m && m[y] == Resolve(m, rank, x)
    decreases rank(x)
  {
    if x in m { ResolvesInto(m, rank, m[x]); }
  }

  lemma ArgumentTakesName(ops: Ops, fs: seq<Fields>, rank: Name -> nat, gone: set<Name>, j: nat)
    requires |fs| == |ops| && Ranked(ops, fs, rank) && j < |ops| && Foldable(ops, fs, j)
    requires forall i :: 0 <= i < |ops| && ops[i].lvalue.Some? ==> ops[i].lvalue.value !in gone
    requires fs[j].ori.kind.left in gone
    ensures Names(ops[j - 1], AfterPass(ops, fs, rank, j - 1), gone)
  {
    hide Ranked;
    hide Replacements;
    ReplacementsDescend(ops, fs, rank, |ops|);
    var m, left := Replacements(ops, fs, |ops|), fs[j].ori.kind.left;
    assert Tag(ops, fs, |ops|)[j - 1] == Tagged(fs[j], fs[j - 1]);
    if left in m { ReplacementsMean(ops, fs, |ops|, left); }
  }

  lemma StaysUnnamed(ops: Ops, fs: seq<Fields>, rank: Name -> nat, gone: set<Name>, i: nat)
    requires |fs| == |ops| && Ranked(ops, fs, rank) && i < |ops|
    requires !Names(ops[i], fs[i], gone) && !RefersBack(ops, fs, gone)
    ensures !Names(ops[i], AfterPass(ops, fs, rank, i), gone)
  {
    hide Ranked;
    hide Replacements;
    hide Resolve;
    ReplacementsDescend(ops, fs, rank, |ops|);
    var m, f := Replacements(ops, fs, |ops|), Tag(ops, fs, |ops|)[i];
    forall x | x in m
      ensures m[x] !in gone
    {
      ReplacementsMean(ops, fs, |ops|, x);
    }
    ResolvesInto(m, rank, f.called);
    if f.callId.Some? { ResolvesInto(m, rank, f.callId.value); }
  }

  // Two calls whose second has no argument of its own, with the names 0..6:
  //   1 = 0.value  A  2 = 1(A)  3 = 2.gas  4 = 0.value  B  5 = 4(B)  6 = 3()
  // Every name is defined before it is used.
  ghost predicate TwoRounds(ops: Ops, fs: seq<Fields>) {
    && |ops| == 8 && |fs| == 8
    && ops[0].kind == MemberKind(0, ValueMember) && ops[0].lvalue == Some(1)
    && ops[1].kind.ArgumentKind? && ops[1].lvalue.None?
    && ops[2].kind.TmpCallKind? && ops[2].lvalue == Some(2) && fs[2].called == 1 && fs[2].ori == ops[0]
    && ops[3].kind == MemberKind(2, GasMember) && ops[3].lvalue == Some(3)
    && ops[4].kind == MemberKind(0, ValueMember) && ops[4].lvalue == Some(4)
    && ops[5].kind.ArgumentKind? && ops[5].lvalue.None?
    && ops[6].kind.TmpCallKind? && ops[6].lvalue == Some(5) && fs[6].called == 4 && fs[6].ori == ops[4]
    && ops[7].kind.TmpCallKind? && ops[7].lvalue == Some(6) && fs[7].called == 3 && fs[7].ori == ops[3]
  }

  const BY_NUMBER: Name -> nat := (x: Name) => if x < 0 then 0 else x

  lemma TwoRoundsReplace(ops: Ops, fs: seq<Fields>)
    requires TwoRounds(ops, fs)
    ensures Ranked(ops, fs, BY_NUMBER) && Replacements(ops, fs, 8) == map[2 := 0, 5 := 0]
    ensures forall i :: 0 <= i < 8 ==> (Foldable(ops, fs, i) <==> i == 2 || i == 6)
  {
    assert Replacements(ops, fs, 0) == map[];
    assert Replacements(ops, fs, 1) == map[];
    assert Replacements(ops, fs, 2) == map[];
    assert Replacements(ops, fs, 3) == map[2 := 0];
    assert Replacements(ops, fs, 4) == map[2 := 0];
    assert Replacements(ops, fs, 5) == map[2 := 0];
    assert Replacements(ops, fs, 6) == map[2 := 0];
    assert Replacements(ops, fs, 7) == map[2 := 0][5 := 0];
  }

  // The guarantee of one pass does not carry over to later ones.  The first
  // pass removes 2 and 5; then 6 follows B, and the second pass makes B name 2.
  lemma RemovedNameReturns(ops: Ops, fs: seq<Fields>)
    requires TwoRounds(ops, fs)
    ensures Ranked(ops, fs, BY_NUMBER) && Foldable(ops, fs, 2) && ops[2].lvalue == Some(2)
    ensures var kept := [ops[0], ops[1], ops[3], ops[4], ops[5], ops[7]];
            var after := AfterFirst(ops, fs);
            && Kept(ops, fs, 8) == kept && Ranked(kept, after, BY_NUMBER)
            && Foldable(kept, after, 5) && AfterPass(kept, after, BY_NUMBER, 4).callId == Some(2)
            && RefersBack(kept, after, {2, 5})
  {
    TwoRoundsReplace(ops, fs);
    var kept, after := [ops[0], ops[1], ops[3], ops[4], ops[5], ops[7]], AfterFirst(ops, fs);
    KeptOfTwoRounds(ops, fs);
    forall j | 0 <= j < 6
      ensures RankedOp(kept[j], after[j], BY_NUMBER)
    {
      AfterPassRanked(ops, fs, BY_NUMBER, [0, 1, 3, 4, 5, 7][j]);
    }
    assert after[5] == fs[7] by { assert Tag(ops, fs, 8)[7] == fs[7]; }
    SecondRound(kept, after);
  }

  ghost function AfterFirst(ops: Ops, fs: seq<Fields>): (r: seq<Fields>)
    requires TwoRounds(ops, fs)
    ensures |r| == 6
  {
    TwoRoundsReplace(ops, fs);
    seq(6, j requires 0 <= j < 6 => AfterPass(ops, fs, BY_NUMBER, [0, 1, 3, 4, 5, 7][j]))
  }

  lemma KeptOfTwoRounds(ops: Ops, fs: seq<Fields>)
    requires TwoRounds(ops, fs)
    ensures Kept(ops, fs, 8) == [ops[0], ops[1], ops[3], ops[4], ops[5], ops[7]]
  {
    hide *;
    TwoRoundsReplace(ops, fs);
    TwoRoundsLength(ops, fs);
    KeptNone(ops, fs);
    KeptNext(ops, fs, 0, true);
    KeptNext(ops, fs, 1, true);
    KeptNext(ops, fs, 2, false);
    KeptNext(ops, fs, 3, true);
    KeptNext(ops, fs, 4, true);
    KeptNext(ops, fs, 5, true);
    KeptNext(ops, fs, 6, false);
    KeptNext(ops, fs, 7, true);
  }

  lemma KeptNext(ops: Ops, fs: seq<Fields>, n: nat, keep: bool)
    requires |fs| == |ops| && n < |ops| && (keep <==> !Foldable(ops, fs, n))
    ensures Kept(ops, fs, n + 1) == if keep then Kept(ops, fs, n) + [ops[n]] else Kept(ops, fs, n)
  {
    KeptStep(ops, fs, n);
  }

  lemma TwoRoundsLength(ops: Ops, fs: seq<Fields>)
    requires TwoRounds(ops, fs)
    ensures |ops| == 8 && |fs| == 8
  {
  }

  lemma SecondRound(ops: Ops, fs: seq<Fields>)
    requires |ops| == 6 && |fs| == 6 && Ranked(ops, fs, BY_NUMBER)
    requires forall i :: 0 <= i < 5 ==> !ops[i].kind.TmpCallKind?
    requires ops[4].kind.ArgumentKind?
    requires ops[5].kind.TmpCallKind? && ops[5].lvalue == Some(6)
    requires fs[5].ori != null && fs[5].ori.kind == MemberKind(2, GasMember)
    ensures Foldable(ops, fs, 5) && AfterPass(ops, fs, BY_NUMBER, 4).callId == Some(2)
  {
    assert Replacements(ops, fs, 0) == map[];
    assert Replacements(ops, fs, 1) == map[];
    assert Replacements(ops, fs, 2) == map[];
    assert Replacements(ops, fs, 3) == map[];
    assert Replacements(ops, fs, 4) == map[];
    assert Replacements(ops, fs, 5) == map[];
    assert Replacements(ops, fs, 6) == map[6 := 2];
    assert Tag(ops, fs, 6)[4].callId == Some(2);
  }

  ghost predicate DistinctResults(ops: Ops, fs: seq<Fields>)
    requires |fs| == |ops|
  {
    forall i, j :: 0 <= i < j < |ops| && Foldable(ops, fs, i) && Foldable(ops, fs, j) ==> ops[i].lvalue != ops[j].lvalue
  }

  lemma {:induction false} ReplacementOf(ops: Ops, fs: seq<Fields>, rank: Name -> nat, i: nat, n: nat)
    requires |fs| == |ops| && Ranked(ops, fs, rank) && i < n <= |ops| && Foldable(ops, fs, i) && DistinctResults(ops, fs)
    ensures ops[i].lvalue.Some? && ops[i].lvalue.value in Replacements(ops, fs, n)
    ensures Replacements(ops, fs, n)[ops[i].lvalue.value] == fs[i].ori.kind.left
  {
    assert RankedOp(ops[i], fs[i], rank);
    if i < n - 1 {
      ReplacementOf(ops, fs, rank, i, n - 1);
      if Foldable(ops, fs, n - 1) { assert ops[i].lvalue != ops[n - 1].lvalue; }
    }
  }

  // What folding is for: the argument of a setter and a call of that setter's
  // result end up with the same call id, the call's new callee.
  lemma ArgumentMeetsItsCall(ops: Ops, fs: seq<Fields>, rank: Name -> nat, i: nat, j: nat)
    requires |fs| == |ops| && Ranked(ops, fs, rank) && DistinctResults(ops, fs)
    requires i < |ops| && j < |ops| && Foldable(ops, fs, i)
    requires ops[j].kind.TmpCallKind? && ops[i].lvalue == Some(fs[j].called)
    ensures var argument, call := AfterPass(ops, fs, rank, i - 1), AfterPass(ops, fs, rank, j);
            && call.callId == Some(call.called) && argument.callId == call.callId
            && argument.argumentType == if fs[i].ori.kind.right.ValueMember? then ByValue else ByGas
  {
    ReplacementOf(ops, fs, rank, i, |ops|);
    ReplacementsDescend(ops, fs, rank, |ops|);
    var m := Replacements(ops, fs, |ops|);
    var name, left := ops[i].lvalue.value, fs[i].ori.kind.left;
    assert Resolve(m, rank, name) == Resolve(m, rank, left);
    assert Tag(ops, fs, |ops|)[i - 1] == Tagged(fs[i], fs[i - 1]);
    assert !(j + 1 < |ops| && Foldable(ops, fs, j + 1));
  }

  // ---------------------------------------------------------------------
  // The fixpoint
  // ---------------------------------------------------------------------

  lemma {:induction false} KeptEverything(ops: Ops, fs: seq<Fields>, n: nat)
    requires |fs| == |ops| && n <= |ops| && forall i :: 0 <= i < n ==> !Foldable(ops, fs, i)
    ensures Kept(ops, fs, n) == ops[..n]
  {
    if n > 0 {
      KeptEverything(ops, fs, n - 1);
      KeptStep(ops, fs, n - 1);
      assert ops[..n] == ops[..n - 1] + [ops[n - 1]];
    } else {
      KeptNone(ops, fs);
    }
  }

  lemma NothingChanges(ops: Ops, fs: seq<Fields>, rank: Name -> nat, i: nat)
    requires |fs| == |ops| && Ranked(ops, fs, rank) && i < |ops| && forall j :: 0 <= j < |ops| ==> !Foldable(ops, fs, j)
    ensures AfterPass(ops, fs, rank, i) == fs[i]
  {
    ReplacementsDescend(ops, fs, rank, |ops|);
  }

  lemma AfterPassRanked(ops: Ops, fs: seq<Fields>, rank: Name -> nat, i: nat)
    requires |fs| == |ops| && Ranked(ops, fs, rank) && i < |ops|
    ensures RankedOp(ops[i], AfterPass(ops, fs, rank, i), rank)
  {
    TagKeepsRanked(ops, fs, rank);
    ReplacementsDescend(ops, fs, rank, |ops|);
    RedirectedRanked(ops[i], Tag(ops, fs, |ops|)[i], Replacements(ops, fs, |ops|), rank);
  }

  ghost predicate Stable(ops: Ops, fs: seq<Fields>)
    requires |fs| == |ops|
  {
    forall i :: 0 <= i < |ops| ==> !Foldable(ops, fs, i)
  }

  // No call directly after an argument has a callee that was last defined as a
  // `value` or `gas` member.
  ghost predicate NoneLeft(ops: Ops, fs: seq<Fields>)
    requires |fs| == |ops|
  {
    forall i, k: nat :: 0 < i < |ops| && ops[i - 1].kind.ArgumentKind? && ops[i].kind.TmpCallKind?
                        && fs[i].calledIsVariable && DefinesLast(ops, i + 1, fs[i].called, k) ==>
                        !(ops[k].kind.MemberKind? && ops[k].kind.right in {ValueMember, GasMember})
  }

  lemma StableLeavesNone(ops: Ops, before: seq<Fields>)
    requires |before| == |ops| && Stable(ops, Originate(ops, before, |ops|))
    ensures NoneLeft(ops, Originate(ops, before, |ops|))
  {
    hide Originated;
    var fs := Originate(ops, before, |ops|);
    forall i, k: nat | 0 < i < |ops| && ops[i - 1].kind.ArgumentKind? && ops[i].kind.TmpCallKind?
                       && fs[i].calledIsVariable && DefinesLast(ops, i + 1, fs[i].called, k)
      ensures !(ops[k].kind.MemberKind? && ops[k].kind.right in {ValueMember, GasMember})
    {
      OriginateMeans(ops, before, i);
      assert DefinedBefore(ops, i + 1, fs[i].called);
      var l: nat :| DefinesLast(ops, i + 1, before[i].called, l) && fs[i] == before[i].(ori := ops[l]);
      LastIsUnique(ops, i + 1, fs[i].called, k, l);
      assert !Foldable(ops, fs, i);
    }
  }

  // ---------------------------------------------------------------------
  // All passes together
  // ---------------------------------------------------------------------

  // The fields of what a pass keeps.
  ghost function Survivors(ops: Ops, fs: seq<Fields>, rank: Name -> nat): (r: seq<Fields>)
    requires |fs| == |ops| && Ranked(ops, fs, rank)
    ensures |r| == |Kept(ops, fs, |ops|)|
  {
    var at := KeptAt(ops, fs, |ops|);
    seq(|at|, j requires 0 <= j < |at| => AfterPass(ops, fs, rank, at[j]))
  }

  lemma SurvivorsRanked(ops: Ops, fs: seq<Fields>, rank: Name -> nat)
    requires |fs| == |ops| && Ranked(ops, fs, rank)
    ensures Ranked(Kept(ops, fs, |ops|), Survivors(ops, fs, rank), rank)
  {
    hide AfterPass;
    hide RankedOp;
    var at := KeptAt(ops, fs, |ops|);
    forall j | 0 <= j < |at|
      ensures RankedOp(ops[at[j]], AfterPass(ops, fs, rank, at[j]), rank)
    {
      AfterPassRanked(ops, fs, rank, at[j]);
    }
  }

  // Instructions and fields at the end: passes are repeated as long as some
  // setter directly follows an argument.
  ghost function FoldAll(ops: Ops, fs: seq<Fields>, rank: Name -> nat): (r: (Ops, seq<Fields>))
    requires |fs| == |ops| && Ranked(ops, fs, rank)
    ensures |r.0| == |r.1|
    decreases |ops|
  {
    var known := Originate(ops, fs, |ops|);
    OriginateKeepsRanked(ops, fs, rank);
    if Stable(ops, known) then (ops, known)
    else
      SurvivorsRanked(ops, known, rank);
      FoldAll(Kept(ops, known, |ops|), Survivors(ops, known, rank), rank)
  }

  // What f.value(A)(B), or f.gas(A)(B), looks like when folding starts:
  //   r = f.value  A  t = r(A)  B  u = t(B)
  ghost predicate OptionCall(ops: Ops, fs: seq<Fields>, rank: Name -> nat, f: Name, r: Name, t: Name, u: Name) {
    && |ops| == 5 && |fs| == 5 && rank(f) < rank(r) < rank(t) < rank(u)
    && ops[0].kind.MemberKind? && ops[0].kind.left == f && !ops[0].kind.right.OtherMember? && ops[0].lvalue == Some(r)
    && ops[1].kind.ArgumentKind? && ops[1].lvalue.None?
    && ops[2].kind.TmpCallKind? && ops[2].lvalue == Some(t)
    && fs[2] == Fields(fs[2].argumentType, fs[2].callId, r, true, null)
    && ops[3].kind.ArgumentKind? && ops[3].lvalue.None? && fs[3].callId.None?
    && ops[4].kind.TmpCallKind? && ops[4].lvalue == Some(u)
    && fs[4] == Fields(fs[4].argumentType, fs[4].callId, t, true, null)
  }

  // The call of the member is gone, A is the value (or gas) of the call of f,
  // and B its argument.
  lemma OptionCallFolds(ops: Ops, fs: seq<Fields>, rank: Name -> nat, f: Name, r: Name, t: Name, u: Name)
    requires OptionCall(ops, fs, rank, f, r, t, u)
    ensures Ranked(ops, fs, rank)
    ensures var out := FoldAll(ops, fs, rank);
            && out.0 == [ops[0], ops[1], ops[3], ops[4]]
            && out.1[1] == fs[1].(argumentType := if ops[0].kind.right.ValueMember? then ByValue else ByGas, callId := Some(f))
            && out.1[2] == fs[3]
            && out.1[3] == fs[4].(called := f, callId := Some(f), ori := ops[2])
  {
    OptionCallOrigins(ops, fs, rank, f, r, t, u);
    var known := Originate(ops, fs, 5);
    assert KnownOptionCall(ops, known, rank, f, r, t, u);
    OptionCallPass(ops, known, rank, f, r, t, u);
    assert Foldable(ops, known, 2);
    FoldOnce(ops, fs, rank);
    OptionCallDone(Kept(ops, known, 5), Survivors(ops, known, rank), rank, f, r, t, u);
  }

  lemma OptionCallOrigins(ops: Ops, fs: seq<Fields>, rank: Name -> nat, f: Name, r: Name, t: Name, u: Name)
    requires OptionCall(ops, fs, rank, f, r, t, u)
    ensures Ranked(ops, fs, rank)
    ensures Originate(ops, fs, 5) == [fs[0], fs[1], fs[2].(ori := ops[0]), fs[3], fs[4].(ori := ops[2])]
  {
    hide Originate;
    var known := Originate(ops, fs, 5);
    assert DefinesLast(ops, 3, r, 0) && DefinesLast(ops, 5, t, 2);
    assert DefinedBefore(ops, 3, r) && DefinedBefore(ops, 5, t);
    forall i | 0 <= i < 5
      ensures HasOrigin(ops, i, fs[i], known[i])
    {
      OriginateMeans(ops, fs, i);
    }
    var k: nat :| DefinesLast(ops, 3, r, k) && known[2] == fs[2].(ori := ops[k]);
    LastIsUnique(ops, 3, r, k, 0);
    var l: nat :| DefinesLast(ops, 5, t, l) && known[4] == fs[4].(ori := ops[l]);
    LastIsUnique(ops, 5, t, l, 2);
  }

  // The same once origins are known.
  ghost predicate KnownOptionCall(ops: Ops, known: seq<Fields>, rank: Name -> nat, f: Name, r: Name, t: Name, u: Name) {
    && |ops| == 5 && |known| == 5 && known[2].ori == ops[0] && known[4].ori == ops[2]
    && OptionCall(ops, [known[0], known[1], known[2].(ori := null), known[3], known[4].(ori := null)], rank, f, r, t, u)
  }

  lemma OptionCallPass(ops: Ops, known: seq<Fields>, rank: Name -> nat, f: Name, r: Name, t: Name, u: Name)
    requires KnownOptionCall(ops, known, rank, f, r, t, u)
    ensures |ops| == 5 && |known| == 5 && Ranked(ops, known, rank)
    ensures forall i :: 0 <= i < 5 ==> (Foldable(ops, known, i) <==> i == 2)
    ensures Kept(ops, known, 5) == [ops[0], ops[1], ops[3], ops[4]]
    ensures Survivors(ops, known, rank) ==
            [known[0],
             known[1].(argumentType := if ops[0].kind.right.ValueMember? then ByValue else ByGas, callId := Some(f)),
             known[3],
             known[4].(called := f, callId := Some(f))]
  {
    hide KnownOptionCall;
    hide AfterPass;
    OptionCallReplaces(ops, known, rank, f, r, t, u);
    KeptOfOptionCall(ops, known);
    OptionCallAfter(ops, known, rank, f, r, t, u);
  }

  lemma OptionCallReplaces(ops: Ops, known: seq<Fields>, rank: Name -> nat, f: Name, r: Name, t: Name, u: Name)
    requires KnownOptionCall(ops, known, rank, f, r, t, u)
    ensures |ops| == 5 && |known| == 5 && Ranked(ops, known, rank)
    ensures forall i :: 0 <= i < 5 ==> (Foldable(ops, known, i) <==> i == 2)
    ensures Replacements(ops, known, 5) == map[t := f]
  {
    assert Replacements(ops, known, 0) == map[];
    assert Replacements(ops, known, 1) == map[];
    assert Replacements(ops, known, 2) == map[];
    assert Replacements(ops, known, 3) == map[t := f];
    assert Replacements(ops, known, 4) == map[t := f];
  }

  lemma OptionCallAfter(ops: Ops, known: seq<Fields>, rank: Name -> nat, f: Name, r: Name, t: Name, u: Name)
    requires KnownOptionCall(ops, known, rank, f, r, t, u) && |ops| == 5 && |known| == 5 && Ranked(ops, known, rank)
    ensures AfterPass(ops, known, rank, 0) == known[0] && AfterPass(ops, known, rank, 3) == known[3]
    ensures AfterPass(ops, known, rank, 1) ==
            known[1].(argumentType := if ops[0].kind.right.ValueMember? then ByValue else ByGas, callId := Some(f))
    ensures AfterPass(ops, known, rank, 4) == known[4].(called := f, callId := Some(f))
  {
    hide Replacements;
    hide Ranked;
    hide Foldable;
    hide Resolve;
    OptionCallReplaces(ops, known, rank, f, r, t, u);
    ReplacementsDescend(ops, known, rank, 5);
    ResolveOne(rank, t, f);
  }

  lemma ResolveOne(rank: Name -> nat, t: Name, f: Name)
    requires rank(f) < rank(t)
    ensures Descending(map[t := f], rank) && Resolve(map[t := f], rank, t) == f
  {
    assert Resolve(map[t := f], rank, f) == f;
  }

  lemma KeptOfOptionCall(ops: Ops, fs: seq<Fields>)
    requires |ops| == 5 && |fs| == 5 && forall i :: 0 <= i < 5 ==> (Foldable(ops, fs, i) <==> i == 2)
    ensures Kept(ops, fs, 5) == [ops[0], ops[1], ops[3], ops[4]] && KeptAt(ops, fs, 5) == [0, 1, 3, 4]
  {
    hide *;
    KeptAtNext(ops, fs, 0, true);
    KeptAtNext(ops, fs, 1, true);
    KeptAtNext(ops, fs, 2, false);
    KeptAtNext(ops, fs, 3, true);
    KeptAtNext(ops, fs, 4, true);
    KeptAtFour(ops, fs);
  }

  lemma KeptAtNext(ops: Ops, fs: seq<Fields>, n: nat, keep: bool)
    requires |fs| == |ops| && n < |ops| && (keep <==> !Foldable(ops, fs, n))
    ensures KeptAt(ops, fs, n + 1) == if keep then KeptAt(ops, fs, n) + [n] else KeptAt(ops, fs, n)
    ensures KeptAt(ops, fs, 0) == []
  {
  }

  lemma KeptAtFour(ops: Ops, fs: seq<Fields>)
    requires |ops| == 5 && |fs| == 5 && KeptAt(ops, fs, 5) == [0, 1, 3, 4]
    ensures Kept(ops, fs, 5) == [ops[0], ops[1], ops[3], ops[4]]
  {
  }

  // The second turn finds nothing: f is defined outside the list.
  lemma OptionCallDone(ops: Ops, fs: seq<Fields>, rank: Name -> nat, f: Name, r: Name, t: Name, u: Name)
    requires |ops| == 4 && |fs| == 4 && Ranked(ops, fs, rank) && f != r && f != u
    requires ops[0].kind.MemberKind? && ops[0].lvalue == Some(r)
    requires ops[1].kind.ArgumentKind? && ops[1].lvalue.None? && ops[2].kind.ArgumentKind? && ops[2].lvalue.None?
    requires ops[3].kind.TmpCallKind? && ops[3].lvalue == Some(u)
    requires fs[3].called == f && fs[3].ori != null && fs[3].ori.kind.TmpCallKind?
    ensures FoldAll(ops, fs, rank) == (ops, fs)
  {
    var known := Originate(ops, fs, 4);
    forall i | 0 <= i < 4
      ensures known[i] == fs[i]
    {
      OriginateMeans(ops, fs, i);
    }
    assert known == fs;
    FoldDone(ops, fs, rank);
  }

  // One turn of the outer loop: what is kept, and when it is the last turn.
  method Turn(ops: Ops, ghost rank: Name -> nat) returns (kept: Ops, changed: bool, ghost at: seq<nat>)
    requires Distinct(ops) && Ranked(ops, Snapshot(ops), rank)
    modifies ops
    ensures LeavesOutSetters(ops, at) && kept == Select(ops, at) && Distinct(kept)
    ensures Ranked(kept, Snapshot(kept), rank)
    ensures changed ==> |kept| < |ops|
    ensures changed ==> FoldAll(ops, old(Snapshot(ops)), rank) == FoldAll(kept, Snapshot(kept), rank)
    ensures !changed ==> kept == ops && Stable(kept, Snapshot(kept)) && NoneLeft(kept, Snapshot(kept))
    ensures !changed ==> FoldAll(ops, old(Snapshot(ops)), rank) == (kept, Snapshot(kept))
  {
    hide Ranked;
    hide Originate;
    hide Tag;
    hide Replacements;
    hide Redirected;
    hide Distinct;
    hide FoldAll;
    hide NoneLeft;
    hide AfterPass;
    ghost var before, fs := Snapshot(ops), [];
    kept, changed, fs := Pass(ops, rank);
    at := KeptAt(ops, fs, |ops|);
    assert kept == Select(ops, at);
    KeptRanked(ops, fs, rank, kept, at);
    if changed {
      KeptAre(ops, fs, rank);
      FoldOnce(ops, before, rank);
    } else {
      KeptEverything(ops, fs, |ops|);
      assert ops[..|ops|] == ops;
      forall i | 0 <= i < |ops|
        ensures Snapshot(kept)[i] == fs[i]
      {
        NothingChanges(ops, fs, rank, i);
      }
      assert Snapshot(kept) == fs;
      StableLeavesNone(ops, before);
      FoldDone(ops, before, rank);
    }
  }

  lemma KeptAre(ops: Ops, fs: seq<Fields>, rank: Name -> nat)
    requires |fs| == |ops| && Ranked(ops, fs, rank)
    requires forall i :: 0 <= i < |ops| && !Foldable(ops, fs, i) ==> ops[i].Now() == AfterPass(ops, fs, rank, i)
    ensures Snapshot(Kept(ops, fs, |ops|)) == Survivors(ops, fs, rank)
  {
    hide AfterPass;
    hide Foldable;
    hide Ranked;
    var at := KeptAt(ops, fs, |ops|);
    forall j | 0 <= j < |at|
      ensures ops[at[j]].Now() == AfterPass(ops, fs, rank, at[j])
    {
      assert at[j] in at;
    }
  }

  lemma FoldOnce(ops: Ops, fs: seq<Fields>, rank: Name -> nat)
    requires |fs| == |ops| && Ranked(ops, fs, rank)
    requires exists i :: 0 <= i < |ops| && Foldable(ops, Originate(ops, fs, |ops|), i)
    ensures var known := Originate(ops, fs, |ops|);
            && Ranked(ops, known, rank)
            && Ranked(Kept(ops, known, |ops|), Survivors(ops, known, rank), rank)
            && FoldAll(ops, fs, rank) == FoldAll(Kept(ops, known, |ops|), Survivors(ops, known, rank), rank)
  {
    hide Ranked;
    hide Foldable;
    hide Survivors;
    hide Kept;
    hide Originate;
    OriginateKeepsRanked(ops, fs, rank);
    SurvivorsRanked(ops, Originate(ops, fs, |ops|), rank);
  }

  lemma FoldDone(ops: Ops, fs: seq<Fields>, rank: Name -> nat)
    requires |fs| == |ops| && Ranked(ops, fs, rank) && Stable(ops, Originate(ops, fs, |ops|))
    ensures FoldAll(ops, fs, rank) == (ops, Originate(ops, fs, |ops|))
  {
    hide Ranked;
    hide Stable;
    hide Originate;
    OriginateKeepsRanked(ops, fs, rank);
  }

  lemma KeptRanked(ops: Ops, fs: seq<Fields>, rank: Name -> nat, kept: Ops, at: seq<nat>)
    requires |fs| == |ops| && Ranked(ops, fs, rank)
    requires at == KeptAt(ops, fs, |ops|) && kept == Select(ops, at)
    requires forall i :: 0 <= i < |ops| && !Foldable(ops, fs, i) ==> ops[i].Now() == AfterPass(ops, fs, rank, i)
    ensures Ranked(kept, Snapshot(kept), rank)
  {
    forall j | 0 <= j < |kept|
      ensures RankedOp(kept[j], kept[j].Now(), rank)
    {
      assert at[j] in at;
      AfterPassRanked(ops, fs, rank, at[j]);
    }
  }

  // `at` leaves out nothing but setters.
  ghost predicate LeavesOutSetters(ops: Ops, at: seq<nat>)
    reads ops
  {
    Increasing(at, |ops|) && forall i :: 0 <= i < |ops| && i !in at ==> IsSetterNow(ops[i])
  }

  lemma SelectTwice(ops: Ops, at: seq<nat>, at2: seq<nat>) returns (both: seq<nat>)
    requires LeavesOutSetters(ops, at) && LeavesOutSetters(Select(ops, at), at2)
    ensures LeavesOutSetters(ops, both) && Select(ops, both) == Select(Select(ops, at), at2)
  {
    both := seq(|at2|, j requires 0 <= j < |at2| => at[at2[j]]);
    forall i | 0 <= i < |ops| && i !in both
      ensures IsSetterNow(ops[i])
    {
      if i in at {
        var j :| 0 <= j < |at| && at[j] == i;
        forall k | 0 <= k < |at2|
          ensures at2[k] != j
        {
          assert both[k] in both;
        }
        assert Select(ops, at)[j] == ops[i];
      }
    }
  }

  // An instruction left out is a call whose origin is a `value` or `gas` member.
  ghost predicate LacksOnlySetters(ops: Ops, at: seq<nat>)
    reads ops
  {
    forall i :: 0 <= i < |ops| && i !in at ==>
      && ops[i].kind.TmpCallKind? && ops[i].ori != null
      && ops[i].ori.kind.MemberKind? && ops[i].ori.kind.right in {ValueMember, GasMember}
  }

  lemma SettersLackOnly(ops: Ops, at: seq<nat>)
    requires LeavesOutSetters(ops, at)
    ensures LacksOnlySetters(ops, at)
  {
  }

  // Ends because every turn but the last removes an instruction.  The result is
  // the original list in order without some setters, its fields are those that
  // the repeated passes give, and no setter in it directly follows an argument.
  method IntegrateValueGas(result: Ops, ghost rank: Name -> nat) returns (final: Ops, ghost at: seq<nat>)
    requires Distinct(result) && Ranked(result, Snapshot(result), rank)
    modifies result
    ensures Increasing(at, |result|) && LacksOnlySetters(result, at) && final == Select(result, at)
    ensures NoneLeft(final, Snapshot(final))
    ensures FoldAll(result, old(Snapshot(result)), rank) == (final, Snapshot(final))
  {
    hide Ranked;
    hide Distinct;
    hide Stable;
    hide LeavesOutSetters;
    hide NoneLeft;
    hide FoldAll;
    final := result;
    at := seq(|result|, i => i);
    var wasChanged := true;
    KeepsAll(result, at);
    while wasChanged
      invariant LeavesOutSetters(result, at) && Increasing(at, |result|) && final == Select(result, at)
      invariant Distinct(result) && Distinct(final) && Ranked(final, Snapshot(final), rank)
      invariant wasChanged ==> FoldAll(result, old(Snapshot(result)), rank) == FoldAll(final, Snapshot(final), rank)
      invariant !wasChanged ==> FoldAll(result, old(Snapshot(result)), rank) == (final, Snapshot(final))
      invariant !wasChanged ==> NoneLeft(final, Snapshot(final))
      decreases |final|, wasChanged
    {
      ghost var at2;
      RemovedAreApart(result, at);
      final, wasChanged, at2 := Turn(final, rank);
      StillLeftOut(result, at);
      at := SelectTwice(result, at, at2);
    }
    SettersLackOnly(result, at);
  }

  lemma RemovedAreApart(ops: Ops, at: seq<nat>)
    requires Distinct(ops) && LeavesOutSetters(ops, at)
    ensures forall i :: 0 <= i < |ops| && i !in at ==> IsSetterNow(ops[i]) && ops[i] !in Select(ops, at)
  {
    forall i | 0 <= i < |ops| && i !in at
      ensures ops[i] !in Select(ops, at)
    {
      LeftOutIsGone(ops, at, i);
    }
  }

  lemma StillLeftOut(ops: Ops, at: seq<nat>)
    requires Increasing(at, |ops|) && forall i :: 0 <= i < |ops| && i !in at ==> IsSetterNow(ops[i])
    ensures LeavesOutSetters(ops, at)
  {
  }

  lemma KeepsAll(ops: Ops, at: seq<nat>)
    requires |at| == |ops| && forall i :: 0 <= i < |ops| ==> at[i] == i
    ensures LeavesOutSetters(ops, at)
  {
    forall i | 0 <= i < |ops|
      ensures i in at
    {
      assert at[i] in at;
    }
  }
}
