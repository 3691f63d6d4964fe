// Turning temporary calls into real ones while deleting and inserting in place
// (slither/slithir/convert.py, propagate_type_and_convert_call).
//
// What a temporary call becomes and what type propagation makes of an
// instruction are parameters: `extract` and `propagate`.
module CallSplice {
  import opened Options
  import NamedArguments

  type Variable = NamedArguments.Variable
  type Name = NamedArguments.Name
  type CallId = int

  datatype ArgumentKind = ByCall | ByValue | ByGas

  // LibraryCall is a HighLevelCall; OtherCall stands for the classes of call
  // that cannot have named arguments, such as Send or SolidityCall.
  datatype CallClass =
    | HighLevelCall
    | LibraryCall
    | InternalCall
    | InternalDynamicCall
    | NewContract
    | NewStructure
    | EventCall
    | OtherCall

  predicate TakesValue(c: CallClass) { c.NewContract? || TakesGas(c) }

  predicate TakesGas(c: CallClass) { c.HighLevelCall? || c.LibraryCall? || c.InternalDynamicCall? }

  datatype Ins =
    | TmpCall(op: int)
    | Argument(kind: ArgumentKind, callId: CallId, argument: Variable)
    | TmpNew(op: int)
    | TypeConversion(op: int, variable: Variable)
    | Call(op: int, callClass: CallClass, callId: CallId, names: Option<seq<Name>>, declared: Option<seq<seq<Name>>>,
           arguments: seq<Variable>, callValue: Option<Variable>, callGas: Option<Variable>)
    | Plain(op: int)

  // What type propagation returns: nothing, one instruction, or a list (an
  // empty list counts as nothing).
  datatype Rewrite = Keep | One(ins: Ins) | Many(list: seq<Ins>)

  // calls_value, calls_gas and call_data
  datatype Pending = Pending(value: map<CallId, Variable>, gas: map<CallId, Variable>, data: seq<Variable>)

  predicate IsTemporary(ins: Ins) { ins.Argument? || ins.TmpNew? }

  // list.remove: the first occurrence goes.
  function RemoveFirst(s: seq<Variable>, v: Variable): (r: seq<Variable>)
    ensures v !in s ==> r == s
    ensures |r| <= |s|
  {
    if |s| == 0 then s else if s[0] == v then s[1..] else [s[0]] + RemoveFirst(s[1..], v)
  }

  ghost predicate IsFirstAt(s: seq<Variable>, v: Variable, k: nat) {
    k < |s| && s[k] == v && forall i :: 0 <= i < k ==> s[i] != v
  }

  lemma {:induction false} FirstIsRemoved(s: seq<Variable>, v: Variable, k: nat)
    requires IsFirstAt(s, v, k)
    ensures RemoveFirst(s, v) == s[..k] + s[k + 1..]
  {
    if k > 0 {
      assert IsFirstAt(s[1..], v, k - 1);
      FirstIsRemoved(s[1..], v, k - 1);
      assert s[..k] == [s[0]] + s[1..][..k - 1] && s[1..][k..] == s[k + 1..];
    }
  }

  lemma {:induction false} FirstExists(s: seq<Variable>, v: Variable) returns (k: nat)
    requires v in s
    ensures IsFirstAt(s, v, k)
  {
    if s[0] == v {
      k := 0;
    } else {
      var j := FirstExists(s[1..], v);
      k := j + 1;
    }
  }

  lemma RemovedOnce(s: seq<Variable>, v: Variable)
    requires v in s
    ensures multiset(s) == multiset(RemoveFirst(s, v)) + multiset{v}
  {
    var k := FirstExists(s, v);
    FirstIsRemoved(s, v, k);
    assert s == s[..k] + [v] + s[k + 1..];
  }

  // p lists positions in increasing order, all below n.
  ghost predicate Positions(p: seq<nat>, n: nat) {
    && (forall i :: 0 <= i < |p| ==> p[i] < n)
    && (forall i, j :: 0 <= i < j < |p| ==> p[i] < p[j])
  }

  ghost predicate PicksAt(a: seq<Variable>, b: seq<Variable>, p: seq<nat>) {
    |p| == |a| && Positions(p, |b|) && forall i :: 0 <= i < |a| ==> a[i] == b[p[i]]
  }

  // a is what remains of b, in order, when some elements are left out.
  ghost predicate InOrderWithin(a: seq<Variable>, b: seq<Variable>) {
    exists p :: PicksAt(a, b, p)
  }

  lemma WithinSelf(a: seq<Variable>)
    ensures InOrderWithin(a, a)
  {
    assert PicksAt(a, a, seq(|a|, i => i));
  }

  lemma WithinAppend(a: seq<Variable>, b: seq<Variable>, c: seq<Variable>)
    requires InOrderWithin(a, b)
    ensures InOrderWithin(a + c, b + c)
  {
    var p :| PicksAt(a, b, p);
    assert PicksAt(a + c, b + c, p + seq(|c|, i => |b| + i));
  }

  lemma WithinTrans(a: seq<Variable>, b: seq<Variable>, c: seq<Variable>)
    requires InOrderWithin(a, b) && InOrderWithin(b, c)
    ensures InOrderWithin(a, c)
  {
    var p :| PicksAt(a, b, p);
    var q :| PicksAt(b, c, q);
    assert PicksAt(a, c, seq(|a|, i requires 0 <= i < |a| => q[p[i]]));
  }

  lemma {:induction false} RemovedWithin(s: seq<Variable>, v: Variable)
    ensures InOrderWithin(RemoveFirst(s, v), s)
  {
    hide InOrderWithin;
    if |s| == 0 {
      WithinSelf(s);
    } else if s[0] == v {
      WithinTail(s);
    } else {
      RemovedWithin(s[1..], v);
      WithinCons(s[0], RemoveFirst(s[1..], v), s[1..]);
      assert s == [s[0]] + s[1..];
    }
  }

  lemma WithinTail(s: seq<Variable>)
    requires |s| > 0
    ensures InOrderWithin(s[1..], s)
  {
    assert PicksAt(s[1..], s, seq(|s| - 1, i => i + 1));
  }

  lemma WithinCons(x: Variable, a: seq<Variable>, b: seq<Variable>)
    requires InOrderWithin(a, b)
    ensures InOrderWithin([x] + a, [x] + b)
  {
    var p :| PicksAt(a, b, p);
    assert PicksAt([x] + a, [x] + b, [0] + seq(|p|, i requires 0 <= i < |p| => p[i] + 1));
  }

  // ---------------------------------------------------------------------
  // One instruction
  // ---------------------------------------------------------------------

  function Extracted(extract: Ins -> Option<Ins>, ins: Ins): Ins {
    if ins.TmpCall? && extract(ins).Some? then extract(ins).value else ins
  }

  // The assertions on a call with named arguments: its class, and those of
  // reorder_arguments where that is called.
  predicate Acceptable(ins: Ins, p: Pending) {
    ins.Call? && ins.names.Some? ==>
      && !ins.callClass.OtherCall?
      && (ins.declared.Some? ==> NamedArguments.SameLengths(p.data, ins.names.value, ins.declared.value))
  }

  function Collect(ins: Ins, p: Pending): Pending {
    match ins
    case TypeConversion(_, v) => p.(data := RemoveFirst(p.data, v))
    case Argument(ByGas, id, a) => p.(gas := p.gas[id := a])
    case Argument(ByValue, id, a) => p.(value := p.value[id := a])
    case Argument(ByCall, _, a) => p.(data := p.data + [a])
    case Call(_, _, _, _, _, _, _, _) => p.(data := [])
    case _ => p
  }

  // What a call receives from the queue.
  function Delivered(ins: Ins, p: Pending): seq<Variable>
    requires ins.Call? && Acceptable(ins, p)
  {
    if ins.names.Some? && ins.declared.Some? then
      NamedArguments.Reordered(p.data, ins.names.value, ins.declared.value)
    else p.data
  }

  function Completed(ins: Ins, p: Pending): Ins
    requires Acceptable(ins, p)
  {
    if !ins.Call? then ins
    else
      ins.(arguments := ins.arguments + Delivered(ins, p),
           callValue := if TakesValue(ins.callClass) && ins.callId in p.value then Some(p.value[ins.callId])
                        else ins.callValue,
           callGas := if TakesGas(ins.callClass) && ins.callId in p.gas then Some(p.gas[ins.callId])
                      else ins.callGas)
  }

  function Emitted(propagate: Ins -> Rewrite, ins: Ins): seq<Ins> {
    if IsTemporary(ins) then []
    else
      match propagate(ins)
      case Keep => [ins]
      case One(new_) => [new_]
      case Many(list) => if list == [] then [ins] else list
  }

  // ---------------------------------------------------------------------
  // The specification: one pass over the original list
  // ---------------------------------------------------------------------

  // What is pending before the n-th instruction.
  ghost function PendingAt(extract: Ins -> Option<Ins>, list: seq<Ins>, n: nat): Pending
    requires n <= |list|
  {
    if n == 0 then Pending(map[], map[], [])
    else Collect(Extracted(extract, list[n - 1]), PendingAt(extract, list, n - 1))
  }

  ghost predicate AcceptableUpTo(extract: Ins -> Option<Ins>, list: seq<Ins>, n: nat)
    requires n <= |list|
  {
    forall i :: 0 <= i < n ==> Acceptable(Extracted(extract, list[i]), PendingAt(extract, list, i))
  }

  ghost function FlatMap(extract: Ins -> Option<Ins>, propagate: Ins -> Rewrite, list: seq<Ins>, n: nat): seq<Ins>
    requires n <= |list| && AcceptableUpTo(extract, list, n)
  {
    if n == 0 then []
    else
      FlatMap(extract, propagate, list, n - 1) +
      Emitted(propagate, Completed(Extracted(extract, list[n - 1]), PendingAt(extract, list, n - 1)))
  }

  // ---------------------------------------------------------------------
  // The loop
  // ---------------------------------------------------------------------

  class InsList {
    var items: seq<Ins>

    method Delete(idx: nat)
      requires idx < |items|
      modifies this
      ensures items == old(items)[..idx] + old(items)[idx + 1..]
    {
      items := items[..idx] + items[idx + 1..];
    }

    method Insert(idx: nat, ins: Ins)
      requires idx <= |items|
      modifies this
      ensures items == old(items)[..idx] + [ins] + old(items)[idx..]
    {
      items := items[..idx] + [ins] + items[idx..];
    }
  }

  // False where an assertion of the source fails.
  method PropagateTypeAndConvertCall(extract: Ins -> Option<Ins>, propagate: Ins -> Rewrite, result: InsList)
    returns (ok: bool)
    modifies result
    ensures var list := old(result.items);
            && (ok <==> AcceptableUpTo(extract, list, |list|))
            && (ok ==> result.items == FlatMap(extract, propagate, list, |list|))
  {
    hide AcceptableUpTo;
    hide FlatMap;
    hide PendingAt;
    hide Emitted;
    hide Completed;
    hide Collect;
    hide Acceptable;
    hide Extracted;
    ghost var list := result.items;
    var pending := Pending(map[], map[], []);
    var idx := 0;
    ghost var n := 0;
    PassStarts(extract, propagate, list);
    while idx < |result.items|
      invariant 0 <= n <= |list| && 0 <= idx <= |result.items|
      invariant |result.items| - idx == |list| - n
      invariant AcceptableUpTo(extract, list, n) && pending == PendingAt(extract, list, n)
      invariant result.items[..idx] == FlatMap(extract, propagate, list, n)
      invariant result.items[idx..] == list[n..]
      decreases |result.items| - idx
    {
      ghost var before, i := result.items, idx;
      assert before[i] == before[i..][0] == list[n];
      assert before[i + 1..] == before[i..][1..] == list[n + 1..];
      PassAdvances(extract, propagate, list, n);
      var accepted;
      accepted, pending, idx := Step(extract, propagate, result, pending, idx);
      if !accepted {
        return false;
      }
      n := n + 1;
    }
    assert result.items[..idx] == result.items;
    return true;
  }

  lemma PassStarts(extract: Ins -> Option<Ins>, propagate: Ins -> Rewrite, list: seq<Ins>)
    ensures AcceptableUpTo(extract, list, 0) && PendingAt(extract, list, 0) == Pending(map[], map[], [])
    ensures FlatMap(extract, propagate, list, 0) == []
  {
  }

  lemma PassAdvances(extract: Ins -> Option<Ins>, propagate: Ins -> Rewrite, list: seq<Ins>, n: nat)
    requires n < |list| && AcceptableUpTo(extract, list, n)
    ensures var ins, p := Extracted(extract, list[n]), PendingAt(extract, list, n);
            && (AcceptableUpTo(extract, list, n + 1) <==> Acceptable(ins, p))
            && (AcceptableUpTo(extract, list, |list|) ==> Acceptable(ins, p))
            && PendingAt(extract, list, n + 1) == Collect(ins, p)
            && (Acceptable(ins, p) ==>
                  FlatMap(extract, propagate, list, n + 1) ==
                  FlatMap(extract, propagate, list, n) + Emitted(propagate, Completed(ins, p)))
  {
  }

  // One iteration.  The list shrinks by one beyond idx, whatever is inserted.
  method Step(extract: Ins -> Option<Ins>, propagate: Ins -> Rewrite, result: InsList, pending: Pending, idx: nat)
    returns (ok: bool, pending': Pending, idx': nat)
    requires idx < |result.items|
    modifies result
    ensures var ins := Extracted(extract, old(result.items)[idx]);
            && (ok <==> Acceptable(ins, pending))
            && (ok ==>
                  && pending' == Collect(ins, pending)
                  && idx' == idx + |Emitted(propagate, Completed(ins, pending))|
                  && result.items == old(result.items)[..idx] + Emitted(propagate, Completed(ins, pending))
                                     + old(result.items)[idx + 1..])
  {
    hide Collect;
    hide Completed;
    hide Acceptable;
    hide Emitted;
    var ins := result.items[idx];
    if ins.TmpCall? {
      var newIns := extract(ins);
      if newIns.Some? {
        ins := newIns.value;
        result.items := result.items[idx := ins];
      }
    }
    ok, pending', ins := Receive(ins, pending);
    idx' := idx;
    if ok {
      result.items := result.items[idx := ins];
      idx' := Place(propagate, result, idx);
    }
  }

  // Deletes a temporary, or puts in place what type propagation returns.
  method Place(propagate: Ins -> Rewrite, result: InsList, idx: nat) returns (idx': nat)
    requires idx < |result.items|
    modifies result
    ensures var emitted := Emitted(propagate, old(result.items)[idx]);
            && idx' == idx + |emitted|
            && result.items == old(result.items)[..idx] + emitted + old(result.items)[idx + 1..]
  {
    var ins := result.items[idx];
    if IsTemporary(ins) {
      result.Delete(idx);
      return idx;
    }
    idx' := idx;
    match propagate(ins) {
      case Keep =>
      case One(new_) =>
        result.items := result.items[idx := new_];
      case Many(list) =>
        if list != [] {
          result.Delete(idx);
          InsertAll(result, idx, list);
          idx' := idx + |list| - 1;
        }
    }
    idx' := idx' + 1;
  }

  // for i, ins in enumerate(new_ins): result.insert(idx + i, ins)
  method InsertAll(result: InsList, idx: nat, list: seq<Ins>)
    requires idx <= |result.items|
    modifies result
    ensures result.items == old(result.items)[..idx] + list + old(result.items)[idx..]
  {
    for i := 0 to |list|
      invariant result.items == old(result.items)[..idx] + list[..i] + old(result.items)[idx..]
    {
      result.Insert(idx + i, list[i]);
    }
    assert list[..|list|] == list;
  }

  // Updates what is pending and completes a call.
  method Receive(ins: Ins, pending: Pending) returns (ok: bool, pending': Pending, ins': Ins)
    ensures ok <==> Acceptable(ins, pending)
    ensures ok ==> pending' == Collect(ins, pending) && ins' == Completed(ins, pending)
  {
    ok, pending', ins' := true, pending, ins;
    if ins.TypeConversion? && ins.variable in pending.data {
      pending' := pending'.(data := RemoveFirst(pending.data, ins.variable));
    }
    if ins.Argument? {
      match ins.kind {
        case ByGas => pending' := pending'.(gas := pending'.gas[ins.callId := ins.argument]);
        case ByValue => pending' := pending'.(value := pending'.value[ins.callId := ins.argument]);
        case ByCall => pending' := pending'.(data := pending'.data + [ins.argument]);
      }
    }
    if ins.Call? {
      if TakesValue(ins.callClass) && ins.callId in pending.value {
        ins' := ins'.(callValue := Some(pending.value[ins.callId]));
      }
      if TakesGas(ins.callClass) && ins.callId in pending.gas {
        ins' := ins'.(callGas := Some(pending.gas[ins.callId]));
      }
      var callData := pending.data;
      if ins.names.Some? && ins.callClass.OtherCall? {
        ok := false;
        return;
      }
      if ins.names.Some? && ins.declared.Some? {
        if !NamedArguments.SameLengths(callData, ins.names.value, ins.declared.value) {
          ok := false;
          return;
        }
        callData := NamedArguments.ReorderArguments(callData, ins.names.value, ins.declared.value);
      }
      ins' := ins'.(arguments := ins.arguments + callData);
      pending' := pending'.(data := []);
    }
  }

  // ---------------------------------------------------------------------
  // One instruction, case by case
  // ---------------------------------------------------------------------

  // A temporary call gives way to what it is converted to, if anything.
  lemma ExtractedMeans(extract: Ins -> Option<Ins>, ins: Ins)
    ensures Extracted(extract, ins) == if ins.TmpCall? && extract(ins).Some? then extract(ins).value else ins
  {
  }

  // A call with named arguments is refused for its class, or when the queue,
  // the names and the declarations differ in length.
  lemma AcceptableMeans(ins: Ins, p: Pending)
    ensures Acceptable(ins, p) <==>
            !ins.Call? || ins.names.None? ||
            (&& !ins.callClass.OtherCall?
             && (ins.declared.Some? ==>
                   && |p.data| == |ins.names.value|
                   && forall i :: 0 <= i < |ins.declared.value| ==> |ins.declared.value[i]| == |ins.names.value|))
  {
  }

  // What is pending after each kind of instruction.
  lemma CollectMeans(ins: Ins, p: Pending)
    ensures ins.Argument? && ins.kind.ByValue? ==> Collect(ins, p) == p.(value := p.value[ins.callId := ins.argument])
    ensures ins.Argument? && ins.kind.ByGas? ==> Collect(ins, p) == p.(gas := p.gas[ins.callId := ins.argument])
    ensures ins.Argument? && ins.kind.ByCall? ==> Collect(ins, p) == p.(data := p.data + [ins.argument])
    ensures ins.TypeConversion? && ins.variable in p.data ==>
              exists k: nat :: IsFirstAt(p.data, ins.variable, k)
                               && Collect(ins, p) == p.(data := p.data[..k] + p.data[k + 1..])
    ensures ins.Call? ==> Collect(ins, p) == p.(data := [])
    ensures !ins.Argument? && !ins.Call? && !(ins.TypeConversion? && ins.variable in p.data) ==> Collect(ins, p) == p
  {
    if ins.TypeConversion? && ins.variable in p.data {
      var k := FirstExists(p.data, ins.variable);
      FirstIsRemoved(p.data, ins.variable, k);
      assert Collect(ins, p) == p.(data := p.data[..k] + p.data[k + 1..]);
    }
  }

  // The instructions that a list becomes, position by position: arguments and
  // temporary creations disappear, everything else (a call with its arguments)
  // becomes what type propagation returns for it, or stays.
  lemma BlockMeans(extract: Ins -> Option<Ins>, propagate: Ins -> Rewrite, list: seq<Ins>, n: nat)
    requires n < |list| && AcceptableUpTo(extract, list, n + 1)
    ensures var ins := if list[n].TmpCall? && extract(list[n]).Some? then extract(list[n]).value else list[n];
            var done := Completed(ins, PendingAt(extract, list, n));
            var before, after := FlatMap(extract, propagate, list, n), FlatMap(extract, propagate, list, n + 1);
            && (!ins.Call? ==> done == ins)
            && (ins.Argument? || ins.TmpNew? ==> after == before)
            && (!ins.Argument? && !ins.TmpNew? ==>
                  match propagate(done)
                  case Keep => after == before + [done]
                  case One(x) => after == before + [x]
                  case Many(xs) => after == if |xs| == 0 then before + [done] else before + xs)
  {
    var ins := Extracted(extract, list[n]);
    assert Acceptable(ins, PendingAt(extract, list, n));
    assert FlatMap(extract, propagate, list, n + 1) ==
      FlatMap(extract, propagate, list, n) + Emitted(propagate, Completed(ins, PendingAt(extract, list, n)));
    var before := FlatMap(extract, propagate, list, n);
    assert before + [] == before;
  }

  // ---------------------------------------------------------------------
  // Which arguments a call receives
  // ---------------------------------------------------------------------

  // What one instruction puts into the queue, takes out of it by conversion,
  // and takes as a call.
  function Added(ins: Ins): seq<Variable> {
    if ins.Argument? && ins.kind.ByCall? then [ins.argument] else []
  }

  function Converted(ins: Ins, p: Pending): seq<Variable> {
    if ins.TypeConversion? && ins.variable in p.data then [ins.variable] else []
  }

  function TakenBy(ins: Ins, p: Pending): seq<Variable> {
    if ins.Call? then p.data else []
  }

  lemma QueueBalance(ins: Ins, p: Pending)
    ensures multiset(p.data) + multiset(Added(ins)) ==
            multiset(Collect(ins, p).data) + multiset(Converted(ins, p)) + multiset(TakenBy(ins, p))
    ensures !ins.Call? ==>
              multiset(p.data) + multiset(Added(ins)) == multiset(Collect(ins, p).data) + multiset(Converted(ins, p))
    ensures !ins.Call? && Converted(ins, p) == [] ==> Collect(ins, p).data == p.data + Added(ins)
  {
    hide RemoveFirst;
    if ins.TypeConversion? && ins.variable in p.data { RemovedOnce(p.data, ins.variable); }
  }

  // The CALL arguments at positions from..n, in order.
  ghost function CallArguments(extract: Ins -> Option<Ins>, list: seq<Ins>, from: nat, n: nat): seq<Variable>
    requires from <= n <= |list|
  {
    if n == from then [] else CallArguments(extract, list, from, n - 1) + Added(Extracted(extract, list[n - 1]))
  }

  // Those of them that a type conversion takes out of the queue.
  ghost function Consumed(extract: Ins -> Option<Ins>, list: seq<Ins>, from: nat, n: nat): seq<Variable>
    requires from <= n <= |list|
  {
    if n == from then []
    else
      Consumed(extract, list, from, n - 1) +
      Converted(Extracted(extract, list[n - 1]), PendingAt(extract, list, n - 1))
  }

  lemma ArgumentsMean(extract: Ins -> Option<Ins>, list: seq<Ins>, from: nat, n: nat)
    requires from <= n < |list|
    ensures var ins := Extracted(extract, list[n]);
            var given, used := CallArguments(extract, list, from, n), Consumed(extract, list, from, n);
            && CallArguments(extract, list, from, n + 1) ==
               (if ins.Argument? && ins.kind.ByCall? then given + [ins.argument] else given)
            && Consumed(extract, list, from, n + 1) ==
               (if ins.TypeConversion? && ins.variable in PendingAt(extract, list, n).data then used + [ins.variable] else used)
  {
  }

  // All that the calls took out of the queue, in order.
  ghost function Taken(extract: Ins -> Option<Ins>, list: seq<Ins>, n: nat): seq<Variable>
    requires n <= |list|
  {
    if n == 0 then []
    else Taken(extract, list, n - 1) + TakenBy(Extracted(extract, list[n - 1]), PendingAt(extract, list, n - 1))
  }

  ghost predicate NoCall(extract: Ins -> Option<Ins>, list: seq<Ins>, from: nat, n: nat)
    requires from <= n <= |list|
  {
    forall i :: from <= i < n ==> !Extracted(extract, list[i]).Call?
  }

  // A call at position n, with the previous call just before `from`, finds in
  // the queue exactly the CALL arguments in between, less those consumed by
  // type conversions, in the order in which they came.
  lemma QueueSincePreviousCall(extract: Ins -> Option<Ins>, list: seq<Ins>, from: nat, n: nat)
    requires from <= n <= |list| && NoCall(extract, list, from, n)
    requires from == 0 || Extracted(extract, list[from - 1]).Call?
    ensures var queue, given := PendingAt(extract, list, n).data, CallArguments(extract, list, from, n);
            && InOrderWithin(queue, given)
            && multiset(given) == multiset(queue) + multiset(Consumed(extract, list, from, n))
  {
    QueueContents(extract, list, from, n);
    QueueOrder(extract, list, from, n);
  }

  lemma {:induction false} QueueContents(extract: Ins -> Option<Ins>, list: seq<Ins>, from: nat, n: nat)
    requires from <= n <= |list| && NoCall(extract, list, from, n)
    requires from == 0 || Extracted(extract, list[from - 1]).Call?
    ensures multiset(CallArguments(extract, list, from, n)) ==
            multiset(PendingAt(extract, list, n).data) + multiset(Consumed(extract, list, from, n))
    decreases n
  {
    hide Extracted;
    hide Collect;
    hide Added;
    hide Converted;
    hide PendingAt;
    hide CallArguments;
    hide Consumed;
    if n > from {
      var ins, p := Extracted(extract, list[n - 1]), PendingAt(extract, list, n - 1);
      var a, c := CallArguments(extract, list, from, n - 1), Consumed(extract, list, from, n - 1);
      QueueContents(extract, list, from, n - 1);
      QueueBalance(ins, p);
      BooksBalance(a, [], p.data, c, Added(ins), [], Collect(ins, p).data, Converted(ins, p));
      QueueUnfolds(extract, list, from, n);
    } else {
      QueueStarts(extract, list, from);
    }
  }

  lemma QueueStarts(extract: Ins -> Option<Ins>, list: seq<Ins>, from: nat)
    requires from <= |list| && (from == 0 || Extracted(extract, list[from - 1]).Call?)
    ensures PendingAt(extract, list, from).data == []
    ensures CallArguments(extract, list, from, from) == [] && Consumed(extract, list, from, from) == []
  {
    if from > 0 { CallEmptiesQueue(Extracted(extract, list[from - 1]), PendingAt(extract, list, from - 1)); }
  }

  lemma QueueUnfolds(extract: Ins -> Option<Ins>, list: seq<Ins>, from: nat, n: nat)
    requires from < n <= |list|
    ensures var ins, p := Extracted(extract, list[n - 1]), PendingAt(extract, list, n - 1);
            && PendingAt(extract, list, n) == Collect(ins, p)
            && CallArguments(extract, list, from, n) == CallArguments(extract, list, from, n - 1) + Added(ins)
            && Consumed(extract, list, from, n) == Consumed(extract, list, from, n - 1) + Converted(ins, p)
  {
  }

  lemma {:induction false} QueueOrder(extract: Ins -> Option<Ins>, list: seq<Ins>, from: nat, n: nat)
    requires from <= n <= |list| && NoCall(extract, list, from, n)
    requires from == 0 || Extracted(extract, list[from - 1]).Call?
    ensures InOrderWithin(PendingAt(extract, list, n).data, CallArguments(extract, list, from, n))
    decreases n
  {
    hide Extracted;
    hide Collect;
    hide Added;
    hide InOrderWithin;
    if n > from {
      var ins, p := Extracted(extract, list[n - 1]), PendingAt(extract, list, n - 1);
      var given := CallArguments(extract, list, from, n - 1);
      QueueOrder(extract, list, from, n - 1);
      WithinAppend(p.data, given, Added(ins));
      CollectKeepsOrder(ins, p);
      WithinTrans(Collect(ins, p).data, p.data + Added(ins), given + Added(ins));
      QueueUnfolds(extract, list, from, n);
    } else {
      QueueStarts(extract, list, from);
      WithinSelf([]);
    }
  }

  lemma CollectKeepsOrder(ins: Ins, p: Pending)
    requires !ins.Call?
    ensures InOrderWithin(Collect(ins, p).data, p.data + Added(ins))
  {
    hide InOrderWithin;
    assert p.data + [] == p.data;
    if ins.TypeConversion? {
      RemovedWithin(p.data, ins.variable);
    } else {
      WithinSelf(p.data + Added(ins));
    }
  }

  lemma CallEmptiesQueue(ins: Ins, p: Pending)
    requires ins.Call?
    ensures Collect(ins, p).data == []
  {
  }

  // Over the whole list no CALL argument is lost or used twice: each is taken
  // by a call, consumed by a conversion, or still queued at the end.
  lemma {:induction false} ArgumentsConserved(extract: Ins -> Option<Ins>, list: seq<Ins>, n: nat)
    requires n <= |list|
    ensures multiset(CallArguments(extract, list, 0, n)) ==
            multiset(Taken(extract, list, n)) + multiset(PendingAt(extract, list, n).data) +
            multiset(Consumed(extract, list, 0, n))
  {
    hide Extracted;
    hide Collect;
    hide Added;
    hide Converted;
    hide TakenBy;
    if n > 0 {
      ArgumentsConserved(extract, list, n - 1);
      var ins, p := Extracted(extract, list[n - 1]), PendingAt(extract, list, n - 1);
      QueueBalance(ins, p);
      var p' := PendingAt(extract, list, n);
      assert p' == Collect(ins, p);
      var a, t, c := CallArguments(extract, list, 0, n - 1), Taken(extract, list, n - 1), Consumed(extract, list, 0, n - 1);
      assert CallArguments(extract, list, 0, n) == a + Added(ins);
      assert Taken(extract, list, n) == t + TakenBy(ins, p);
      assert Consumed(extract, list, 0, n) == c + Converted(ins, p);
      hide *;
      BooksBalance(a, t, p.data, c, Added(ins), TakenBy(ins, p), p'.data, Converted(ins, p));
    }
  }

  lemma BooksBalance(a: seq<Variable>, t: seq<Variable>, d: seq<Variable>, c: seq<Variable>,
                     added: seq<Variable>, taken: seq<Variable>, d': seq<Variable>, converted: seq<Variable>)
    requires multiset(a) == multiset(t) + multiset(d) + multiset(c)
    requires multiset(d) + multiset(added) == multiset(d') + multiset(converted) + multiset(taken)
    ensures multiset(a + added) == multiset(t + taken) + multiset(d') + multiset(c + converted)
  {
    var x, y := multiset(a + added), multiset(t + taken) + multiset(d') + multiset(c + converted);
    forall v ensures x[v] == y[v] {
      assert (multiset(d) + multiset(added))[v] == (multiset(d') + multiset(converted) + multiset(taken))[v];
    }
  }

  // Instruction i gives call `id` an option of this kind.
  ghost predicate Gives(extract: Ins -> Option<Ins>, list: seq<Ins>, i: nat, kind: ArgumentKind, id: CallId)
    requires i < |list|
  {
    var ins := Extracted(extract, list[i]);
    ins.Argument? && ins.kind == kind && ins.callId == id
  }

  ghost predicate GivenBefore(extract: Ins -> Option<Ins>, list: seq<Ins>, n: nat, kind: ArgumentKind, id: CallId)
    requires n <= |list|
  {
    exists i :: 0 <= i < n && Gives(extract, list, i, kind, id)
  }

  // Of the first n instructions i is the last to do so.
  ghost predicate GivesLast(extract: Ins -> Option<Ins>, list: seq<Ins>, n: nat, kind: ArgumentKind, id: CallId, i: nat)
    requires n <= |list|
  {
    i < n && Gives(extract, list, i, kind, id) && forall j :: i < j < n ==> !Gives(extract, list, j, kind, id)
  }

  function OptionsOf(p: Pending, kind: ArgumentKind): map<CallId, Variable> {
    match kind
    case ByValue => p.value
    case ByGas => p.gas
    case ByCall => map[]
  }

  // Of several values (or gas amounts) given for one call the last one is used.
  lemma {:induction false} LastOptionWins(extract: Ins -> Option<Ins>, list: seq<Ins>, n: nat, kind: ArgumentKind,
                                          id: CallId)
    requires n <= |list| && !kind.ByCall?
    ensures id in OptionsOf(PendingAt(extract, list, n), kind) <==> GivenBefore(extract, list, n, kind, id)
    ensures forall i: nat :: GivesLast(extract, list, n, kind, id, i) ==>
              && id in OptionsOf(PendingAt(extract, list, n), kind)
              && OptionsOf(PendingAt(extract, list, n), kind)[id] == Extracted(extract, list[i]).argument
  {
    hide Extracted;
    hide Collect;
    hide OptionsOf;
    if n > 0 {
      LastOptionWins(extract, list, n - 1, kind, id);
      var before, after := OptionsOf(PendingAt(extract, list, n - 1), kind), OptionsOf(PendingAt(extract, list, n), kind);
      OptionStep(Extracted(extract, list[n - 1]), PendingAt(extract, list, n - 1), kind, id);
      GivesLastStep(extract, list, n, kind, id);
    } else {
      NothingPending(kind);
    }
  }

  lemma NothingPending(kind: ArgumentKind)
    ensures OptionsOf(Pending(map[], map[], []), kind) == map[]
  {
  }

  lemma OptionStep(ins: Ins, p: Pending, kind: ArgumentKind, id: CallId)
    requires !kind.ByCall?
    ensures var before, after := OptionsOf(p, kind), OptionsOf(Collect(ins, p), kind);
            if ins.Argument? && ins.kind == kind && ins.callId == id then id in after && after[id] == ins.argument
            else (id in after <==> id in before) && (id in after ==> after[id] == before[id])
  {
  }

  lemma GivesLastStep(extract: Ins -> Option<Ins>, list: seq<Ins>, n: nat, kind: ArgumentKind, id: CallId)
    requires 0 < n <= |list|
    ensures GivenBefore(extract, list, n, kind, id) <==>
            GivenBefore(extract, list, n - 1, kind, id) || Gives(extract, list, n - 1, kind, id)
    ensures forall i: nat :: GivesLast(extract, list, n, kind, id, i) ==>
              if Gives(extract, list, n - 1, kind, id) then i == n - 1 else GivesLast(extract, list, n - 1, kind, id, i)
  {
    hide Gives;
  }

  lemma {:induction false} PositionsSpread(p: seq<nat>, n: nat, i: nat)
    requires Positions(p, n) && i < |p|
    ensures i <= p[i] && p[i] + (|p| - i) <= n
    decreases |p| - i
  {
    if i + 1 < |p| { PositionsSpread(p, n, i + 1); }
    PositionAtLeast(p, n, i);
  }

  lemma {:induction false} PositionAtLeast(p: seq<nat>, n: nat, i: nat)
    requires Positions(p, n) && i < |p|
    ensures i <= p[i]
  {
    if i > 0 { PositionAtLeast(p, n, i - 1); }
  }

  lemma NothingLeftOut(a: seq<Variable>, b: seq<Variable>)
    requires InOrderWithin(a, b)
    ensures multiset(a) == multiset(b) ==> a == b
  {
    if multiset(a) == multiset(b) {
      var p :| PicksAt(a, b, p);
      assert |multiset(a)| == |a| && |multiset(b)| == |b|;
      forall i | 0 <= i < |a|
        ensures a[i] == b[i]
      {
        PositionsSpread(p, |b|, i);
      }
    }
  }

  // What the call at position n receives, with the previous call just before
  // `from`: after the arguments it had, the CALL arguments in between; its
  // value and gas are the last ones given for its id, where it takes them.
  lemma CallReceives(extract: Ins -> Option<Ins>, list: seq<Ins>, from: nat, n: nat)
    requires from <= n < |list| && NoCall(extract, list, from, n)
    requires from == 0 || Extracted(extract, list[from - 1]).Call?
    requires var ins := Extracted(extract, list[n]); ins.Call? && Acceptable(ins, PendingAt(extract, list, n))
    ensures var ins := Extracted(extract, list[n]);
            var call := Completed(ins, PendingAt(extract, list, n));
            var received := Delivered(ins, PendingAt(extract, list, n));
            && call == ins.(arguments := ins.arguments + received, callValue := call.callValue, callGas := call.callGas)
            && (ins.names.None? || ins.declared.None? ==>
                  && InOrderWithin(received, CallArguments(extract, list, from, n))
                  && multiset(received) + multiset(Consumed(extract, list, from, n)) ==
                     multiset(CallArguments(extract, list, from, n))
                  && (Consumed(extract, list, from, n) == [] ==> received == CallArguments(extract, list, from, n)))
            && (ins.callClass in {HighLevelCall, LibraryCall, InternalDynamicCall, NewContract} ==>
                  && (!GivenBefore(extract, list, n, ByValue, ins.callId) ==> call.callValue == ins.callValue)
                  && forall i: nat :: GivesLast(extract, list, n, ByValue, ins.callId, i) ==>
                       call.callValue == Some(Extracted(extract, list[i]).argument))
            && (ins.callClass in {HighLevelCall, LibraryCall, InternalDynamicCall} ==>
                  && (!GivenBefore(extract, list, n, ByGas, ins.callId) ==> call.callGas == ins.callGas)
                  && forall i: nat :: GivesLast(extract, list, n, ByGas, ins.callId, i) ==>
                       call.callGas == Some(Extracted(extract, list[i]).argument))
            && (ins.callClass.NewContract? ==> call.callGas == ins.callGas)
            && (ins.callClass in {InternalCall, NewStructure, EventCall, OtherCall} ==>
                  call.callValue == ins.callValue && call.callGas == ins.callGas)
  {
    hide Extracted;
    hide PendingAt;
    hide CallArguments;
    hide Consumed;
    hide GivenBefore;
    hide GivesLast;
    hide InOrderWithin;
    var id := Extracted(extract, list[n]).callId;
    QueueSincePreviousCall(extract, list, from, n);
    NothingLeftOut(PendingAt(extract, list, n).data, CallArguments(extract, list, from, n));
    LastOptionWins(extract, list, n, ByValue, id);
    LastOptionWins(extract, list, n, ByGas, id);
  }

  // A call with named arguments receives a permutation of the queue if and
  // only if some declaration fits the names, or there is nothing to receive.
  lemma NamedCallReceives(ins: Ins, p: Pending)
    requires ins.Call? && ins.names.Some? && ins.declared.Some? && Acceptable(ins, p)
    requires NamedArguments.Unambiguous(ins.names.value, ins.declared.value)
    ensures multiset(Delivered(ins, p)) == multiset(p.data) <==>
            |p.data| == 0 ||
            exists i :: 0 <= i < |ins.declared.value| && NamedArguments.Compatible(ins.names.value, ins.declared.value[i])
    ensures forall i: nat :: NamedArguments.FitsFirst(ins.names.value, ins.declared.value, i) ==>
              NamedArguments.GivenByName(p.data, ins.names.value, ins.declared.value[i], Delivered(ins, p))
  {
    NamedArguments.ReorderKeepsArguments(p.data, ins.names.value, ins.declared.value);
    forall i: nat | NamedArguments.FitsFirst(ins.names.value, ins.declared.value, i)
      ensures NamedArguments.GivenByName(p.data, ins.names.value, ins.declared.value[i], Delivered(ins, p))
    {
      NamedArguments.EachTakesItsName(p.data, ins.names.value, ins.declared.value, i);
    }
  }
}
