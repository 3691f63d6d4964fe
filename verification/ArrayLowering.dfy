// Lowering of push and pop on storage arrays (slither/slithir/convert.py),
// executed on a store of arrays in which references are live pointers.
module ArrayLowering {
  import opened Options

  type ArrayId = int

  datatype Variable = User(id: nat) | Tmp(id: nat) | Ref(id: nat)

  datatype Value = Num(n: nat) | Items(items: seq<Value>)

  const ZERO := Num(0)
  const WORDS := 0x1_0000000000000000_0000000000000000_0000000000000000_0000000000000000

  // A slot that is not in the map holds zero; zeros are never stored.
  datatype Array = Array(length: nat, slots: map<nat, Value>)

  datatype Location = LengthOf(arr: ArrayId) | Slot(arr: ArrayId, index: nat)

  datatype State = State(arrays: map<ArrayId, Array>, vars: map<Variable, Value>, refs: map<Variable, Location>)

  datatype Operation =
    | Length(arr: ArrayId, lvalue: Variable)
    | Index(lvalue: Variable, arr: ArrayId, index: Variable)
    | Assign(lvalue: Variable, rvalue: Variable)
    | AddOne(lvalue: Variable, operand: Variable)
    | SubOne(lvalue: Variable, operand: Variable)
    | Delete(lvalue: Variable)
    | InitArray(elements: seq<Variable>, lvalue: Variable)

  datatype Argument = Single(v: Variable) | Listed(vs: seq<Variable>)

  // ---------------------------------------------------------------------
  // Execution
  // ---------------------------------------------------------------------

  ghost predicate ValidArray(a: Array) {
    && a.length < WORDS
    && (forall i :: i in a.slots ==> a.slots[i] != ZERO)
    && (forall i :: i in a.slots ==> i < a.length)
  }

  ghost predicate ValidState(s: State) {
    && (forall a :: a in s.arrays ==> ValidArray(s.arrays[a]))
    && (forall v :: v in s.refs ==> s.refs[v].arr in s.arrays)
  }

  function GetSlot(a: Array, i: nat): Value { if i in a.slots then a.slots[i] else ZERO }

  function SetSlot(a: Array, i: nat, v: Value): Array {
    a.(slots := if v == ZERO then a.slots - {i} else a.slots[i := v])
  }

  function Load(s: State, l: Location): Value
    requires l.arr in s.arrays
  {
    if l.LengthOf? then Num(s.arrays[l.arr].length) else GetSlot(s.arrays[l.arr], l.index)
  }

  // Only a number can become a length.
  function Store(s: State, l: Location, v: Value): Option<State>
    requires l.arr in s.arrays
  {
    var a := s.arrays[l.arr];
    if l.Slot? then Some(s.(arrays := s.arrays[l.arr := SetSlot(a, l.index, v)]))
    else if v.Num? then Some(s.(arrays := s.arrays[l.arr := a.(length := v.n)]))
    else None
  }

  function Read(s: State, v: Variable): Value {
    if v in s.refs && s.refs[v].arr in s.arrays then Load(s, s.refs[v])
    else if v in s.vars then s.vars[v]
    else ZERO
  }

  function Write(s: State, v: Variable, x: Value): Option<State> {
    if v in s.refs && s.refs[v].arr in s.arrays then Store(s, s.refs[v], x) else Some(s.(vars := s.vars[v := x]))
  }

  function ReadAll(s: State, vs: seq<Variable>): seq<Value> {
    seq(|vs|, i requires 0 <= i < |vs| => Read(s, vs[i]))
  }

  // None is a panic: checked 256-bit arithmetic and array bounds.
  function Exec(s: State, op: Operation): Option<State> {
    match op
    case Length(arr, lv) => Some(s.(refs := s.refs[lv := LengthOf(arr)]))
    case Index(lv, arr, i) =>
      var x := Read(s, i);
      if arr in s.arrays && x.Num? && x.n < s.arrays[arr].length then Some(s.(refs := s.refs[lv := Slot(arr, x.n)]))
      else None
    case Assign(lv, rv) => Write(s, lv, Read(s, rv))
    case AddOne(lv, v) =>
      var x := Read(s, v);
      if x.Num? && x.n + 1 < WORDS then Write(s, lv, Num(x.n + 1)) else None
    case SubOne(lv, v) =>
      var x := Read(s, v);
      if x.Num? && x.n > 0 then Write(s, lv, Num(x.n - 1)) else None
    case Delete(lv) => Write(s, lv, ZERO)
    case InitArray(vs, lv) => Write(s, lv, Items(ReadAll(s, vs)))
  }

  function Run(s: State, ops: seq<Operation>): Option<State>
    decreases |ops|
  {
    if ops == [] then Some(s)
    else
      var next := Exec(s, ops[0]);
      if next.None? then None else Run(next.value, ops[1..])
  }

  // ---------------------------------------------------------------------
  // The lowered sequences; r and t are the next free reference and temporary
  // ---------------------------------------------------------------------

  function ExpandOps(arr: ArrayId, r: nat, t: nat): seq<Operation> {
    [Length(arr, Ref(r)), Assign(Tmp(t), Ref(r)), AddOne(Tmp(t + 1), Tmp(t)), Assign(Ref(r), Tmp(t + 1))]
  }

  function SetValueOps(arr: ArrayId, argument: Option<Argument>, lvalue: Variable, lengthVal: Variable, r: nat, t: nat):
    seq<Operation>
  {
    [Index(Ref(r), arr, lengthVal)] +
    match argument
    case None => [Assign(lvalue, Ref(r))]
    case Some(Single(v)) => [Assign(Ref(r), v)]
    case Some(Listed(vs)) => [InitArray(vs, Tmp(t)), Assign(Ref(r), Tmp(t))]
  }

  function PushOps(arr: ArrayId, argument: Option<Argument>, lvalue: Variable, r: nat, t: nat): seq<Operation> {
    ExpandOps(arr, r, t) + SetValueOps(arr, argument, lvalue, Tmp(t), r + 1, t + 2)
  }

  function PopOps(arr: ArrayId, r: nat, t: nat): seq<Operation> {
    [Length(arr, Ref(r)), SubOne(Tmp(t), Ref(r)), Index(Ref(r + 1), arr, Tmp(t)), Delete(Ref(r + 1)),
     Length(arr, Ref(r + 2)), Assign(Ref(r + 2), Tmp(t))]
  }

  // The converter: counters for new variables and the list being built.
  class Converter {
    var nextRef: nat
    var nextTmp: nat
    var ret: seq<Operation>

    method NewReference() returns (v: Variable)
      modifies this`nextRef
      ensures v == Ref(old(nextRef)) && nextRef == old(nextRef) + 1
    {
      v := Ref(nextRef);
      nextRef := nextRef + 1;
    }

    method NewTemporary() returns (v: Variable)
      modifies this`nextTmp
      ensures v == Tmp(old(nextTmp)) && nextTmp == old(nextTmp) + 1
    {
      v := Tmp(nextTmp);
      nextTmp := nextTmp + 1;
    }

    method ConvertToPushExpandArr(arr: ArrayId) returns (lengthVal: Variable)
      modifies this
      ensures ret == old(ret) + ExpandOps(arr, old(nextRef), old(nextTmp))
      ensures lengthVal == Tmp(old(nextTmp)) && nextRef == old(nextRef) + 1 && nextTmp == old(nextTmp) + 2
    {
      var length := NewReference();
      ret := ret + [Length(arr, length)];
      lengthVal := NewTemporary();
      ret := ret + [Assign(lengthVal, length)];
      var newLengthVal := NewTemporary();
      ret := ret + [AddOne(newLengthVal, lengthVal)];
      ret := ret + [Assign(length, newLengthVal)];
    }

    method ConvertToPushSetVal(arr: ArrayId, arguments: seq<Argument>, lvalue: Variable, lengthVal: Variable)
      modifies this
      ensures var argument := if |arguments| > 0 then Some(arguments[0]) else None;
              ret == old(ret) + SetValueOps(arr, argument, lvalue, lengthVal, old(nextRef), old(nextTmp))
    {
      var element := NewReference();
      ret := ret + [Index(element, arr, lengthVal)];
      if |arguments| > 0 {
        var value;
        match arguments[0] {
          case Listed(vs) =>
            value := NewTemporary();
            ret := ret + [InitArray(vs, value)];
          case Single(v) =>
            value := v;
        }
        ret := ret + [Assign(element, value)];
      } else {
        ret := ret + [Assign(lvalue, element)];
      }
    }

    method ConvertToPush(arr: ArrayId, arguments: seq<Argument>, lvalue: Variable)
      modifies this
      ensures var argument := if |arguments| > 0 then Some(arguments[0]) else None;
              ret == PushOps(arr, argument, lvalue, old(nextRef), old(nextTmp))
    {
      ret := [];
      var lengthVal := ConvertToPushExpandArr(arr);
      ConvertToPushSetVal(arr, arguments, lvalue, lengthVal);
    }

    method ConvertToPop(arr: ArrayId)
      modifies this
      ensures ret == PopOps(arr, old(nextRef), old(nextTmp))
    {
      ret := [];
      var length := NewReference();
      ret := ret + [Length(arr, length)];
      var val := NewTemporary();
      ret := ret + [SubOne(val, length)];
      var elementToDelete := NewReference();
      ret := ret + [Index(elementToDelete, arr, val)];
      ret := ret + [Delete(elementToDelete)];
      var lengthToAssign := NewReference();
      ret := ret + [Length(arr, lengthToAssign)];
      ret := ret + [Assign(lengthToAssign, val)];
    }
  }

  // ---------------------------------------------------------------------
  // What they do
  // ---------------------------------------------------------------------

  ghost predicate Older(v: Variable, r: nat, t: nat) {
    match v
    case User(_) => true
    case Tmp(id) => id < t
    case Ref(id) => id < r
  }

  // No variable of the state or the call is one of those still to be created.
  ghost predicate OlderState(s: State, r: nat, t: nat) {
    (forall v :: v in s.refs ==> Older(v, r, t)) && (forall v :: v in s.vars ==> Older(v, r, t))
  }

  ghost predicate OlderArgument(a: Option<Argument>, r: nat, t: nat) {
    match a
    case None => true
    case Some(Single(v)) => Older(v, r, t)
    case Some(Listed(vs)) => forall i :: 0 <= i < |vs| ==> Older(vs[i], r, t)
  }

  // The value of the argument in a state.
  function ArgumentValue(s: State, a: Option<Argument>): Value {
    match a
    case None => ZERO
    case Some(Single(v)) => Read(s, v)
    case Some(Listed(vs)) => Items(ReadAll(s, vs))
  }

  function Appended(a: Array, v: Value): Array { SetSlot(a.(length := a.length + 1), a.length, v) }

  function Dropped(a: Array): Array
    requires a.length > 0
  {
    SetSlot(a, a.length - 1, ZERO).(length := a.length - 1)
  }

  function Grown(s: State, arr: ArrayId): State
    requires arr in s.arrays
  {
    s.(arrays := s.arrays[arr := s.arrays[arr].(length := s.arrays[arr].length + 1)])
  }

  lemma RunCons(s: State, op: Operation, rest: seq<Operation>)
    ensures Run(s, [op] + rest) == if Exec(s, op).None? then None else Run(Exec(s, op).value, rest)
  {
  }

  lemma {:induction false} RunConcat(s: State, p: seq<Operation>, q: seq<Operation>)
    ensures Run(s, p + q) == if Run(s, p).None? then None else Run(Run(s, p).value, q)
    decreases |p|
  {
    if p == [] {
      assert p + q == q;
    } else {
      assert p == [p[0]] + p[1..] && p + q == [p[0]] + (p[1..] + q);
      RunCons(s, p[0], p[1..] + q);
      RunCons(s, p[0], p[1..]);
      if Exec(s, p[0]).Some? { RunConcat(Exec(s, p[0]).value, p[1..], q); }
    }
  }

  lemma RunOne(s: State, op: Operation)
    ensures Run(s, [op]) == Exec(s, op)
  {
  }

  // Growing the length: a reference to it is read, incremented and written.
  lemma ExpandGrows(s: State, arr: ArrayId, r: nat, t: nat)
    requires arr in s.arrays && Ref(r) !in s.refs && Tmp(t) !in s.refs && Tmp(t + 1) !in s.refs
    ensures var n := s.arrays[arr].length;
            Run(s, ExpandOps(arr, r, t)) ==
            if n + 1 < WORDS then
              Some(State(Grown(s, arr).arrays, s.vars[Tmp(t) := Num(n)][Tmp(t + 1) := Num(n + 1)],
                         s.refs[Ref(r) := LengthOf(arr)]))
            else None
  {
    hide Run;
    var ops := ExpandOps(arr, r, t);
    var n := s.arrays[arr].length;
    var s1 := s.(refs := s.refs[Ref(r) := LengthOf(arr)]);
    var s2 := s1.(vars := s.vars[Tmp(t) := Num(n)]);
    assert ops == [ops[0]] + ([ops[1]] + ([ops[2]] + [ops[3]]));
    RunCons(s, ops[0], [ops[1]] + ([ops[2]] + [ops[3]]));
    assert Exec(s, ops[0]) == Some(s1);
    RunCons(s1, ops[1], [ops[2]] + [ops[3]]);
    assert Exec(s1, ops[1]) == Some(s2);
    RunCons(s2, ops[2], [ops[3]]);
    if n + 1 < WORDS {
      var s3 := s2.(vars := s2.vars[Tmp(t + 1) := Num(n + 1)]);
      assert Exec(s2, ops[2]) == Some(s3);
      RunOne(s3, ops[3]);
      assert Read(s3, Tmp(t + 1)) == Num(n + 1);
    }
  }

  // Binding new variables does not change what older ones stand for.
  lemma ArgumentUndisturbed(s: State, s': State, a: Option<Argument>, r: nat, t: nat)
    requires OlderArgument(a, r, t) && s'.arrays == s.arrays
    requires forall v :: Older(v, r, t) ==> (v in s.refs <==> v in s'.refs) && (v in s.vars <==> v in s'.vars)
    requires forall v :: Older(v, r, t) && v in s.refs ==> s.refs[v] == s'.refs[v]
    requires forall v :: Older(v, r, t) && v in s.vars ==> s.vars[v] == s'.vars[v]
    ensures ArgumentValue(s', a) == ArgumentValue(s, a)
  {
  }

  // Writing the new element once the length has grown.
  lemma SetValueStores(s: State, arr: ArrayId, a: Option<Argument>, lvalue: Variable, n: nat, r: nat, t: nat,
                       lengthVal: Variable)
    requires arr in s.arrays && s.arrays[arr].length == n + 1 && n !in s.arrays[arr].slots
    requires Read(s, lengthVal) == Num(n) && Ref(r) !in s.refs && Tmp(t) !in s.refs && Tmp(t) !in s.vars
    requires OlderArgument(a, r, t) && lvalue !in s.refs && lvalue != Ref(r)
    ensures var out := Run(s, SetValueOps(arr, a, lvalue, lengthVal, r, t));
            out.Some? && out.value.arrays == s.arrays[arr := SetSlot(s.arrays[arr], n, ArgumentValue(s, a))]
            && out.value.refs == s.refs[Ref(r) := Slot(arr, n)]
            && (a.None? ==> Read(out.value, lvalue) == ZERO)
  {
    var ops := SetValueOps(arr, a, lvalue, lengthVal, r, t);
    var s1 := s.(refs := s.refs[Ref(r) := Slot(arr, n)]);
    assert Exec(s, ops[0]) == Some(s1);
    RunCons(s, ops[0], ops[1..]);
    assert ops == [ops[0]] + ops[1..];
    ArgumentUndisturbed(s, s1, a, r, t);
    match a
    case None =>
      RunOne(s1, ops[1]);
      assert ops[1..] == [ops[1]];
      assert SetSlot(s.arrays[arr], n, ZERO) == s.arrays[arr];
    case Some(Single(v)) =>
      RunOne(s1, ops[1]);
      assert ops[1..] == [ops[1]];
    case Some(Listed(vs)) =>
      var s2 := s1.(vars := s1.vars[Tmp(t) := Items(ReadAll(s1, vs))]);
      assert ops[1..] == [ops[1]] + [ops[2]];
      RunCons(s1, ops[1], [ops[2]]);
      assert Exec(s1, ops[1]) == Some(s2);
      RunOne(s2, ops[2]);
      assert Read(s2, Tmp(t)) == Items(ReadAll(s1, vs));
  }

  // push: the array grows by one element, whose value is that of the argument
  // after the length has grown; every other array stays as it was.  A full
  // array panics.
  lemma PushAppends(s: State, arr: ArrayId, a: Option<Argument>, lvalue: Variable, r: nat, t: nat)
    requires ValidState(s) && arr in s.arrays && OlderState(s, r, t) && OlderArgument(a, r, t)
    requires lvalue !in s.refs && Older(lvalue, r, t)
    ensures var out := Run(s, PushOps(arr, a, lvalue, r, t));
            if s.arrays[arr].length + 1 < WORDS then
              && out.Some?
              && out.value.arrays == s.arrays[arr := Appended(s.arrays[arr], ArgumentValue(Grown(s, arr), a))]
              && out.value.refs == s.refs[Ref(r) := LengthOf(arr)][Ref(r + 1) := Slot(arr, s.arrays[arr].length)]
              && (a.None? ==> Read(out.value, lvalue) == ZERO)
            else out.None?
  {
    hide Run;
    hide Exec;
    hide SetValueOps;
    hide ExpandOps;
    hide Grown;
    hide Appended;
    hide Read;
    hide ArgumentValue;
    ExpandGrows(s, arr, r, t);
    RunConcat(s, ExpandOps(arr, r, t), SetValueOps(arr, a, lvalue, Tmp(t), r + 1, t + 2));
    if s.arrays[arr].length + 1 < WORDS {
      PushStores(s, Run(s, ExpandOps(arr, r, t)).value, arr, a, lvalue, r, t);
    }
  }

  // The second half of a push, from the state s1 in which the length has grown.
  lemma PushStores(s: State, s1: State, arr: ArrayId, a: Option<Argument>, lvalue: Variable, r: nat, t: nat)
    requires ValidState(s) && arr in s.arrays && OlderState(s, r, t) && OlderArgument(a, r, t)
    requires lvalue !in s.refs && Older(lvalue, r, t)
    requires var n := s.arrays[arr].length;
             s1 == State(Grown(s, arr).arrays, s.vars[Tmp(t) := Num(n)][Tmp(t + 1) := Num(n + 1)],
                         s.refs[Ref(r) := LengthOf(arr)])
    ensures var out := Run(s1, SetValueOps(arr, a, lvalue, Tmp(t), r + 1, t + 2));
            && out.Some?
            && out.value.arrays == s.arrays[arr := Appended(s.arrays[arr], ArgumentValue(Grown(s, arr), a))]
            && out.value.refs == s.refs[Ref(r) := LengthOf(arr)][Ref(r + 1) := Slot(arr, s.arrays[arr].length)]
            && (a.None? ==> Read(out.value, lvalue) == ZERO)
  {
    hide Run;
    hide SetValueOps;
    hide ArgumentValue;
    hide OlderArgument;
    hide SetSlot;
    var n := s.arrays[arr].length;
    assert n !in s.arrays[arr].slots by { assert ValidArray(s.arrays[arr]); }
    ArgumentOlder(a, r, t);
    SetValueStores(s1, arr, a, lvalue, n, r + 1, t + 2, Tmp(t));
    ArgumentUndisturbed(Grown(s, arr), s1, a, r, t);
  }

  lemma ArgumentOlder(a: Option<Argument>, r: nat, t: nat)
    requires OlderArgument(a, r, t)
    ensures OlderArgument(a, r + 1, t + 2)
  {
  }

  // The first four operations of a pop: the last slot is cleared.
  lemma ClearsLast(s: State, arr: ArrayId, r: nat, t: nat)
    requires arr in s.arrays && Tmp(t) !in s.refs
    ensures var n := s.arrays[arr].length;
            Run(s, PopOps(arr, r, t)[..4]) ==
            if n == 0 then None
            else Some(State(s.arrays[arr := SetSlot(s.arrays[arr], n - 1, ZERO)], s.vars[Tmp(t) := Num(n - 1)],
                            s.refs[Ref(r) := LengthOf(arr)][Ref(r + 1) := Slot(arr, n - 1)]))
  {
    hide Run;
    hide SetSlot;
    var ops := PopOps(arr, r, t);
    var n := s.arrays[arr].length;
    assert ops[..4] == [ops[0]] + ([ops[1]] + ([ops[2]] + [ops[3]]));
    var s1 := s.(refs := s.refs[Ref(r) := LengthOf(arr)]);
    RunCons(s, ops[0], [ops[1]] + ([ops[2]] + [ops[3]]));
    RunCons(s1, ops[1], [ops[2]] + [ops[3]]);
    if n > 0 {
      var s2 := s1.(vars := s1.vars[Tmp(t) := Num(n - 1)]);
      assert Exec(s1, ops[1]) == Some(s2);
      RunCons(s2, ops[2], [ops[3]]);
      var s3 := s2.(refs := s2.refs[Ref(r + 1) := Slot(arr, n - 1)]);
      assert Read(s2, Tmp(t)) == Num(n - 1);
      assert Exec(s2, ops[2]) == Some(s3);
      RunOne(s3, ops[3]);
    }
  }

  // The last two: the shortened length is written back.
  lemma Shortens(s: State, arr: ArrayId, r: nat, t: nat, n: nat)
    requires arr in s.arrays && Tmp(t) !in s.refs && Tmp(t) in s.vars && s.vars[Tmp(t)] == Num(n)
    ensures Run(s, PopOps(arr, r, t)[4..]) ==
            Some(s.(arrays := s.arrays[arr := s.arrays[arr].(length := n)], refs := s.refs[Ref(r + 2) := LengthOf(arr)]))
  {
    hide Run;
    var ops := PopOps(arr, r, t);
    assert ops[4..] == [ops[4]] + [ops[5]];
    RunCons(s, ops[4], [ops[5]]);
    var s1 := s.(refs := s.refs[Ref(r + 2) := LengthOf(arr)]);
    assert Exec(s, ops[4]) == Some(s1);
    RunOne(s1, ops[5]);
    assert Read(s1, Tmp(t)) == Num(n);
  }

  // pop: the last element goes; an empty array panics.
  lemma PopDrops(s: State, arr: ArrayId, r: nat, t: nat)
    requires ValidState(s) && arr in s.arrays && Tmp(t) !in s.refs
    ensures var out := Run(s, PopOps(arr, r, t));
            if s.arrays[arr].length == 0 then out.None?
            else out.Some? && out.value.arrays == s.arrays[arr := Dropped(s.arrays[arr])]
  {
    hide Run;
    hide PopOps;
    hide ValidState;
    var ops := PopOps(arr, r, t);
    PopHasSix(arr, r, t);
    assert ops == ops[..4] + ops[4..];
    RunConcat(s, ops[..4], ops[4..]);
    ClearsLast(s, arr, r, t);
    if s.arrays[arr].length > 0 {
      Shortens(Run(s, ops[..4]).value, arr, r, t, s.arrays[arr].length - 1);
    }
  }

  lemma PopHasSix(arr: ArrayId, r: nat, t: nat)
    ensures |PopOps(arr, r, t)| == 6
  {
  }

  // Both keep the slots beyond the length empty.
  lemma ArraysStayValid(a: Array, v: Value)
    requires ValidArray(a)
    ensures a.length + 1 < WORDS ==> ValidArray(Appended(a, v))
    ensures a.length > 0 ==> ValidArray(Dropped(a))
    ensures a.length + 1 < WORDS ==> Dropped(Appended(a, v)) == a
    ensures GetSlot(Appended(a, v), a.length) == v
    ensures forall i: nat :: i < a.length ==> GetSlot(Appended(a, v), i) == GetSlot(a, i)
  {
  }

  // A push followed by a pop leaves all arrays as they were.
  lemma PushThenPopRestores(s: State, arr: ArrayId, a: Option<Argument>, lvalue: Variable, r: nat, t: nat, r': nat, t': nat)
    requires ValidState(s) && arr in s.arrays && OlderState(s, r, t) && OlderArgument(a, r, t)
    requires lvalue !in s.refs && Older(lvalue, r, t) && s.arrays[arr].length + 1 < WORDS && r <= r' && t <= t'
    ensures var out := Run(s, PushOps(arr, a, lvalue, r, t) + PopOps(arr, r', t'));
            out.Some? && out.value.arrays == s.arrays
  {
    hide Run;
    hide PushOps;
    hide PopOps;
    hide ArgumentValue;
    hide OlderArgument;
    PushAppends(s, arr, a, lvalue, r, t);
    RunConcat(s, PushOps(arr, a, lvalue, r, t), PopOps(arr, r', t'));
    var s1 := Run(s, PushOps(arr, a, lvalue, r, t)).value;
    var v := ArgumentValue(Grown(s, arr), a);
    ArraysStayValid(s.arrays[arr], v);
    assert ValidArray(s.arrays[arr]);
    assert ValidState(s1);
    PopDrops(s1, arr, r', t');
    assert s1.arrays[arr := s.arrays[arr]] == s.arrays;
  }

  // ---------------------------------------------------------------------
  // Is it the value the argument had before the push?
  // ---------------------------------------------------------------------

  ghost predicate IsOwnLength(s: State, arr: ArrayId, v: Variable) {
    v in s.refs && s.refs[v] == LengthOf(arr)
  }

  ghost predicate MentionsOwnLength(s: State, arr: ArrayId, a: Option<Argument>) {
    match a
    case None => false
    case Some(Single(v)) => IsOwnLength(s, arr, v)
    case Some(Listed(vs)) => exists i :: 0 <= i < |vs| && IsOwnLength(s, arr, vs[i])
  }

  // What push is for: the array ends with the value the argument had before
  // the call, and no other array changes.
  ghost predicate AppendsArgument(s: State, arr: ArrayId, a: Option<Argument>, out: Option<State>)
    requires arr in s.arrays
  {
    out.Some? && out.value.arrays == s.arrays[arr := Appended(s.arrays[arr], ArgumentValue(s, a))]
  }

  // Running the lowered code does that if and only if there is room and the
  // argument is not a reference to the array's own length, as in
  // a.push(a.length): that is read after the length has been incremented.
  lemma PushedValueExact(s: State, arr: ArrayId, a: Option<Argument>, lvalue: Variable, r: nat, t: nat)
    requires ValidState(s) && arr in s.arrays && OlderState(s, r, t) && OlderArgument(a, r, t)
    requires lvalue !in s.refs && Older(lvalue, r, t)
    ensures AppendsArgument(s, arr, a, Run(s, PushOps(arr, a, lvalue, r, t))) <==>
            s.arrays[arr].length + 1 < WORDS && !MentionsOwnLength(s, arr, a)
  {
    hide Run;
    hide PushOps;
    hide Appended;
    hide ArgumentValue;
    hide MentionsOwnLength;
    hide OlderArgument;
    hide OlderState;
    PushAppends(s, arr, a, lvalue, r, t);
    AppendedSame(s, arr, a);
    if s.arrays[arr].length + 1 < WORDS {
      var x, y := Appended(s.arrays[arr], ArgumentValue(Grown(s, arr), a)), Appended(s.arrays[arr], ArgumentValue(s, a));
      assert s.arrays[arr := x][arr] == x && s.arrays[arr := y][arr] == y;
    }
  }

  lemma AppendedSame(s: State, arr: ArrayId, a: Option<Argument>)
    requires ValidState(s) && arr in s.arrays
    ensures Appended(s.arrays[arr], ArgumentValue(Grown(s, arr), a)) == Appended(s.arrays[arr], ArgumentValue(s, a)) <==>
            !MentionsOwnLength(s, arr, a)
  {
    hide Appended;
    ReadAfterGrowing(s, arr, a);
    assert ValidArray(s.arrays[arr]);
    ArraysStayValid(s.arrays[arr], ArgumentValue(s, a));
    ArraysStayValid(s.arrays[arr], ArgumentValue(Grown(s, arr), a));
  }

  // Growing the array changes what its own length reads as, and nothing else.
  lemma ReadAfterGrowing(s: State, arr: ArrayId, a: Option<Argument>)
    requires ValidState(s) && arr in s.arrays
    ensures ArgumentValue(Grown(s, arr), a) == ArgumentValue(s, a) <==> !MentionsOwnLength(s, arr, a)
  {
    var s' := Grown(s, arr);
    forall v
      ensures Read(s', v) == Read(s, v) <==> !IsOwnLength(s, arr, v)
    {
    }
    if a.Some? && a.value.Listed? {
      var vs := a.value.vs;
      if MentionsOwnLength(s, arr, a) {
        var i :| 0 <= i < |vs| && IsOwnLength(s, arr, vs[i]);
        assert ReadAll(s', vs)[i] != ReadAll(s, vs)[i];
      } else {
        assert ReadAll(s', vs) == ReadAll(s, vs);
      }
    }
  }

  // An array of n zeros and a reference to its length.
  function Zeros(n: nat): State { State(map[7 := Array(n, map[])], map[], map[Ref(0) := LengthOf(7)]) }

  const OWN_LENGTH := Some(Single(Ref(0)))

  // a.push(a.length) on it stores n + 1 where n is meant.
  lemma PushOwnLengthStoresOneMore(n: nat)
    requires n + 1 < WORDS
    ensures ValidState(Zeros(n)) && ArgumentValue(Zeros(n), OWN_LENGTH) == Num(n)
    ensures var out := Run(Zeros(n), PushOps(7, OWN_LENGTH, User(0), 1, 0));
            && out.Some? && out.value.arrays == map[7 := Array(n + 1, map[n := Num(n + 1)])]
            && !AppendsArgument(Zeros(n), 7, OWN_LENGTH, out)
  {
    hide Run;
    hide PushOps;
    hide AppendsArgument;
    hide Appended;
    ZerosGrow(n);
    PushAppends(Zeros(n), 7, OWN_LENGTH, User(0), 1, 0);
    PushedValueExact(Zeros(n), 7, OWN_LENGTH, User(0), 1, 0);
  }

  lemma ZerosGrow(n: nat)
    requires n + 1 < WORDS
    ensures ArgumentValue(Grown(Zeros(n), 7), OWN_LENGTH) == Num(n + 1)
    ensures Appended(Zeros(n).arrays[7], Num(n + 1)) == Array(n + 1, map[n := Num(n + 1)])
    ensures MentionsOwnLength(Zeros(n), 7, OWN_LENGTH)
  {
  }
}
