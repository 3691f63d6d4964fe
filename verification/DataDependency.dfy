// Data dependencies: transitive closure, merge into the contract and erasure of
// SSA versions (slither/analyses/data_dependency/data_dependency.py).
//
// The sets a table holds are objects that the closure updates in place, as in
// the source, so sharing a set between two tables would be visible here.
module DataDependency {
  import opened Graphs

  // Ssa stands for the IR variables that have a non-SSA version.
  datatype Variable = Ssa(name: int, version: int) | Plain(name: int)

  type Table = Edges<Variable>

  function NonSsa(v: Variable): Variable {
    if v.Ssa? then Plain(v.name) else v
  }

  // ---------------------------------------------------------------------
  // What the tables should be
  // ---------------------------------------------------------------------

  ghost function Targets(t: Table): set<Variable> {
    set k, v | k in t && v in t[k] :: v
  }

  // Every key keeps its own entries and gains everything else it leads to.
  ghost function Closure(t: Table): (c: Table)
    ensures c.Keys == t.Keys && forall k :: k in t ==> t[k] <= c[k]
  {
    map k | k in t :: t[k] + set v | v in Targets(t) && v != k && Reach(t, k, v)
  }

  ghost function Project(t: Table): Table {
    map u | u in ErasedKeys(t) :: Erased(t, u)
  }

  function Erase(vs: set<Variable>): set<Variable> {
    set v | v in vs :: NonSsa(v)
  }

  ghost function ErasedKeys(t: Table): set<Variable> {
    set k | k in t :: NonSsa(k)
  }

  ghost function Erased(t: Table, u: Variable): set<Variable> {
    set k, v | k in t && NonSsa(k) == u && v in t[k] :: NonSsa(v)
  }

  lemma ClosureReaches(t: Table, k: Variable, v: Variable)
    requires k in t && v in Closure(t)[k]
    ensures Reach(t, k, v)
  {
    if v in t[k] { ReachEdge(t, k, v); }
  }

  lemma ReachInClosure(t: Table, k: Variable, v: Variable)
    requires k in t && v != k && Reach(t, k, v)
    ensures v in Closure(t)[k]
  {
    FirstAndLastEdge(t, k, v);
    var w :| Edge(t, w, v);
    assert v in Targets(t);
  }

  // t contains t0 and at most its closure.
  ghost predicate Between(t0: Table, t: Table) {
    t.Keys == t0.Keys && forall k :: k in t0 ==> t0[k] <= t[k] <= Closure(t0)[k]
  }

  lemma BetweenSelf(t: Table)
    ensures Between(t, t)
  {
  }

  // One more pass would add nothing.
  ghost predicate Stable(t: Table) {
    forall k, item, v :: k in t && item in t[k] && item in t && v in t[item] && v != k ==> v in t[k]
  }

  lemma {:induction false} StablePath(t0: Table, t: Table, p: seq<Variable>)
    requires Between(t0, t) && Stable(t) && IsPath(t0, p) && |p| > 1 && p[0] in t
    ensures p[|p| - 1] == p[0] || p[|p| - 1] in t[p[0]]
    decreases |p|
  {
    PathTail(t0, p);
    if |p| > 2 {
      PathTail(t0, p[1..]);
      StablePath(t0, t, p[1..]);
    }
  }

  lemma StableIsClosure(t0: Table, t: Table)
    requires Between(t0, t) && Stable(t)
    ensures t == Closure(t0)
  {
    forall k, v | k in t0 && v in Closure(t0)[k] && v !in t0[k]
      ensures v in t[k]
    {
      var p :| IsPath(t0, p) && p[0] == k && p[|p| - 1] == v;
      StablePath(t0, t, p);
    }
    forall k | k in t0
      ensures t[k] == Closure(t0)[k]
    {
    }
  }

  // v is one step further from k than the table knows.
  ghost predicate Further(t: Table, k: Variable, v: Variable) {
    k in t && v !in t[k] && v != k && exists item :: item in t[k] && Edge(t, item, v)
  }

  ghost predicate OneOfLeadsTo(t: Table, items: set<Variable>, v: Variable) {
    exists item :: item in items && Edge(t, item, v)
  }

  lemma LeadsToGrows(t: Table, items: set<Variable>, item: Variable)
    ensures forall v :: OneOfLeadsTo(t, items + {item}, v) <==> OneOfLeadsTo(t, items, v) || Edge(t, item, v)
  {
  }

  lemma FurtherLeadsTo(t: Table, k: Variable, v: Variable)
    requires k in t
    ensures Further(t, k, v) <==> v !in t[k] && v != k && OneOfLeadsTo(t, t[k] * t.Keys, v)
  {
  }

  // to_add holds exactly what one pass over the table finds.
  ghost predicate IsPass(t: Table, toAdd: map<Variable, set<Variable>>) {
    && toAdd.Keys <= t.Keys
    && forall k, v :: Further(t, k, v) <==> k in toAdd && v in toAdd[k]
  }

  ghost function Extend(t: Table, toAdd: map<Variable, set<Variable>>): Table {
    map k | k in t :: t[k] + if k in toAdd then toAdd[k] else {}
  }

  // What a pass adds is still within the closure.
  lemma PassStaysBetween(t0: Table, t: Table, toAdd: map<Variable, set<Variable>>)
    requires Between(t0, t) && IsPass(t, toAdd)
    ensures Between(t0, Extend(t, toAdd))
  {
    forall k, v | k in toAdd && v in toAdd[k]
      ensures v in Closure(t0)[k]
    {
      assert Further(t, k, v);
      var item :| item in t[k] && Edge(t, item, v);
      ClosureReaches(t0, k, item);
      ClosureReaches(t0, item, v);
      ReachTrans(t0, k, item, v);
      ReachInClosure(t0, k, v);
    }
  }

  lemma EmptyPassIsStable(t: Table, toAdd: map<Variable, set<Variable>>)
    requires IsPass(t, toAdd) && forall k :: k in toAdd ==> toAdd[k] == {}
    ensures Stable(t) && Extend(t, toAdd) == t
  {
    forall k, item, v | k in t && item in t[k] && item in t && v in t[item] && v != k
      ensures v in t[k]
    {
      assert Edge(t, item, v);
      assert !Further(t, k, v);
    }
    assert forall k :: k in t ==> Extend(t, toAdd)[k] == t[k];
  }

  lemma PassShrinksMissing(t0: Table, t: Table, toAdd: map<Variable, set<Variable>>, k: Variable)
    requires Between(t0, t) && IsPass(t, toAdd) && k in toAdd && toAdd[k] != {}
    ensures Missing(t0, Extend(t, toAdd)) < Missing(t0, t)
  {
    PassStaysBetween(t0, t, toAdd);
    var v :| v in toAdd[k];
    assert Further(t, k, v);
    assert (k, v) in Missing(t0, t) && (k, v) !in Missing(t0, Extend(t, toAdd));
  }

  ghost function Missing(t0: Table, t: Table): set<(Variable, Variable)>
    requires t.Keys == t0.Keys
  {
    set k, v | k in t0 && v in Closure(t0)[k] && v !in t[k] :: (k, v)
  }

  ghost function Restrict(t: Table, keys: set<Variable>): Table {
    map k | k in t && k in keys :: t[k]
  }

  lemma ErasedGrows(t: Table, keys: set<Variable>, k: Variable, u: Variable)
    requires k in t
    ensures Erased(Restrict(t, keys + {k}), u) ==
            Erased(Restrict(t, keys), u) + (if u == NonSsa(k) then Erase(t[k]) else {})
  {
  }

  lemma ProjectGrows(t: Table, keys: set<Variable>, k: Variable)
    requires k in t
    ensures var p, u := Project(Restrict(t, keys)), NonSsa(k);
            Project(Restrict(t, keys + {k})) == p[u := (if u in p then p[u] else {}) + Erase(t[k])]
  {
    hide Erased;
    hide Erase;
    var r, r', u := Restrict(t, keys), Restrict(t, keys + {k}), NonSsa(k);
    assert r' == r[k := t[k]];
    assert ErasedKeys(r') == ErasedKeys(r) + {u};
    var p := Project(r);
    var q := p[u := (if u in p then p[u] else {}) + Erase(t[k])];
    forall w | w in ErasedKeys(r')
      ensures Erased(r', w) == q[w]
    {
      ErasedGrows(t, keys, k, w);
      if w !in p { NothingErased(r, w); }
    }
  }

  lemma NothingProjected(t: Table)
    ensures Project(Restrict(t, {})) == map[] && Restrict(t, t.Keys) == t
  {
    assert Restrict(t, {}) == map[];
  }

  lemma NothingErased(t: Table, u: Variable)
    requires u !in ErasedKeys(t)
    ensures Erased(t, u) == {}
  {
  }

  // ---------------------------------------------------------------------
  // The closure loop
  // ---------------------------------------------------------------------

  class VarSet {
    var elems: set<Variable>

    constructor (elems: set<Variable>)
      ensures this.elems == elems
    {
      this.elems := elems;
    }
  }

  class Context {
    var ssa: map<Variable, VarSet>
    var nonSsa: map<Variable, set<Variable>>

    constructor ()
      ensures Valid() && Contents() == map[] && Sets() == {}
    {
      ssa, nonSsa := map[], map[];
    }

    ghost predicate Valid()
      reads this
    {
      forall k, l :: k in ssa && l in ssa && k != l ==> ssa[k] != ssa[l]
    }

    ghost function Sets(): set<object>
      reads this
    {
      set k | k in ssa :: ssa[k]
    }

    ghost function Contents(): Table
      reads this, Sets()
    {
      map k | k in ssa :: ssa[k].elems
    }

    method TransitiveCloseDependencies()
      requires Valid()
      modifies this`nonSsa, Sets()
      ensures Valid() && ssa == old(ssa)
      ensures Contents() == Closure(old(Contents()))
      ensures nonSsa == Project(Contents())
    {
      hide Closure;
      hide Between;
      hide Stable;
      hide IsPass;
      hide Missing;
      hide Project;
      ghost var t0 := Contents();
      BetweenSelf(t0);
      var changed := true;
      while changed
        invariant ssa == old(ssa)
        invariant Contents().Keys == t0.Keys && Between(t0, Contents())
        invariant !changed ==> Stable(Contents())
        decreases Missing(t0, Contents()), changed
      {
        ghost var t := Contents();
        var toAdd := CollectAdditions();
        assert Contents() == t;
        PassStaysBetween(t0, t, toAdd);
        changed := ApplyAdditions(toAdd);
        if changed {
          ghost var k :| k in toAdd && toAdd[k] != {};
          PassShrinksMissing(t0, t, toAdd, k);
        } else {
          EmptyPassIsStable(t, toAdd);
        }
      }
      StableIsClosure(t0, Contents());
      ghost var final := Contents();
      var projected := ConvertToNonSsa();
      assert projected == Project(final) by { assert Contents() == final; }
      nonSsa := projected;
      assert Contents() == final;
    }

    // The first loop of a pass: to_add, computed from the table before the pass.
    method CollectAdditions() returns (toAdd: map<Variable, set<Variable>>)
      ensures IsPass(Contents(), toAdd)
    {
      ghost var t := Contents();
      toAdd := map[];
      var keys := ssa.Keys;
      while keys != {}
        invariant keys <= ssa.Keys && toAdd.Keys <= ssa.Keys - keys
        invariant forall k, v :: Further(t, k, v) && k !in keys <==> k in toAdd && v in toAdd[k]
        decreases keys
      {
        var key :| key in keys;
        var items := ssa[key].elems;
        var found: set<Variable> := {};
        var todo := items * ssa.Keys;
        while todo != {}
          invariant todo <= items * ssa.Keys
          invariant forall v :: v in found <==>
                      v != key && v !in items && OneOfLeadsTo(t, items * ssa.Keys - todo, v)
          decreases todo
        {
          var item :| item in todo;
          assert items * ssa.Keys - (todo - {item}) == (items * ssa.Keys - todo) + {item};
          LeadsToGrows(t, items * ssa.Keys - todo, item);
          found := found + (ssa[item].elems - {key} - items);
          todo := todo - {item};
        }
        forall v
          ensures v in found <==> Further(t, key, v)
        {
          FurtherLeadsTo(t, key, v);
        }
        if items * ssa.Keys != {} {
          toAdd := toAdd[key := found];
        }
        keys := keys - {key};
      }
      assert Contents() == t;
    }

    // The second loop of a pass: the sets grow in place.
    method ApplyAdditions(toAdd: map<Variable, set<Variable>>) returns (changed: bool)
      requires Valid() && toAdd.Keys <= ssa.Keys
      modifies Sets()
      ensures Contents() == Extend(old(Contents()), toAdd)
      ensures changed <==> exists k :: k in toAdd && toAdd[k] != {}
    {
      hide Extend;
      hide Restrict;
      ghost var t := Contents();
      changed := false;
      var todo := toAdd.Keys;
      ghost var done: set<Variable> := {};
      ExtendStarts(t, toAdd);
      while todo != {}
        invariant todo + done == toAdd.Keys && todo !! done
        invariant Contents() == Extend(t, Restrict(toAdd, done))
        invariant changed <==> exists k :: k in done && toAdd[k] != {}
        decreases todo
      {
        var k :| k in todo;
        var v := toAdd[k];
        ExtendGrows(t, toAdd, done, k);
        if v != {} {
          changed := true;
          Grow(k, v);
        }
        todo, done := todo - {k}, done + {k};
      }
      assert done == toAdd.Keys;
    }

    // self.context[key] |= v
    method Grow(k: Variable, v: set<Variable>)
      requires Valid() && k in ssa
      modifies ssa[k]
      ensures Contents() == old(Contents())[k := old(Contents())[k] + v]
    {
      ssa[k].elems := ssa[k].elems + v;
    }

    method ConvertToNonSsa() returns (ret: map<Variable, set<Variable>>)
      ensures ret == Project(Contents())
    {
      hide Project;
      hide Restrict;
      hide Erase;
      NothingProjected(Contents());
      ghost var t := Contents();
      ret := map[];
      var keys := ssa.Keys;
      ghost var done: set<Variable> := {};
      while keys != {}
        invariant keys + done == ssa.Keys && keys !! done
        invariant ret == Project(Restrict(t, done))
        decreases keys
      {
        var k :| k in keys;
        var u := NonSsa(k);
        if u !in ret {
          ret := ret[u := {}];
        }
        ret := ret[u := ret[u] + Erase(ssa[k].elems)];
        ProjectGrows(t, done, k);
        keys, done := keys - {k}, done + {k};
      }
      assert done == t.Keys && Contents() == t;
    }

    // contract.context[context_key][key] = set(values)
    method Adopt(key: Variable, values: set<Variable>)
      requires Valid() && key !in ssa
      modifies this`ssa
      ensures Valid() && Contents() == old(Contents())[key := values]
      ensures fresh(Sets() - old(Sets()))
    {
      var copied := new VarSet(values);
      ssa := ssa[key := copied];
    }

    // Closes the function's own table and copies it into the contract's.  The
    // source discards the union for a key the contract already has.
    method PropagateFunction(function_: Context)
      requires Valid() && function_.Valid() && function_ != this && Sets() !! function_.Sets()
      modifies this`ssa, function_`nonSsa, function_.Sets()
      ensures Valid() && function_.Valid() && Sets() !! function_.Sets()
      ensures fresh(Sets() - old(Sets())) && function_.Sets() == old(function_.Sets())
      ensures function_.Contents() == Closure(old(function_.Contents()))
      ensures function_.nonSsa == Project(function_.Contents())
      ensures Contents() == FirstWins(old(Contents()), function_.Contents())
    {
      hide Closure;
      hide Project;
      hide FirstWins;
      hide Restrict;
      function_.TransitiveCloseDependencies();
      ghost var f, c := function_.Contents(), Contents();
      var keys := function_.ssa.Keys;
      ghost var done: set<Variable> := {};
      FirstWinsStart(c, f);
      assert function_.nonSsa == Project(f);
      while keys != {}
        invariant done + keys == function_.ssa.Keys
        invariant Valid() && Sets() !! function_.Sets()
        invariant fresh(Sets() - old(Sets()))
        invariant function_.Contents() == f && function_.nonSsa == Project(f)
        invariant Contents() == FirstWins(c, Restrict(f, done))
        decreases keys
      {
        var key :| key in keys;
        var values := function_.ssa[key].elems;
        ghost var before := Contents();
        if key !in ssa {
          Adopt(key, values);
        } else {
          var _ := ssa[key].elems + values;
        }
        assert values == f[key];
        FirstWinsGrows(c, f, done, key);
        keys, done := keys - {key}, done + {key};
      }
      assert done == f.Keys;
    }
  }

  lemma ExtendStarts(t: Table, toAdd: map<Variable, set<Variable>>)
    ensures Extend(t, Restrict(toAdd, {})) == t && Restrict(toAdd, toAdd.Keys) == toAdd
  {
    assert forall k :: k in t ==> Extend(t, Restrict(toAdd, {}))[k] == t[k];
  }

  lemma ExtendGrows(t: Table, toAdd: map<Variable, set<Variable>>, keys: set<Variable>, k: Variable)
    requires k in t && k in toAdd && k !in keys
    ensures var e := Extend(t, Restrict(toAdd, keys));
            && k in e && Extend(t, Restrict(toAdd, keys + {k})) == e[k := e[k] + toAdd[k]]
            && (toAdd[k] == {} ==> e[k := e[k] + toAdd[k]] == e)
  {
    hide Extend;
    hide Restrict;
    var e, e' := Extend(t, Restrict(toAdd, keys)), Extend(t, Restrict(toAdd, keys + {k}));
    ExtendAt(t, toAdd, keys, k);
    ExtendAt(t, toAdd, keys + {k}, k);
    forall l | l in t
      ensures e'[l] == e[k := e[k] + toAdd[k]][l]
    {
      ExtendAt(t, toAdd, keys, l);
      ExtendAt(t, toAdd, keys + {k}, l);
    }
    if toAdd[k] == {} { assert e[k] + toAdd[k] == e[k]; }
  }

  lemma ExtendAt(t: Table, toAdd: map<Variable, set<Variable>>, keys: set<Variable>, l: Variable)
    requires l in t
    ensures var e := Extend(t, Restrict(toAdd, keys));
            e.Keys == t.Keys && e[l] == if l in toAdd && l in keys then t[l] + toAdd[l] else t[l]
  {
  }

  lemma FirstWinsStart(c: Table, f: Table)
    ensures FirstWins(c, Restrict(f, {})) == c && Restrict(f, f.Keys) == f
  {
  }

  lemma FirstWinsGrows(c: Table, f: Table, keys: set<Variable>, k: Variable)
    requires k in f
    ensures FirstWins(c, Restrict(f, keys + {k})) ==
            var r := FirstWins(c, Restrict(f, keys)); if k in r then r else r[k := f[k]]
  {
  }

  // a, extended by the keys of b it does not have.
  ghost function FirstWins(a: Table, b: Table): Table {
    b + a
  }

  // The contract's table before its own closure.
  ghost function MergeAll(raw: seq<Table>): Table {
    if raw == [] then map[] else FirstWins(MergeAll(raw[..|raw| - 1]), Closure(raw[|raw| - 1]))
  }

  // No two of the contexts share a set.
  ghost predicate Separate(contract: Context, functions: seq<Context>)
    reads contract, functions
  {
    && contract.Valid()
    && (forall i :: 0 <= i < |functions| ==>
          functions[i].Valid() && functions[i] != contract && contract.Sets() !! functions[i].Sets())
    && (forall i, j :: 0 <= i < j < |functions| ==>
          functions[i] != functions[j] && functions[i].Sets() !! functions[j].Sets())
  }

  ghost predicate Holds(c: Context, t: Table)
    reads c, c.Sets()
  {
    c.Contents() == t
  }

  ghost predicate HoldsClosed(c: Context, t: Table)
    reads c, c.Sets()
  {
    c.Contents() == Closure(t) && c.nonSsa == Project(c.Contents())
  }

  // `raw` are the tables before any closure.
  method ComputeDependencyContract(contract: Context, functions: seq<Context>, ghost raw: seq<Table>)
    requires Separate(contract, functions) && contract.ssa == map[]
    requires |raw| == |functions| && forall i :: 0 <= i < |raw| ==> Holds(functions[i], raw[i])
    modifies contract, functions, set i, o | 0 <= i < |functions| && o in functions[i].Sets() :: o
    ensures Separate(contract, functions)
    ensures forall i :: 0 <= i < |functions| ==> HoldsClosed(functions[i], raw[i])
    ensures HoldsClosed(contract, MergeAll(raw))
  {
    hide Closure;
    hide Project;
    hide HoldsClosed;
    hide MergeAll;
    hide Holds;
    MergeNothing(raw);
    var i := 0;
    while i < |functions|
      invariant 0 <= i <= |functions|
      invariant Separate(contract, functions) && fresh(contract.Sets())
      invariant forall j :: 0 <= j < |functions| ==> functions[j].Sets() == old(functions[j].Sets())
      invariant forall j :: 0 <= j < i ==> HoldsClosed(functions[j], raw[j])
      invariant forall j :: i <= j < |functions| ==> Holds(functions[j], raw[j])
      invariant contract.Contents() == MergeAll(raw[..i])
    {
      PropagateNext(contract, functions[i], functions, i, raw[i]);
      MergeNext(raw, i);
      i := i + 1;
    }
    assert raw[..i] == raw;
    PropagateContract(contract, functions, raw, MergeAll(raw));
  }

  // The contract's own closure touches no function's table.
  method PropagateContract(contract: Context, ghost functions: seq<Context>, ghost raw: seq<Table>, ghost t: Table)
    requires Separate(contract, functions) && contract.Contents() == t
    requires |raw| == |functions| && forall i :: 0 <= i < |raw| ==> HoldsClosed(functions[i], raw[i])
    modifies contract`nonSsa, contract.Sets()
    ensures Separate(contract, functions) && contract.Sets() == old(contract.Sets())
    ensures forall i :: 0 <= i < |raw| ==> HoldsClosed(functions[i], raw[i])
    ensures HoldsClosed(contract, t)
  {
    hide Closure;
    hide Project;
    hide HoldsClosed;
    contract.TransitiveCloseDependencies();
    ClosedHolds(contract, t);
  }

  lemma ClosedHolds(c: Context, t: Table)
    requires c.Contents() == Closure(t) && c.nonSsa == Project(c.Contents())
    ensures HoldsClosed(c, t)
  {
  }

  lemma MergeNothing(raw: seq<Table>)
    ensures MergeAll(raw[..0]) == map[]
  {
  }

  lemma MergeNext(raw: seq<Table>, i: nat)
    requires i < |raw|
    ensures MergeAll(raw[..i + 1]) == FirstWins(MergeAll(raw[..i]), Closure(raw[i]))
  {
    assert raw[..i + 1][..i] == raw[..i];
  }

  method PropagateNext(contract: Context, f: Context, ghost functions: seq<Context>, ghost i: nat, ghost t: Table)
    requires i < |functions| && f == functions[i] && Separate(contract, functions) && Holds(functions[i], t)
    modifies contract`ssa, f`nonSsa, f.Sets()
    ensures Separate(contract, functions) && fresh(contract.Sets() - old(contract.Sets()))
    ensures forall j :: 0 <= j < |functions| ==> functions[j].Sets() == old(functions[j].Sets())
    ensures HoldsClosed(functions[i], t)
    ensures contract.Contents() == FirstWins(old(contract.Contents()), Closure(t))
  {
    contract.PropagateFunction(f);
  }

  // ---------------------------------------------------------------------
  // The contract's table against the union of all functions
  // ---------------------------------------------------------------------

  // The union of the raw tables; the order of the functions does not enter.
  ghost function UnionAll(raw: seq<Table>): Table {
    map k | k in AllKeys(raw) :: AllValues(raw, k)
  }

  ghost function AllKeys(raw: seq<Table>): set<Variable> {
    set t, k | t in raw && k in t :: k
  }

  ghost function AllValues(raw: seq<Table>, k: Variable): set<Variable> {
    set t, v | t in raw && k in t && v in t[k] :: v
  }

  lemma InUnion(raw: seq<Table>, i: nat, k: Variable)
    requires i < |raw| && k in raw[i]
    ensures k in UnionAll(raw) && raw[i][k] <= UnionAll(raw)[k]
  {
  }

  // Each key of the merged table holds the closure of the first function that
  // has the key.
  lemma {:induction false} MergedValue(raw: seq<Table>, k: Variable) returns (i: nat)
    requires k in MergeAll(raw)
    ensures i < |raw| && k in raw[i] && MergeAll(raw)[k] == Closure(raw[i])[k]
    ensures forall j :: 0 <= j < i ==> k !in raw[j]
  {
    var n := |raw| - 1;
    if k in MergeAll(raw[..n]) {
      i := MergedValue(raw[..n], k);
    } else {
      i := n;
      forall j | 0 <= j < n
        ensures k !in raw[j]
      {
        if k in raw[j] { MergedKey(raw[..n], j, k); }
      }
    }
  }

  lemma {:induction false} MergedKey(raw: seq<Table>, i: nat, k: Variable)
    requires i < |raw| && k in raw[i]
    ensures k in MergeAll(raw)
  {
    var n := |raw| - 1;
    if i < n { MergedKey(raw[..n], i, k); }
  }

  lemma MergedKeys(raw: seq<Table>)
    ensures MergeAll(raw).Keys == UnionAll(raw).Keys
  {
  }

  ghost predicate Below(a: Table, b: Table) {
    a.Keys == b.Keys && forall k :: k in a ==> a[k] <= b[k]
  }

  // If every entry of a lies in the closure of b, so does the closure of a.
  lemma ClosureBelow(a: Table, b: Table)
    requires Below(a, Closure(b))
    ensures Below(Closure(a), Closure(b))
  {
    forall x, y | Edge(a, x, y)
      ensures Reach(b, x, y)
    {
      ClosureReaches(b, x, y);
    }
    forall k, v | k in a && v in Closure(a)[k]
      ensures v in Closure(b)[k]
    {
      if v !in a[k] {
        ReachMaps(a, b, x => x, k, v);
        ReachInClosure(b, k, v);
      }
    }
  }

  lemma MergedBelowUnion(raw: seq<Table>)
    ensures Below(Closure(MergeAll(raw)), Closure(UnionAll(raw)))
  {
    var u := UnionAll(raw);
    MergedKeys(raw);
    forall k, v | k in MergeAll(raw) && v in MergeAll(raw)[k]
      ensures v in Closure(u)[k]
    {
      var i := MergedValue(raw, k);
      InUnion(raw, i, k);
      if v !in raw[i][k] {
        forall x, y | Edge(raw[i], x, y)
          ensures Reach(u, x, y)
        {
          InUnion(raw, i, x);
          ReachEdge(u, x, y);
        }
        ReachMaps(raw[i], u, x => x, k, v);
        ReachInClosure(u, k, v);
      }
    }
    ClosureBelow(MergeAll(raw), u);
  }

  // Whatever line 387 discards is recovered by closing what was kept.
  ghost predicate NothingLost(raw: seq<Table>) {
    forall i, k :: 0 <= i < |raw| && k in raw[i] ==>
                   k in MergeAll(raw) && raw[i][k] <= Closure(MergeAll(raw))[k]
  }

  // The contract's table is the closure of all functions' dependencies if and
  // only if nothing is lost; what that takes of the tables is said below.
  lemma ClosureKeepsUnion(raw: seq<Table>)
    ensures Closure(MergeAll(raw)) == Closure(UnionAll(raw)) <==> NothingLost(raw)
  {
    hide Closure;
    hide MergeAll;
    var m, u := MergeAll(raw), UnionAll(raw);
    MergedBelowUnion(raw);
    if NothingLost(raw) {
      forall k, v | k in u && v in u[k]
        ensures v in Closure(m)[k]
      {
        var t :| t in raw && k in t && v in t[k];
        var i :| 0 <= i < |raw| && raw[i] == t;
      }
      ClosureBelow(u, m);
      assert forall k :: k in Closure(u) ==> Closure(u)[k] == Closure(m)[k];
      assert Closure(u).Keys == Closure(m).Keys;
    }
    if Closure(m) == Closure(u) {
      forall i, k | 0 <= i < |raw| && k in raw[i]
        ensures k in m && raw[i][k] <= Closure(m)[k]
      {
        InUnion(raw, i, k);
        assert Closure(u)[k] == Closure(m)[k];
      }
    }
  }

  // ---------------------------------------------------------------------
  // What the functions' own tables must satisfy
  // ---------------------------------------------------------------------

  // Keys are compared by identity, as neither StateIRVariable nor its bases
  // define __eq__.  Two functions share one when a reference in both points to
  // the same object: an instance of a state variable that the SSA construction
  // hands on from function to function, a contract, or an enum.
  ghost predicate IsFirst(raw: seq<Table>, k: Variable, i: nat) {
    i < |raw| && k in raw[i] && forall j :: 0 <= j < i ==> k !in raw[j]
  }

  // y is reached from x within the first table that has x.
  ghost predicate Hop(raw: seq<Table>, x: Variable, y: Variable) {
    exists i: nat :: IsFirst(raw, x, i) && Reach(raw[i], x, y)
  }

  ghost predicate Hops(raw: seq<Table>, p: seq<Variable>) {
    |p| > 0 && forall i :: 0 <= i < |p| - 1 ==> Hop(raw, p[i], p[i + 1])
  }

  ghost predicate HopsTo(raw: seq<Table>, x: Variable, y: Variable) {
    exists p :: Hops(raw, p) && p[0] == x && p[|p| - 1] == y
  }

  // The first tables alone make k depend on v.
  ghost predicate Known(raw: seq<Table>, k: Variable, v: Variable) {
    if v == k then exists f: nat :: IsFirst(raw, k, f) && k in raw[f][k] else HopsTo(raw, k, v)
  }

  // Every entry of a table whose key an earlier table has is known without it.
  ghost predicate LaterTablesAddNothing(raw: seq<Table>) {
    forall i, k :: 0 <= i < |raw| && k in raw[i] && !IsFirst(raw, k, i) ==> AllKnown(raw, k, raw[i][k])
  }

  ghost predicate AllKnown(raw: seq<Table>, k: Variable, vs: set<Variable>) {
    forall v :: v in vs ==> Known(raw, k, v)
  }

  lemma FirstIsUnique(raw: seq<Table>, k: Variable, i: nat, j: nat)
    requires IsFirst(raw, k, i) && IsFirst(raw, k, j)
    ensures i == j
  {
  }

  lemma MergedFromFirst(raw: seq<Table>, k: Variable, i: nat)
    requires IsFirst(raw, k, i)
    ensures k in MergeAll(raw) && MergeAll(raw)[k] == Closure(raw[i])[k]
  {
    MergedKey(raw, i, k);
    var j := MergedValue(raw, k);
    FirstIsUnique(raw, k, i, j);
  }

  // The merged table has an edge where there is a hop.
  lemma EdgeIffHop(raw: seq<Table>, x: Variable, y: Variable)
    ensures Edge(MergeAll(raw), x, y) ==> Hop(raw, x, y)
    ensures Hop(raw, x, y) && x != y ==> Edge(MergeAll(raw), x, y)
  {
    hide Reach;
    hide MergeAll;
    hide Closure;
    if x in MergeAll(raw) {
      var i := MergedValue(raw, x);
      if y in MergeAll(raw)[x] { ClosureReaches(raw[i], x, y); }
    }
    if Hop(raw, x, y) && x != y {
      var i: nat :| IsFirst(raw, x, i) && Reach(raw[i], x, y);
      MergedFromFirst(raw, x, i);
      ReachInClosure(raw[i], x, y);
    }
  }

  lemma {:induction false} HopsReach(raw: seq<Table>, p: seq<Variable>)
    requires Hops(raw, p)
    ensures Reach(MergeAll(raw), p[0], p[|p| - 1])
    decreases |p|
  {
    hide Reach;
    hide MergeAll;
    hide Hop;
    var m := MergeAll(raw);
    if |p| == 1 {
      ReachRefl(m, p[0]);
    } else {
      var q := p[1..];
      forall i | 0 <= i < |q| - 1
        ensures Hop(raw, q[i], q[i + 1])
      {
        assert Hop(raw, p[i + 1], p[i + 1 + 1]);
      }
      HopsReach(raw, q);
      assert Hop(raw, p[0], p[0 + 1]);
      EdgeIffHop(raw, p[0], p[1]);
      if p[0] != p[1] {
        ReachEdge(m, p[0], p[1]);
        ReachTrans(m, p[0], p[1], p[|p| - 1]);
      }
    }
  }

  lemma ReachIffHops(raw: seq<Table>, x: Variable, y: Variable)
    ensures Reach(MergeAll(raw), x, y) <==> HopsTo(raw, x, y)
  {
    hide MergeAll;
    hide Hop;
    if Reach(MergeAll(raw), x, y) {
      var p :| IsPath(MergeAll(raw), p) && p[0] == x && p[|p| - 1] == y;
      forall i | 0 <= i < |p| - 1
        ensures Hop(raw, p[i], p[i + 1])
      {
        assert Edge(MergeAll(raw), p[i], p[i + 1]);
        EdgeIffHop(raw, p[i], p[i + 1]);
      }
      assert Hops(raw, p);
    }
    if HopsTo(raw, x, y) {
      var p :| Hops(raw, p) && p[0] == x && p[|p| - 1] == y;
      HopsReach(raw, p);
    }
  }

  lemma ClosureMember(t: Table, k: Variable, v: Variable)
    requires k in t
    ensures v in Closure(t)[k] <==> v in t[k] || (v != k && Reach(t, k, v))
  {
    if v != k && Reach(t, k, v) { ReachInClosure(t, k, v); }
  }

  // What the contract's table ends with for k.
  lemma InClosedMerge(raw: seq<Table>, k: Variable, v: Variable)
    requires k in MergeAll(raw)
    ensures v in Closure(MergeAll(raw))[k] <==> Known(raw, k, v)
  {
    hide Reach;
    hide MergeAll;
    hide Closure;
    hide HopsTo;
    ClosureMember(MergeAll(raw), k, v);
    if v == k {
      var i := MergedValue(raw, k);
      assert IsFirst(raw, k, i);
      ClosureMember(raw[i], k, k);
      forall f: nat | IsFirst(raw, k, f)
        ensures f == i
      {
        FirstIsUnique(raw, k, f, i);
      }
    } else {
      ReachIffHops(raw, k, v);
      if v in MergeAll(raw)[k] {
        assert Edge(MergeAll(raw), k, v);
        ReachEdge(MergeAll(raw), k, v);
      }
    }
  }

  lemma NothingLostIffKnown(raw: seq<Table>)
    ensures NothingLost(raw) <==> LaterTablesAddNothing(raw)
  {
    hide MergeAll;
    hide Closure;
    hide Known;
    forall i, k | 0 <= i < |raw| && k in raw[i]
      ensures k in MergeAll(raw)
      ensures raw[i][k] <= Closure(MergeAll(raw))[k] <==> AllKnown(raw, k, raw[i][k])
      ensures IsFirst(raw, k, i) ==> raw[i][k] <= Closure(MergeAll(raw))[k]
    {
      MergedKey(raw, i, k);
      forall v
        ensures v in Closure(MergeAll(raw))[k] <==> Known(raw, k, v)
      {
        InClosedMerge(raw, k, v);
      }
      if IsFirst(raw, k, i) { MergedFromFirst(raw, k, i); }
    }
  }

  // The contract's table is the closure of all functions' dependencies if and
  // only if every table that comes later for a key adds nothing to it: a
  // self-dependency must be in the first table for the key, anything else must
  // be reached by hops within first tables.
  lemma ContractTableExact(raw: seq<Table>)
    ensures Closure(MergeAll(raw)) == Closure(UnionAll(raw)) <==> LaterTablesAddNothing(raw)
  {
    hide *;
    ClosureKeepsUnion(raw);
    NothingLostIffKnown(raw);
  }

  ghost predicate DisjointKeys(raw: seq<Table>) {
    forall i, j, k :: 0 <= i < j < |raw| && k in raw[i] ==> k !in raw[j]
  }

  lemma DisjointKeysLoseNothing(raw: seq<Table>)
    requires DisjointKeys(raw)
    ensures NothingLost(raw)
    ensures Closure(MergeAll(raw)) == Closure(UnionAll(raw))
  {
    hide Closure;
    hide MergeAll;
    forall i, k | 0 <= i < |raw| && k in raw[i]
      ensures k in MergeAll(raw) && raw[i][k] <= Closure(MergeAll(raw))[k]
    {
      MergedKey(raw, i, k);
      var j := MergedValue(raw, k);
      assert j == i;
    }
    ClosureKeepsUnion(raw);
  }

  // With disjoint keys the order of the functions does not matter.
  lemma FunctionOrderIrrelevant(raw: seq<Table>, raw': seq<Table>)
    requires DisjointKeys(raw) && DisjointKeys(raw')
    requires forall t :: t in raw <==> t in raw'
    ensures Closure(MergeAll(raw)) == Closure(MergeAll(raw'))
  {
    hide Closure;
    hide MergeAll;
    DisjointKeysLoseNothing(raw);
    DisjointKeysLoseNothing(raw');
    UnionUnordered(raw, raw');
  }

  lemma UnionUnordered(raw: seq<Table>, raw': seq<Table>)
    requires forall t :: t in raw <==> t in raw'
    ensures UnionAll(raw) == UnionAll(raw')
  {
    assert AllKeys(raw) == AllKeys(raw');
    forall k
      ensures AllValues(raw, k) == AllValues(raw', k)
    {
    }
  }

  // Two functions that share a key: the second one's dependency is lost.
  lemma SharedKeyLosesDependency(x: Variable, y: Variable, z: Variable)
    requires x != y && y != z && x != z
    ensures var raw := [map[x := {y}], map[x := {z}]];
            x in UnionAll(raw) && z in Closure(UnionAll(raw))[x] &&
            x in MergeAll(raw) && z !in Closure(MergeAll(raw))[x]
  {
    hide MergeAll;
    hide Closure;
    hide Known;
    var f, g: Table := map[x := {y}], map[x := {z}];
    var raw := [f, g];
    assert raw[0] == f && raw[1] == g;
    InUnion(raw, 1, x);
    MergedKey(raw, 0, x);
    InClosedMerge(raw, x, z);
    NotKnown(x, y, z);
  }

  lemma NotKnown(x: Variable, y: Variable, z: Variable)
    requires x != y && y != z && x != z
    ensures !Known([map[x := {y}], map[x := {z}]], x, z)
  {
    hide Reach;
    var f, g: Table := map[x := {y}], map[x := {z}];
    var raw := [f, g];
    assert raw[0] == f;
    forall a, b | a in {x, y} && Hop(raw, a, b)
      ensures b in {x, y}
    {
      var i: nat :| IsFirst(raw, a, i) && Reach(raw[i], a, b);
      FirstIsUnique(raw, x, i, 0);
      ClosedReach(f, {x, y}, a, b);
    }
    forall p | Hops(raw, p) && p[0] == x
      ensures p[|p| - 1] != z
    {
      HopsStay(raw, p, {x, y});
    }
  }

  lemma {:induction false} HopsStay(raw: seq<Table>, p: seq<Variable>, s: set<Variable>)
    requires Hops(raw, p) && p[0] in s && forall a, b :: a in s && Hop(raw, a, b) ==> b in s
    ensures p[|p| - 1] in s
    decreases |p|
  {
    hide Hop;
    if |p| > 1 {
      var q := p[..|p| - 1];
      forall i | 0 <= i < |q| - 1
        ensures Hop(raw, q[i], q[i + 1])
      {
        assert Hop(raw, p[i], p[i + 1]);
      }
      HopsStay(raw, q, s);
      assert Hop(raw, p[|p| - 2], p[|p| - 2 + 1]);
    }
  }

  // ---------------------------------------------------------------------
  // Erasing versions
  // ---------------------------------------------------------------------

  // u depends on w without versions exactly when some versions of them do.
  lemma ErasedRelates(t: Table, u: Variable, w: Variable)
    ensures Edge(Project(t), u, w) <==> exists k, v :: Edge(t, k, v) && NonSsa(k) == u && NonSsa(v) == w
  {
  }

  // Every version of a variable has the same form without version, and only
  // versions of one variable share it.
  lemma VersionsAreErased(v: Variable, w: Variable)
    ensures NonSsa(v) == Plain(v.name)
    ensures NonSsa(v) == NonSsa(w) <==> v.name == w.name
  {
  }

  // The same by names: the projection relates plain variables only, and x to y
  // exactly when something called x depends on something called y.
  lemma ErasedByName(t: Table, u: Variable, w: Variable)
    ensures Edge(Project(t), u, w) <==>
            u.Plain? && w.Plain? && exists k, v :: Edge(t, k, v) && k.name == u.name && v.name == w.name
  {
    hide Project;
    ErasedRelates(t, u, w);
    forall k, v | Edge(t, k, v)
      ensures NonSsa(k) == u && NonSsa(v) == w <==> u.Plain? && w.Plain? && k.name == u.name && v.name == w.name
    {
    }
  }

  // Closing first and erasing then never relates more than the erased graph
  // connects.
  lemma CloseThenProjectIsFiner(t: Table, u: Variable, w: Variable)
    requires Edge(Project(Closure(t)), u, w)
    ensures ReachPlus(Project(t), u, w)
  {
    hide Reach;
    hide Project;
    hide Closure;
    var h := Project(t);
    ErasedRelates(Closure(t), u, w);
    var k, v :| Edge(Closure(t), k, v) && NonSsa(k) == u && NonSsa(v) == w;
    EdgesErase(t);
    assert k in t by { KeysClosed(t); }
    ClosureMember(t, k, v);
    if v in t[k] {
      assert Edge(t, k, v);
      ErasedRelates(t, u, w);
      ReachRefl(h, w);
    } else {
      FirstAndLastEdge(t, k, v);
      var x :| Edge(t, k, x) && Reach(t, x, v);
      ReachMaps(t, h, NonSsa, x, v);
      ErasedRelates(t, u, NonSsa(x));
    }
  }

  lemma KeysClosed(t: Table)
    ensures Closure(t).Keys == t.Keys
  {
  }

  lemma EdgesErase(t: Table)
    ensures forall x, y :: Edge(t, x, y) ==> Reach(Project(t), NonSsa(x), NonSsa(y))
  {
    hide Reach;
    hide Project;
    forall x, y | Edge(t, x, y)
      ensures Reach(Project(t), NonSsa(x), NonSsa(y))
    {
      ErasedRelates(t, NonSsa(x), NonSsa(y));
      ReachEdge(Project(t), NonSsa(x), NonSsa(y));
    }
  }

  // It can relate less: version 1 of b feeds a, but only version 2 reads c.
  lemma CloseThenProjectIsStrictlyFiner(a: int, b: int, c: int)
    requires a != b && b != c && a != c
    ensures var t: Table := map[Ssa(a, 1) := {Ssa(b, 1)}, Ssa(b, 2) := {Ssa(c, 1)}];
            ReachPlus(Project(t), Plain(a), Plain(c)) && !Edge(Project(Closure(t)), Plain(a), Plain(c))
  {
    var t: Table := map[Ssa(a, 1) := {Ssa(b, 1)}, Ssa(b, 2) := {Ssa(c, 1)}];
    var h := Project(t);
    hide Reach;
    hide Project;
    hide Closure;
    assert Edge(t, Ssa(a, 1), Ssa(b, 1)) && Edge(t, Ssa(b, 2), Ssa(c, 1));
    ErasedRelates(t, Plain(a), Plain(b));
    ErasedRelates(t, Plain(b), Plain(c));
    ReachEdge(h, Plain(b), Plain(c));
    if Edge(Project(Closure(t)), Plain(a), Plain(c)) {
      ErasedRelates(Closure(t), Plain(a), Plain(c));
      var k, v :| Edge(Closure(t), k, v) && NonSsa(k) == Plain(a) && NonSsa(v) == Plain(c);
      assert k == Ssa(a, 1);
      ClosureReaches(t, k, v);
      ClosedReach(t, {Ssa(a, 1), Ssa(b, 1)}, k, v);
    }
  }
}
