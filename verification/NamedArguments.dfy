// Reordering the named arguments of a call into declaration order
// (slither/slithir/convert.py, reorder_arguments).
module NamedArguments {
  import opened Options

  type Name = int
  type Variable = int

  // list.index: the first position of n.
  function IndexOf(names: seq<Name>, n: Name): (r: Option<nat>)
    ensures r.Some? ==> r.value < |names| && names[r.value] == n && forall i :: 0 <= i < r.value ==> names[i] != n
    ensures r.None? ==> forall i :: 0 <= i < |names| ==> names[i] != n
  {
    if |names| == 0 then None
    else if names[0] == n then Some(0)
    else
      var r := IndexOf(names[1..], n);
      if r.Some? then Some(r.value + 1) else None
  }

  // index_seen after the first k names of one declaration.
  function Scan(callNames: seq<Name>, decl: seq<Name>, k: nat, seen: seq<nat>): (r: Option<seq<nat>>)
    requires k <= |decl|
  {
    if k == 0 then Some(seen)
    else
      var before := Scan(callNames, decl, k - 1, seen);
      if before.None? then None
      else
        var i := IndexOf(callNames, decl[k - 1]);
        if i.None? then None
        else if i.value in before.value then before
        else Some(before.value + [i.value])
  }

  // A declaration with an unknown name clears what was seen.
  function ScanAll(callNames: seq<Name>, decls: seq<seq<Name>>, k: nat): seq<nat>
    requires k <= |decls|
  {
    if k == 0 then []
    else
      var seen := ScanAll(callNames, decls, k - 1);
      if |seen| == |callNames| then seen
      else
        var r := Scan(callNames, decls[k - 1], |decls[k - 1]|, seen);
        if r.Some? then r.value else []
  }

  ghost predicate InRange(seen: seq<nat>, n: nat) {
    forall i :: 0 <= i < |seen| ==> seen[i] < n
  }

  lemma {:induction false} ScanInRange(callNames: seq<Name>, decl: seq<Name>, k: nat, seen: seq<nat>)
    requires k <= |decl| && InRange(seen, |callNames|)
    ensures var r := Scan(callNames, decl, k, seen); r.Some? ==> InRange(r.value, |callNames|)
  {
    if k > 0 { ScanInRange(callNames, decl, k - 1, seen); }
  }

  lemma {:induction false} ScanAllInRange(callNames: seq<Name>, decls: seq<seq<Name>>, k: nat)
    requires k <= |decls|
    ensures InRange(ScanAll(callNames, decls, k), |callNames|)
  {
    if k > 0 {
      ScanAllInRange(callNames, decls, k - 1);
      ScanInRange(callNames, decls[k - 1], |decls[k - 1]|, ScanAll(callNames, decls, k - 1));
    }
  }

  function Gather(args: seq<Variable>, seen: seq<nat>): seq<Variable>
    requires InRange(seen, |args|)
  {
    seq(|seen|, i requires 0 <= i < |seen| => args[seen[i]])
  }

  // The assertions at the top of the source.
  predicate SameLengths(args: seq<Variable>, callNames: seq<Name>, decls: seq<seq<Name>>) {
    |args| == |callNames| && forall i :: 0 <= i < |decls| ==> |decls[i]| == |callNames|
  }

  function Reordered(args: seq<Variable>, callNames: seq<Name>, decls: seq<seq<Name>>): seq<Variable>
    requires SameLengths(args, callNames, decls)
  {
    ScanAllInRange(callNames, decls, |decls|);
    Gather(args, ScanAll(callNames, decls, |decls|))
  }

  method ReorderArguments(args: seq<Variable>, callNames: seq<Name>, decls: seq<seq<Name>>) returns (ret: seq<Variable>)
    requires SameLengths(args, callNames, decls)
    ensures ret == Reordered(args, callNames, decls)
  {
    var indexSeen: seq<nat> := [];
    var d := 0;
    while d < |decls| && |indexSeen| != |args|
      invariant 0 <= d <= |decls| && indexSeen == ScanAll(callNames, decls, d)
    {
      var names := decls[d];
      ghost var start := indexSeen;
      var k := 0;
      while k < |names|
        invariant 0 <= k <= |names| && Scan(callNames, names, k, start) == Some(indexSeen)
      {
        var ind := IndexOf(callNames, names[k]);
        if ind.None? {
          ScanFails(callNames, names, k + 1, start);
          indexSeen := [];
          break;
        }
        if ind.value !in indexSeen {
          indexSeen := indexSeen + [ind.value];
        }
        k := k + 1;
      }
      d := d + 1;
    }
    ScanAllStops(callNames, decls, d);
    ScanAllInRange(callNames, decls, |decls|);
    ret := Collect(args, indexSeen);
  }

  // for ind in index_seen: args_ret.append(args[ind])
  method Collect(args: seq<Variable>, indexSeen: seq<nat>) returns (ret: seq<Variable>)
    requires InRange(indexSeen, |args|)
    ensures ret == Gather(args, indexSeen)
  {
    ret := [];
    for i := 0 to |indexSeen|
      invariant ret == Gather(args, indexSeen)[..i]
    {
      ret := ret + [args[indexSeen[i]]];
    }
  }

  lemma {:induction false} ScanFails(callNames: seq<Name>, decl: seq<Name>, k: nat, seen: seq<nat>)
    requires k <= |decl| && Scan(callNames, decl, k, seen).None?
    ensures Scan(callNames, decl, |decl|, seen).None?
    decreases |decl| - k
  {
    if k < |decl| { ScanFails(callNames, decl, k + 1, seen); }
  }

  lemma {:induction false} ScanAllStops(callNames: seq<Name>, decls: seq<seq<Name>>, k: nat)
    requires k <= |decls| && (k == |decls| || |ScanAll(callNames, decls, k)| == |callNames|)
    ensures ScanAll(callNames, decls, |decls|) == ScanAll(callNames, decls, k)
    decreases |decls| - k
  {
    if k < |decls| { ScanAllStops(callNames, decls, k + 1); }
  }

  // ---------------------------------------------------------------------
  // Which declaration decides
  // ---------------------------------------------------------------------

  ghost predicate Distinct(names: seq<Name>) {
    forall i, j :: 0 <= i < j < |names| ==> names[i] != names[j]
  }

  // The declaration uses exactly the names of the call.
  ghost predicate Compatible(callNames: seq<Name>, decl: seq<Name>) {
    forall k :: 0 <= k < |decl| ==> IndexOf(callNames, decl[k]).Some?
  }

  // A declaration that fits the call names no parameter twice.  Parameters
  // without a name, all called alike, fit no call.
  ghost predicate Unambiguous(callNames: seq<Name>, decls: seq<seq<Name>>) {
    forall i :: 0 <= i < |decls| && Compatible(callNames, decls[i]) ==> Distinct(decls[i])
  }

  ghost function Places(callNames: seq<Name>, decl: seq<Name>): seq<nat>
    requires Compatible(callNames, decl)
  {
    seq(|decl|, k requires 0 <= k < |decl| => IndexOf(callNames, decl[k]).value)
  }

  lemma {:induction false} ScanFromScratch(callNames: seq<Name>, decl: seq<Name>, k: nat)
    requires k <= |decl| && (Compatible(callNames, decl) ==> Distinct(decl))
    ensures var r := Scan(callNames, decl, k, []);
            Compatible(callNames, decl) ==>
              r.Some? && |r.value| == k && forall j :: 0 <= j < k ==> r.value[j] == IndexOf(callNames, decl[j]).value
  {
    if k > 0 && Compatible(callNames, decl) {
      ScanFromScratch(callNames, decl, k - 1);
      var before := Scan(callNames, decl, k - 1, []);
      var i := IndexOf(callNames, decl[k - 1]);
      forall j | 0 <= j < k - 1
        ensures before.value[j] != i.value
      {
        assert callNames[before.value[j]] == decl[j];
      }
    }
  }

  lemma {:induction false} UnknownNameClears(callNames: seq<Name>, decl: seq<Name>, seen: seq<nat>)
    requires !Compatible(callNames, decl)
    ensures Scan(callNames, decl, |decl|, seen).None?
  {
    var k :| 0 <= k < |decl| && IndexOf(callNames, decl[k]).None?;
    assert Scan(callNames, decl, k + 1, seen).None?;
    ScanFails(callNames, decl, k + 1, seen);
  }

  // The first compatible declaration fixes the order.  If there is none every
  // argument is dropped.
  lemma {:induction false} FirstCompatibleDecides(callNames: seq<Name>, decls: seq<seq<Name>>, k: nat)
    requires k <= |decls| && Unambiguous(callNames, decls)
    requires forall i :: 0 <= i < |decls| ==> |decls[i]| == |callNames|
    ensures (exists i :: 0 <= i < k && Compatible(callNames, decls[i])) ==>
              exists i :: 0 <= i < k && Compatible(callNames, decls[i])
                          && (forall j :: 0 <= j < i ==> !Compatible(callNames, decls[j]))
                          && ScanAll(callNames, decls, k) == Places(callNames, decls[i])
    ensures (forall i :: 0 <= i < k ==> !Compatible(callNames, decls[i])) ==> ScanAll(callNames, decls, k) == []
  {
    if k > 0 {
      FirstCompatibleDecides(callNames, decls, k - 1);
      var decl := decls[k - 1];
      ScanFromScratch(callNames, decl, |decl|);
      if !Compatible(callNames, decl) { UnknownNameClears(callNames, decl, []); }
      if forall i :: 0 <= i < k - 1 ==> !Compatible(callNames, decls[i]) {
        if Compatible(callNames, decl) {
          assert ScanAll(callNames, decls, k) == Places(callNames, decl);
        }
      } else {
        var i :| 0 <= i < k - 1 && Compatible(callNames, decls[i])
                 && (forall j :: 0 <= j < i ==> !Compatible(callNames, decls[j]))
                 && ScanAll(callNames, decls, k - 1) == Places(callNames, decls[i]);
        assert ScanAll(callNames, decls, k) == Places(callNames, decls[i]);
      }
    }
  }

  // No argument is lost or repeated if and only if some declaration is
  // compatible, or there is nothing to reorder.
  lemma ReorderKeepsArguments(args: seq<Variable>, callNames: seq<Name>, decls: seq<seq<Name>>)
    requires SameLengths(args, callNames, decls) && Unambiguous(callNames, decls)
    ensures multiset(Reordered(args, callNames, decls)) == multiset(args) <==>
            |args| == 0 || exists i :: 0 <= i < |decls| && Compatible(callNames, decls[i])
  {
    var ret := Reordered(args, callNames, decls);
    FirstCompatibleDecides(callNames, decls, |decls|);
    if i :| 0 <= i < |decls| && Compatible(callNames, decls[i])
            && ScanAll(callNames, decls, |decls|) == Places(callNames, decls[i]) {
      var p := Places(callNames, decls[i]);
      forall x, y | 0 <= x < y < |p|
        ensures p[x] != p[y]
      {
        assert callNames[p[x]] == decls[i][x] && callNames[p[y]] == decls[i][y];
      }
      assert Injective(p);
      PermutationGathers(args, p);
    } else {
      assert ret == [];
      assert |multiset(args)| == |args|;
    }
  }

  // The i-th declaration is the first whose names are all among the call's.
  ghost predicate FitsFirst(callNames: seq<Name>, decls: seq<seq<Name>>, i: nat) {
    && i < |decls|
    && (forall k :: 0 <= k < |decls[i]| ==> decls[i][k] in callNames)
    && (forall j :: 0 <= j < i ==> exists k :: 0 <= k < |decls[j]| && decls[j][k] !in callNames)
  }

  // Every parameter of the declaration receives the argument given under its
  // name.
  ghost predicate GivenByName(args: seq<Variable>, callNames: seq<Name>, decl: seq<Name>, ret: seq<Variable>)
    requires |args| == |callNames|
  {
    |ret| == |decl| && forall k :: 0 <= k < |decl| ==> Gave(args, callNames, decl[k], ret[k])
  }

  // The call gave x under the name n.
  ghost predicate Gave(args: seq<Variable>, callNames: seq<Name>, n: Name, x: Variable)
    requires |args| == |callNames|
  {
    exists j :: 0 <= j < |callNames| && callNames[j] == n && args[j] == x
  }

  lemma CompatibleMeans(callNames: seq<Name>, decl: seq<Name>)
    ensures Compatible(callNames, decl) <==> forall k :: 0 <= k < |decl| ==> decl[k] in callNames
  {
    forall k | 0 <= k < |decl|
      ensures IndexOf(callNames, decl[k]).Some? <==> decl[k] in callNames
    {
    }
  }

  // The arguments come as the first declaration that fits asks for them.
  lemma EachTakesItsName(args: seq<Variable>, callNames: seq<Name>, decls: seq<seq<Name>>, i: nat)
    requires SameLengths(args, callNames, decls) && Unambiguous(callNames, decls) && FitsFirst(callNames, decls, i)
    ensures GivenByName(args, callNames, decls[i], Reordered(args, callNames, decls))
  {
    hide ScanAll;
    hide Compatible;
    forall j | 0 <= j <= i
      ensures Compatible(callNames, decls[j]) <==> j == i
    {
      CompatibleMeans(callNames, decls[j]);
    }
    assert Compatible(callNames, decls[i]);
    FirstCompatibleDecides(callNames, decls, |decls|);
    var first :| 0 <= first < |decls| && Compatible(callNames, decls[first])
                 && (forall j :: 0 <= j < first ==> !Compatible(callNames, decls[j]))
                 && ScanAll(callNames, decls, |decls|) == Places(callNames, decls[first]);
    assert first == i;
    PlacesGive(args, callNames, decls[i]);
  }

  lemma PlacesGive(args: seq<Variable>, callNames: seq<Name>, decl: seq<Name>)
    requires |args| == |callNames| && Compatible(callNames, decl)
    ensures InRange(Places(callNames, decl), |args|)
    ensures GivenByName(args, callNames, decl, Gather(args, Places(callNames, decl)))
  {
    var p := Places(callNames, decl);
    assert forall k :: 0 <= k < |decl| ==> p[k] < |args| && callNames[p[k]] == decl[k];
    assert InRange(p, |args|);
    var ret := Gather(args, p);
    forall k | 0 <= k < |decl|
      ensures Gave(args, callNames, decl[k], ret[k])
    {
      assert ret[k] == args[p[k]];
    }
  }

  // `decl`, at position i, is the declaration that the call was written
  // against; among the others are overrides of the same function.  The
  // arguments come in its order if and only if no compatible declaration
  // before it puts the names in another order.
  lemma IntendedOrderExact(callNames: seq<Name>, decls: seq<seq<Name>>, i: nat)
    requires i < |decls| && Compatible(callNames, decls[i]) && Unambiguous(callNames, decls)
    requires forall j :: 0 <= j < |decls| ==> |decls[j]| == |callNames|
    ensures ScanAll(callNames, decls, |decls|) == Places(callNames, decls[i]) <==> FirstToFit(callNames, decls, i)
  {
    hide ScanAll;
    hide Places;
    FirstCompatibleDecides(callNames, decls, |decls|);
    var first :| 0 <= first < |decls| && Compatible(callNames, decls[first])
                 && (forall j :: 0 <= j < first ==> !Compatible(callNames, decls[j]))
                 && ScanAll(callNames, decls, |decls|) == Places(callNames, decls[first]);
    PlacesDetermine(callNames, decls[first], decls[i]);
    assert first <= i;
  }

  // The first declaration that fits the call lists the names as the i-th does.
  ghost predicate FirstToFit(callNames: seq<Name>, decls: seq<seq<Name>>, i: nat)
    requires i < |decls|
  {
    exists first :: 0 <= first <= i && Compatible(callNames, decls[first]) && decls[first] == decls[i]
                    && forall j :: 0 <= j < first ==> !Compatible(callNames, decls[j])
  }

  lemma PlacesDetermine(callNames: seq<Name>, d: seq<Name>, d': seq<Name>)
    requires Compatible(callNames, d) && Compatible(callNames, d') && |d| == |d'|
    ensures Places(callNames, d) == Places(callNames, d') <==> d == d'
  {
    if Places(callNames, d) == Places(callNames, d') {
      forall k | 0 <= k < |d|
        ensures d[k] == d'[k]
      {
        assert d[k] == callNames[Places(callNames, d)[k]] && d'[k] == callNames[Places(callNames, d')[k]];
      }
    }
  }

  // f({a: x, b: y}) written against f(a, b), overridden as f(b, a): the
  // override comes first and x and y change places.
  lemma SwappedOverrideMisorders(a: Name, b: Name, x: Variable, y: Variable)
    requires a != b && x != y
    ensures var names, decls := [a, b], [[b, a], [a, b]];
            && SameLengths([x, y], names, decls) && Compatible(names, decls[1]) && Unambiguous(names, decls)
            && Gather([x, y], Places(names, decls[1])) == [x, y]
            && Reordered([x, y], names, decls) == [y, x]
  {
    var names, decls := [a, b], [[b, a], [a, b]];
    assert IndexOf(names, a) == Some(0) && IndexOf(names, b) == Some(1);
    FirstCompatibleDecides(names, decls, 2);
    assert Compatible(names, decls[0]);
    assert ScanAll(names, decls, 2) == Places(names, decls[0]) == [1, 0];
  }

  ghost predicate Injective(p: seq<nat>) {
    forall x, y :: 0 <= x < y < |p| ==> p[x] != p[y]
  }

  // Gathering along distinct positions that are as many as there are elements
  // is a permutation.
  lemma PermutationGathers(args: seq<Variable>, p: seq<nat>)
    requires |p| == |args| && InRange(p, |args|) && Injective(p)
    ensures multiset(Gather(args, p)) == multiset(args)
  {
    GatherIsPart(args, p);
    var g, a := multiset(Gather(args, p)), multiset(args);
    assert a == g + (a - g);
    assert |a| == |g| + |a - g|;
    assert |a - g| == 0;
  }

  lemma {:induction false} GatherIsPart(args: seq<Variable>, p: seq<nat>)
    requires InRange(p, |args|) && Injective(p)
    ensures multiset(Gather(args, p)) <= multiset(args)
    decreases |args|
  {
    if |p| == 0 {
      assert Gather(args, p) == [];
    } else {
      assert p[0] < |args|;
      var m := |args| - 1;
      if x :| 0 <= x < |p| && p[x] == m {
        WithoutLast(p, x, m);
        GatherIsPart(args[..m], p[..x] + p[x + 1..]);
        GatherWithoutLast(args, p, x);
      } else {
        GatherIsPart(args[..m], p);
        assert Gather(args[..m], p) == Gather(args, p);
        SplitLast(args);
      }
    }
  }

  lemma SplitLast(args: seq<Variable>)
    requires |args| > 0
    ensures multiset(args) == multiset(args[..|args| - 1]) + multiset{args[|args| - 1]}
  {
    assert args == args[..|args| - 1] + [args[|args| - 1]];
  }

  lemma GatherWithoutLast(args: seq<Variable>, p: seq<nat>, x: nat)
    requires InRange(p, |args|) && x < |p| && p[x] == |args| - 1
    requires InRange(p[..x] + p[x + 1..], |args| - 1)
    requires multiset(Gather(args[..|args| - 1], p[..x] + p[x + 1..])) <= multiset(args[..|args| - 1])
    ensures multiset(Gather(args, p)) <= multiset(args)
  {
    var g := Gather(args, p);
    assert Gather(args[..|args| - 1], p[..x] + p[x + 1..]) == g[..x] + g[x + 1..];
    TakeOut(g, x);
    SplitLast(args);
  }

  lemma WithoutLast(p: seq<nat>, x: nat, m: nat)
    requires Injective(p) && InRange(p, m + 1) && x < |p| && p[x] == m
    ensures var q := p[..x] + p[x + 1..]; Injective(q) && InRange(q, m)
  {
  }

  lemma TakeOut(g: seq<Variable>, x: nat)
    requires x < |g|
    ensures multiset(g) == multiset(g[..x] + g[x + 1..]) + multiset{g[x]}
  {
    assert g == g[..x] + [g[x]] + g[x + 1..];
  }
}
