// "Is this variable written on every path?"
// (slither/analyses/write/are_variables_written.py)
//
// A memoised depth-first search over configurations (node, variables written
// so far) is proved equal to a quantifier over all paths of the control flow
// graph, loops included.
module WrittenVariables {
  import opened Options

  type NodeId = int

  // Foreign stands for the left operands that are not variables, such as
  // contracts and enums.
  datatype Variable = Plain(id: int) | Temporary(id: int) | Reference(id: int) | Foreign(id: int)

  // `base` is the variable an Index, Member or Length operation refers into.
  datatype Operation =
    | Revert
    | Plainly
    | Write(lvalue: Option<Variable>, base: Option<Variable>)

  datatype CfgNode = CfgNode(irs: seq<Operation>, sons: seq<NodeId>, isThrow: bool)

  type Cfg = map<NodeId, CfgNode>

  // ---------------------------------------------------------------------
  // What one node writes
  // ---------------------------------------------------------------------

  ghost predicate Reverts(irs: seq<Operation>) {
    exists i :: 0 <= i < |irs| && irs[i].Revert?
  }

  function Refer(refs: map<Variable, Variable>, ir: Operation): map<Variable, Variable> {
    if ir.Write? && ir.lvalue.Some? && ir.base.Some? then refs[ir.lvalue.value := ir.base.value] else refs
  }

  // The reference table once the first i operations have been read.
  ghost function RefsAt(irs: seq<Operation>, i: nat): map<Variable, Variable>
    requires i <= |irs|
  {
    if i == 0 then map[] else Refer(RefsAt(irs, i - 1), irs[i - 1])
  }

  // n steps along a reference chain; the walk rests where the chain ends.
  ghost function Walk(refs: map<Variable, Variable>, v: Variable, n: nat): Variable {
    if n == 0 then v
    else
      var w := Walk(refs, v, n - 1);
      if w.Reference? && w in refs then refs[w] else w
  }

  ghost predicate EndsWithin(refs: map<Variable, Variable>, v: Variable, n: nat) {
    var w := Walk(refs, v, n);
    !(w.Reference? && w in refs)
  }

  ghost predicate ChainEnds(refs: map<Variable, Variable>, v: Variable) {
    exists n: nat :: EndsWithin(refs, v, n)
  }

  // Assigning to lv writes v: directly, or because the chain of references
  // that starts at lv passes through v.
  ghost predicate Touches(refs: map<Variable, Variable>, lv: Variable, v: Variable) {
    || (v == lv && !lv.Temporary? && !lv.Reference?)
    || PassesThrough(refs, lv, v)
  }

  ghost predicate PassesThrough(refs: map<Variable, Variable>, lv: Variable, v: Variable) {
    lv.Reference? && v.Plain? && exists n: nat :: Walk(refs, lv, n) == v
  }

  ghost predicate WritesAt(irs: seq<Operation>, i: nat, v: Variable)
    requires i < |irs|
  {
    irs[i].Write? && irs[i].lvalue.Some? && Touches(RefsAt(irs, i + 1), irs[i].lvalue.value, v)
  }

  ghost predicate Generates(irs: seq<Operation>, v: Variable) {
    exists i :: 0 <= i < |irs| && WritesAt(irs, i, v)
  }

  // The variables a node adds to any set; independent of that set.
  ghost function Gen(irs: seq<Operation>): set<Variable> {
    set v | v in Mentioned(irs) && Generates(irs, v)
  }

  ghost function Mentioned(irs: seq<Operation>): set<Variable> {
    (set i | 0 <= i < |irs| && irs[i].Write? && irs[i].lvalue.Some? :: irs[i].lvalue.value) +
    (set i | 0 <= i < |irs| && irs[i].Write? && irs[i].base.Some? :: irs[i].base.value)
  }

  // Reference chains are acyclic wherever the source follows them.
  ghost predicate ChainsEnd(irs: seq<Operation>) {
    forall i :: 0 <= i < |irs| && !Reverts(irs[..i]) && irs[i].Write? && irs[i].lvalue.Some? ==>
                ChainEnds(RefsAt(irs, i + 1), irs[i].lvalue.value)
  }

  lemma {:induction false} RefsMentioned(irs: seq<Operation>, i: nat)
    requires i <= |irs|
    ensures RefsAt(irs, i).Values <= Mentioned(irs)
  {
    if i > 0 {
      RefsMentioned(irs, i - 1);
    }
  }

  lemma {:induction false} WalkMentioned(refs: map<Variable, Variable>, v: Variable, n: nat)
    ensures Walk(refs, v, n) == v || Walk(refs, v, n) in refs.Values
  {
    if n > 0 {
      WalkMentioned(refs, v, n - 1);
    }
  }

  lemma GeneratedIsMentioned(irs: seq<Operation>, v: Variable)
    requires Generates(irs, v)
    ensures v in Gen(irs)
  {
    var i :| 0 <= i < |irs| && WritesAt(irs, i, v);
    var refs, lv := RefsAt(irs, i + 1), irs[i].lvalue.value;
    if v != lv {
      var n: nat :| Walk(refs, lv, n) == v;
      WalkMentioned(refs, lv, n);
      RefsMentioned(irs, i + 1);
    }
  }

  // The operation makes reference r refer into a base.
  ghost predicate Binds(ir: Operation, r: Variable) {
    ir.Write? && ir.lvalue == Some(r) && ir.base.Some?
  }

  // Of the first n operations k is the last to do so.
  ghost predicate BindsLast(irs: seq<Operation>, n: nat, r: Variable, k: nat)
    requires n <= |irs|
  {
    k < n && Binds(irs[k], r) && forall j :: k < j < n ==> !Binds(irs[j], r)
  }

  lemma ReferBinds(refs: map<Variable, Variable>, ir: Operation, r: Variable)
    ensures Binds(ir, r) ==> r in Refer(refs, ir) && Refer(refs, ir)[r] == ir.base.value
    ensures !Binds(ir, r) ==> (r in Refer(refs, ir) <==> r in refs)
    ensures !Binds(ir, r) && r in refs ==> Refer(refs, ir)[r] == refs[r]
  {
  }

  // The table holds, for each variable, the base it was last bound to.
  lemma {:induction false} TableHoldsLastBase(irs: seq<Operation>, n: nat, r: Variable)
    requires n <= |irs|
    ensures r in RefsAt(irs, n) <==> exists k: nat :: BindsLast(irs, n, r, k)
    ensures forall k: nat :: BindsLast(irs, n, r, k) ==>
              r in RefsAt(irs, n) && RefsAt(irs, n)[r] == irs[k].base.value
  {
    hide Refer;
    hide Binds;
    if n > 0 {
      TableHoldsLastBase(irs, n - 1, r);
      ReferBinds(RefsAt(irs, n - 1), irs[n - 1], r);
      BindsLastStep(irs, n, r);
      if Binds(irs[n - 1], r) {
        assert BindsLast(irs, n, r, n - 1);
      } else if r in RefsAt(irs, n - 1) {
        var k: nat :| BindsLast(irs, n - 1, r, k);
        assert BindsLast(irs, n, r, k);
      }
    }
  }

  lemma BindsLastStep(irs: seq<Operation>, n: nat, r: Variable)
    requires 0 < n <= |irs|
    ensures Binds(irs[n - 1], r) ==> forall k: nat :: BindsLast(irs, n, r, k) <==> k == n - 1
    ensures !Binds(irs[n - 1], r) ==> forall k: nat :: BindsLast(irs, n, r, k) <==> BindsLast(irs, n - 1, r, k)
  {
    hide Binds;
  }

  // Assigning to a variable that is neither temporary nor a reference writes
  // it; temporaries and references themselves are never recorded.
  lemma DirectWrites(irs: seq<Operation>, j: nat, v: Variable)
    requires j < |irs|
    ensures irs[j].Write? && irs[j].lvalue == Some(v) && (v.Plain? || v.Foreign?) ==> v in Gen(irs)
    ensures v.Temporary? || v.Reference? ==> v !in Gen(irs)
  {
    if irs[j].Write? && irs[j].lvalue == Some(v) && (v.Plain? || v.Foreign?) {
      assert WritesAt(irs, j, v);
      GeneratedIsMentioned(irs, v);
    }
  }

  // If operation k gives reference r the base v and a later one assigns to r,
  // with no rebinding in between, then v is written.
  lemma BaseIsWritten(irs: seq<Operation>, k: nat, j: nat, r: Variable, v: Variable)
    requires j < |irs| && r.Reference? && v.Plain?
    requires BindsLast(irs, j + 1, r, k) && irs[k].base.value == v
    requires irs[j].Write? && irs[j].lvalue == Some(r)
    ensures v in Gen(irs)
  {
    TableHoldsLastBase(irs, j + 1, r);
    var refs := RefsAt(irs, j + 1);
    assert Walk(refs, r, 0) == r;
    assert Walk(refs, r, 0 + 1) == v;
    assert WritesAt(irs, j, v);
    GeneratedIsMentioned(irs, v);
  }

  // Reference x was last bound to y.
  ghost predicate RefersInto(irs: seq<Operation>, n: nat, x: Variable, y: Variable)
    requires n <= |irs|
  {
    x.Reference? && exists k: nat :: BindsLast(irs, n, x, k) && irs[k].base.value == y
  }

  ghost predicate Chain(irs: seq<Operation>, n: nat, p: seq<Variable>)
    requires n <= |irs|
  {
    |p| > 0 && forall i :: 0 <= i < |p| - 1 ==> RefersInto(irs, n, p[i], p[i + 1])
  }

  ghost predicate ChainLeads(irs: seq<Operation>, n: nat, x: Variable, y: Variable)
    requires n <= |irs|
  {
    exists p :: Chain(irs, n, p) && p[0] == x && p[|p| - 1] == y
  }

  lemma {:induction false} ChainIsWalk(irs: seq<Operation>, n: nat, p: seq<Variable>, i: nat)
    requires n <= |irs| && Chain(irs, n, p) && i < |p|
    ensures Walk(RefsAt(irs, n), p[0], i) == p[i]
  {
    hide RefsAt;
    if i > 0 {
      ChainIsWalk(irs, n, p, i - 1);
      assert RefersInto(irs, n, p[i - 1], p[i - 1 + 1]);
      TableHoldsLastBase(irs, n, p[i - 1]);
    }
  }

  lemma {:induction false} WalkIsChain(irs: seq<Operation>, n: nat, x: Variable, m: nat)
    requires n <= |irs|
    ensures ChainLeads(irs, n, x, Walk(RefsAt(irs, n), x, m))
  {
    hide RefsAt;
    if m == 0 {
      assert Chain(irs, n, [x]);
    } else {
      WalkIsChain(irs, n, x, m - 1);
      var w := Walk(RefsAt(irs, n), x, m - 1);
      if w.Reference? && w in RefsAt(irs, n) {
        TableHoldsLastBase(irs, n, w);
        ChainExtends(irs, n, x, w, RefsAt(irs, n)[w]);
      }
    }
  }

  lemma ChainExtends(irs: seq<Operation>, n: nat, x: Variable, w: Variable, y: Variable)
    requires n <= |irs| && ChainLeads(irs, n, x, w) && RefersInto(irs, n, w, y)
    ensures ChainLeads(irs, n, x, y)
  {
    hide RefersInto;
    var p :| Chain(irs, n, p) && p[0] == x && p[|p| - 1] == w;
    var q := p + [y];
    assert Chain(irs, n, q) && q[0] == x && q[|q| - 1] == y;
  }

  // Operation j assigns to v, or to a reference from which bases lead to v.
  ghost predicate AssignsTo(irs: seq<Operation>, j: nat, v: Variable)
    requires j < |irs|
  {
    && irs[j].Write? && irs[j].lvalue.Some?
    && var lv := irs[j].lvalue.value;
       || (lv == v && (v.Plain? || v.Foreign?))
       || (lv.Reference? && v.Plain? && ChainLeads(irs, j + 1, lv, v))
  }

  // What a node writes, in terms of its operations alone.
  lemma GenMeans(irs: seq<Operation>, v: Variable)
    ensures v in Gen(irs) <==> exists j :: 0 <= j < |irs| && AssignsTo(irs, j, v)
  {
    forall j | 0 <= j < |irs|
      ensures WritesAt(irs, j, v) <==> AssignsTo(irs, j, v)
    {
      WritesMeans(irs, j, v);
    }
    if Generates(irs, v) { GeneratedIsMentioned(irs, v); }
  }

  lemma WritesMeans(irs: seq<Operation>, j: nat, v: Variable)
    requires j < |irs|
    ensures WritesAt(irs, j, v) <==> AssignsTo(irs, j, v)
  {
    hide RefsAt;
    hide Walk;
    if irs[j].Write? && irs[j].lvalue.Some? {
      var refs, lv := RefsAt(irs, j + 1), irs[j].lvalue.value;
      if PassesThrough(refs, lv, v) {
        var n: nat :| Walk(refs, lv, n) == v;
        WalkIsChain(irs, j + 1, lv, n);
      }
      if ChainLeads(irs, j + 1, lv, v) {
        var p :| Chain(irs, j + 1, p) && p[0] == lv && p[|p| - 1] == v;
        ChainIsWalk(irs, j + 1, p, |p| - 1);
      }
    }
  }

  // Reading an element counts as writing: an Index, Member or Length operation
  // itself assigns to the reference it binds.
  lemma ReadingCountsAsWriting(irs: seq<Operation>, j: nat, r: Variable, v: Variable)
    requires j < |irs| && irs[j] == Write(Some(r), Some(v)) && r.Reference? && v.Plain?
    ensures v in Gen(irs)
  {
    BaseIsWritten(irs, j, j, r, v);
  }

  // An operation that does more than bind its reference.
  ghost predicate ReallyAssigns(irs: seq<Operation>, j: nat, v: Variable)
    requires j < |irs|
  {
    irs[j].Write? && irs[j].base.None? && AssignsTo(irs, j, v)
  }

  ghost predicate Assigned(irs: seq<Operation>, v: Variable) {
    exists j :: 0 <= j < |irs| && ReallyAssigns(irs, j, v)
  }

  // A node's set holds exactly what its operations assign to if and only if
  // whatever a reference is bound into is assigned to as well.
  lemma GenExact(irs: seq<Operation>)
    ensures (forall v :: v in Gen(irs) <==> Assigned(irs, v)) <==> BasesAssigned(irs)
  {
    hide AssignsTo;
    forall v
      ensures Assigned(irs, v) ==> v in Gen(irs)
      ensures v in Gen(irs) && !Assigned(irs, v) ==> !BasesAssigned(irs)
    {
      GenMeans(irs, v);
      if v in Gen(irs) {
        var j :| 0 <= j < |irs| && AssignsTo(irs, j, v);
        AssignsIsWrite(irs, j, v);
        assert irs[j].base.None? ==> ReallyAssigns(irs, j, v);
      }
    }
    forall j, v | 0 <= j < |irs| && irs[j].Write? && irs[j].base.Some? && AssignsTo(irs, j, v)
      ensures v in Gen(irs)
    {
      GenMeans(irs, v);
    }
  }

  // Whatever an Index, Member or Length operation binds a reference into is
  // also assigned to.
  ghost predicate BasesAssigned(irs: seq<Operation>) {
    forall j, v :: 0 <= j < |irs| && irs[j].Write? && irs[j].base.Some? && AssignsTo(irs, j, v) ==> Assigned(irs, v)
  }

  lemma AssignsIsWrite(irs: seq<Operation>, j: nat, v: Variable)
    requires j < |irs| && AssignsTo(irs, j, v)
    ensures irs[j].Write?
  {
  }

  // Once a chain has ended the walk does not move any more.
  lemma {:induction false} WalkRests(refs: map<Variable, Variable>, v: Variable, k: nat, n: nat)
    requires EndsWithin(refs, v, k) && k <= n
    ensures Walk(refs, v, n) == Walk(refs, v, k)
  {
    if k < n {
      WalkRests(refs, v, k, n - 1);
    }
  }

  // The inner `while`: follows the references from lv.
  method FollowReferences(refs: map<Variable, Variable>, lv: Variable, written: set<Variable>)
    returns (result: set<Variable>)
    requires ChainEnds(refs, lv)
    ensures forall v :: v in result <==> v in written || PassesThrough(refs, lv, v)
  {
    result := written;
    var lvalue := lv;
    ghost var bound: nat :| EndsWithin(refs, lv, bound);
    ghost var k: nat := 0;
    while lvalue.Reference? && lvalue in refs
      invariant k <= bound && lvalue == Walk(refs, lv, k)
      invariant k > 0 ==> lv.Reference?
      invariant forall v :: v in result ==> v in written || PassesThrough(refs, lv, v)
      invariant written <= result
      invariant forall n: nat :: n <= k && lv.Reference? && Walk(refs, lv, n).Plain? ==> Walk(refs, lv, n) in result
      decreases bound - k
    {
      var target := refs[lvalue];
      assert Walk(refs, lv, k + 1) == target;
      if target.Plain? {
        result := result + {target};
      }
      lvalue := target;
      k := k + 1;
    }
    forall v: Variable | PassesThrough(refs, lv, v)
      ensures v in result
    {
      var n: nat :| Walk(refs, lv, n) == v;
      if n > k {
        WalkRests(refs, lv, k, n);
      }
    }
  }

  // The loop over the operations of a node: None when the node reverts.
  method Transfer(irs: seq<Operation>, variablesWritten: set<Variable>) returns (result: Option<set<Variable>>)
    requires ChainsEnd(irs)
    ensures result.None? <==> Reverts(irs)
    ensures result.Some? ==> result.value == variablesWritten + Gen(irs)
  {
    var refs := map[];
    var written := variablesWritten;
    var i := 0;
    while i < |irs|
      invariant 0 <= i <= |irs| && refs == RefsAt(irs, i)
      invariant !Reverts(irs[..i])
      invariant variablesWritten <= written
      invariant forall v :: v in written && v !in variablesWritten ==> Generates(irs, v)
      invariant forall k, v :: 0 <= k < i && WritesAt(irs, k, v) ==> v in written
    {
      var ir := irs[i];
      if ir.Revert? {
        return None;
      }
      if ir.Write? {
        refs := Refer(refs, ir);
        if ir.lvalue.Some? {
          ghost var before := written;
          var lvalue := ir.lvalue.value;
          if !lvalue.Temporary? && !lvalue.Reference? {
            written := written + {lvalue};
          }
          written := FollowReferences(refs, lvalue, written);
          assert forall v :: v in written <==> v in before || WritesAt(irs, i, v);
        }
      }
      i := i + 1;
    }
    assert irs == irs[..i];
    forall v | v in variablesWritten + Gen(irs)
      ensures v in written
    {
    }
    forall v | v in written
      ensures v in variablesWritten + Gen(irs)
    {
      if v !in variablesWritten { GeneratedIsMentioned(irs, v); }
    }
    return Some(written);
  }

  // ---------------------------------------------------------------------
  // Paths
  // ---------------------------------------------------------------------

  ghost predicate ValidCfg(cfg: Cfg) {
    && (forall n, s :: n in cfg && s in cfg[n].sons ==> s in cfg)
    && (forall n :: n in cfg ==> ChainsEnd(cfg[n].irs))
  }

  ghost predicate IsExit(node: CfgNode) {
    node.sons == [] && !node.isThrow
  }

  // A path on which nothing reverts, from its first node to a normal exit.
  ghost predicate CompletePath(cfg: Cfg, p: seq<NodeId>) {
    && |p| > 0
    && (forall i :: 0 <= i < |p| ==> p[i] in cfg && !Reverts(cfg[p[i]].irs))
    && (forall i :: 0 <= i < |p| - 1 ==> p[i + 1] in cfg[p[i]].sons)
    && IsExit(cfg[p[|p| - 1]])
  }

  ghost predicate NeverWrites(cfg: Cfg, p: seq<NodeId>, v: Variable)
    requires CompletePath(cfg, p)
  {
    forall i :: 0 <= i < |p| ==> v !in Gen(cfg[p[i]].irs)
  }

  ghost predicate Escapes(cfg: Cfg, start: NodeId, v: Variable) {
    exists p :: CompletePath(cfg, p) && p[0] == start && NeverWrites(cfg, p, v)
  }

  // A function that does nothing but read a[i] passes for one that writes a.
  lemma ReadOnlyFunctionPasses(a: Variable, r: Variable)
    requires a.Plain? && r.Reference?
    ensures var irs := [Write(Some(r), Some(a))];
            var cfg := map[0 := CfgNode(irs, [], false)];
            CompletePath(cfg, [0]) && !Assigned(irs, a) && !Escapes(cfg, 0, a)
  {
    var irs := [Write(Some(r), Some(a))];
    var cfg := map[0 := CfgNode(irs, [], false)];
    ReadingCountsAsWriting(irs, 0, r, a);
    forall p | CompletePath(cfg, p) && p[0] == 0
      ensures !NeverWrites(cfg, p, a)
    {
      assert a in Gen(cfg[p[0]].irs);
    }
  }

  lemma EscapesThroughSon(cfg: Cfg, n: NodeId, son: NodeId, v: Variable)
    requires ValidCfg(cfg) && n in cfg && son in cfg[n].sons && !Reverts(cfg[n].irs)
    requires v !in Gen(cfg[n].irs) && Escapes(cfg, son, v)
    ensures Escapes(cfg, n, v)
  {
    var p :| CompletePath(cfg, p) && p[0] == son && NeverWrites(cfg, p, v);
    var q := [n] + p;
    assert forall i :: 0 < i < |q| ==> q[i] == p[i - 1];
    assert CompletePath(cfg, q) && q[0] == n && NeverWrites(cfg, q, v);
  }

  // ---------------------------------------------------------------------
  // The memoised search
  // ---------------------------------------------------------------------

  type Config = (NodeId, set<Variable>)

  // Unless it reverts, the son is recorded with what it adds to w.
  ghost predicate SonRecorded(cfg: Cfg, recorded: set<Config>, son: NodeId, w: set<Variable>) {
    son in cfg && !Reverts(cfg[son].irs) ==> (son, w + Gen(cfg[son].irs)) in recorded
  }

  ghost predicate SonsRecorded(cfg: Cfg, recorded: set<Config>, c: Config, n: nat)
    requires c.0 in cfg && n <= |cfg[c.0].sons|
  {
    forall i :: 0 <= i < n ==> SonRecorded(cfg, recorded, cfg[c.0].sons[i], c.1)
  }

  // Everything configuration c leads to has been explored.
  ghost predicate Expanded(cfg: Cfg, recorded: set<Config>, ret: seq<Variable>, wanted: seq<Variable>, c: Config)
    requires c.0 in cfg
  {
    && SonsRecorded(cfg, recorded, c, |cfg[c.0].sons|)
    && (IsExit(cfg[c.0]) ==> forall v :: v in wanted && v !in c.1 ==> v in ret)
  }

  ghost predicate ExpandedAll(cfg: Cfg, recorded: set<Config>, ret: seq<Variable>, wanted: seq<Variable>,
                              cs: set<Config>)
  {
    forall c :: c in cs ==> c.0 in cfg && Expanded(cfg, recorded, ret, wanted, c)
  }

  // In a closed record every path that never writes v is followed to its end.
  lemma {:induction false} ClosedRecordFollows(cfg: Cfg, recorded: set<Config>, ret: seq<Variable>,
                                               wanted: seq<Variable>, p: seq<NodeId>, w: set<Variable>, v: Variable)
    requires ValidCfg(cfg) && ExpandedAll(cfg, recorded, ret, wanted, recorded)
    requires CompletePath(cfg, p) && NeverWrites(cfg, p, v)
    requires (p[0], w) in recorded && v in wanted && v !in w
    ensures v in ret
    decreases |p|
  {
    var c := (p[0], w);
    assert Expanded(cfg, recorded, ret, wanted, c);
    if |p| > 1 {
      var q := p[1..];
      assert forall i :: 0 <= i < |q| ==> q[i] == p[i + 1];
      var i :| 0 <= i < |cfg[c.0].sons| && cfg[c.0].sons[i] == p[1];
      assert SonRecorded(cfg, recorded, cfg[c.0].sons[i], w);
      ClosedRecordFollows(cfg, recorded, ret, wanted, q, w + Gen(cfg[p[1]].irs), v);
    }
  }

  ghost function Universe(cfg: Cfg): set<Variable> {
    set n, v | n in cfg && v in Gen(cfg[n].irs) :: v
  }

  ghost function AllConfigs(cfg: Cfg): set<Config> {
    set n, w | n in cfg.Keys && w <= Universe(cfg) :: (n, w)
  }

  class State {
    const cfg: Cfg
    const wanted: seq<Variable>
    var nodes: map<NodeId, seq<set<Variable>>>

    constructor (cfg: Cfg, wanted: seq<Variable>)
      ensures this.cfg == cfg && this.wanted == wanted && Recorded() == {}
    {
      this.cfg, this.wanted := cfg, wanted;
      nodes := map[];
    }

    ghost function Recorded(): set<Config>
      reads this
    {
      set n, w | n in nodes && w in nodes[n] :: (n, w)
    }

    method Visit(node: Option<NodeId>, writtenBefore: set<Variable>) returns (ret: seq<Variable>)
      requires ValidCfg(cfg) && (node.Some? ==> node.value in cfg)
      requires writtenBefore <= Universe(cfg) && Recorded() <= AllConfigs(cfg)
      modifies this`nodes
      ensures old(Recorded()) <= Recorded() <= AllConfigs(cfg)
      ensures node.None? ==> ret == []
      ensures forall v :: v in ret ==> node.Some? && v in wanted && v !in writtenBefore && Escapes(cfg, node.value, v)
      ensures ExpandedAll(cfg, Recorded(), ret, wanted, Recorded() - old(Recorded()))
      ensures node.Some? && !Reverts(cfg[node.value].irs) ==>
                var c := (node.value, writtenBefore + Gen(cfg[node.value].irs));
                c in Recorded() &&
                (IsExit(cfg[node.value]) ==> forall v :: v in wanted && v !in c.1 ==> v in ret)
      decreases AllConfigs(cfg) - Recorded()
    {
      hide SonsRecorded;
      hide Escapes;
      hide ExpandedAll;
      hide Reverts;
      ExpandedNothing(cfg, Recorded(), [], wanted);
      if node.None? {
        return [];
      }
      var n := node.value;
      var transferred := Transfer(cfg[n].irs, writtenBefore);
      if transferred.None? {
        return [];
      }
      var variablesWritten := transferred.value;
      ret := [];
      if cfg[n].sons == [] && !cfg[n].isThrow {
        ret := Missing(wanted, variablesWritten);
        EscapesAtExit(cfg, n, writtenBefore, wanted, ret);
      }
      ExpandedNothing(cfg, Recorded(), ret, wanted);
      var before := if n in nodes then nodes[n] else [];
      if n !in nodes || variablesWritten !in before {
        Record(n, variablesWritten);
        ghost var start := Recorded();
        InUniverse(cfg, n);
        NothingToExpand(cfg, start, ret, wanted, n, variablesWritten);
        assert (n, variablesWritten) in AllConfigs(cfg);
        var i := 0;
        while i < |cfg[n].sons|
          invariant 0 <= i <= |cfg[n].sons|
          invariant start <= Recorded() <= AllConfigs(cfg)
          invariant forall v :: v in ret ==> v in wanted && v !in writtenBefore && Escapes(cfg, n, v)
          invariant ExpandedAll(cfg, Recorded(), ret, wanted, Recorded() - start)
          invariant IsExit(cfg[n]) ==> forall v :: v in wanted && v !in variablesWritten ==> v in ret
          invariant SonsRecorded(cfg, Recorded(), (n, variablesWritten), i)
        {
          var son := cfg[n].sons[i];
          ghost var r0, ret0 := Recorded(), ret;
          var found := Visit(Some(son), variablesWritten);
          ret := ret + found;
          forall v | v in found
            ensures Escapes(cfg, n, v)
          {
            EscapesThroughSon(cfg, n, son, v);
          }
          ExpandedGrows(cfg, r0, ret0, wanted, r0 - start, Recorded(), ret);
          ExpandedGrows(cfg, Recorded(), found, wanted, Recorded() - r0, Recorded(), ret);
          ExpandedJoin(cfg, start, r0, Recorded(), ret, wanted);
          SonsExtend(cfg, r0, Recorded(), (n, variablesWritten), i);
          i := i + 1;
        }
        ExpandedOneMore(cfg, start, Recorded(), ret, wanted, (n, variablesWritten));
        assert Expanded(cfg, Recorded(), ret, wanted, (n, variablesWritten));
      }
    }

    // state.nodes[node].append(variables_written)
    method Record(n: NodeId, w: set<Variable>)
      modifies this`nodes
      ensures Recorded() == old(Recorded()) + {(n, w)}
    {
      var before := if n in nodes then nodes[n] else [];
      nodes := nodes[n := before + [w]];
    }
  }

  lemma EscapesAtExit(cfg: Cfg, n: NodeId, w: set<Variable>, wanted: seq<Variable>, ret: seq<Variable>)
    requires ValidCfg(cfg) && n in cfg && !Reverts(cfg[n].irs) && IsExit(cfg[n])
    requires forall v :: v in ret ==> v !in w + Gen(cfg[n].irs)
    ensures forall v :: v in ret ==> Escapes(cfg, n, v)
  {
    assert CompletePath(cfg, [n]) && [n][0] == n;
    assert forall v :: v in ret ==> NeverWrites(cfg, [n], v);
  }

  lemma NothingToExpand(cfg: Cfg, start: set<Config>, ret: seq<Variable>, wanted: seq<Variable>, n: NodeId, w: set<Variable>)
    requires n in cfg
    ensures ExpandedAll(cfg, start, ret, wanted, start - start) && SonsRecorded(cfg, start, (n, w), 0)
  {
  }

  lemma ExpandedNothing(cfg: Cfg, r: set<Config>, ret: seq<Variable>, wanted: seq<Variable>)
    ensures ExpandedAll(cfg, r, ret, wanted, r - r)
  {
  }

  lemma ExpandedJoin(cfg: Cfg, start: set<Config>, r: set<Config>, r': set<Config>, ret: seq<Variable>,
                     wanted: seq<Variable>)
    requires ExpandedAll(cfg, r', ret, wanted, r - start) && ExpandedAll(cfg, r', ret, wanted, r' - r)
    ensures ExpandedAll(cfg, r', ret, wanted, r' - start)
  {
  }

  lemma SonsExtend(cfg: Cfg, r: set<Config>, r': set<Config>, c: Config, i: nat)
    requires c.0 in cfg && i < |cfg[c.0].sons| && r <= r' && SonsRecorded(cfg, r, c, i)
    requires SonRecorded(cfg, r', cfg[c.0].sons[i], c.1)
    ensures SonsRecorded(cfg, r', c, i + 1)
  {
  }

  lemma ExpandedOneMore(cfg: Cfg, start: set<Config>, r: set<Config>, ret: seq<Variable>, wanted: seq<Variable>, c: Config)
    requires c in start && ExpandedAll(cfg, r, ret, wanted, r - start)
    requires c.0 in cfg && Expanded(cfg, r, ret, wanted, c)
    ensures ExpandedAll(cfg, r, ret, wanted, r - (start - {c}))
  {
  }

  lemma ExpandedGrows(cfg: Cfg, r: set<Config>, ret: seq<Variable>, wanted: seq<Variable>, cs: set<Config>,
                      r': set<Config>, ret': seq<Variable>)
    requires ExpandedAll(cfg, r, ret, wanted, cs)
    requires r <= r' && forall v :: v in ret ==> v in ret'
    ensures ExpandedAll(cfg, r', ret', wanted, cs)
  {
  }

  lemma InUniverse(cfg: Cfg, n: NodeId)
    requires n in cfg
    ensures Gen(cfg[n].irs) <= Universe(cfg)
  {
  }

  method AreVariablesWritten(cfg: Cfg, entryPoint: Option<NodeId>, variablesToWrite: seq<Variable>)
    returns (missing: set<Variable>)
    requires ValidCfg(cfg) && (entryPoint.Some? ==> entryPoint.value in cfg)
    ensures forall v :: v in missing <==>
                        v in variablesToWrite && entryPoint.Some? && Escapes(cfg, entryPoint.value, v)
  {
    var state := new State(cfg, variablesToWrite);
    var ret := state.Visit(entryPoint, {});
    missing := set v | v in ret;
    forall v | v in variablesToWrite && entryPoint.Some? && Escapes(cfg, entryPoint.value, v)
      ensures v in missing
    {
      var p :| CompletePath(cfg, p) && p[0] == entryPoint.value && NeverWrites(cfg, p, v);
      var r := state.Recorded();
      assert r - {} == r;
      ClosedRecordFollows(cfg, r, ret, variablesToWrite, p, {} + Gen(cfg[p[0]].irs), v);
    }
  }

  // [v for v in variables_to_write if v not in variables_written]
  function Missing(wanted: seq<Variable>, written: set<Variable>): (r: seq<Variable>)
    ensures forall v :: v in r <==> v in wanted && v !in written
  {
    if wanted == [] then []
    else (if wanted[0] !in written then [wanted[0]] else []) + Missing(wanted[1..], written)
  }
}
