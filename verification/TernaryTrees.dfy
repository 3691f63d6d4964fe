// Splitting an expression at a ternary, on expression trees: what the rewrite
// of slither/utils/expression_manipulations.py computes, and what it means.
// The rewrite itself, on shared mutable nodes, is in TernarySplit.dfy.
module TernaryTrees {
  import opened Options

  datatype NaryKind = Assignment | Binary | Tuple | Index
  datatype UnaryKind = Conversion | UnaryOp | Member

  // `op` stands for everything else a node carries: operator, member name,
  // type, names and salt of a call.  Unsupported is any other class of
  // expression; an absent component of a tuple is None.
  datatype Tree =
    | Atom(op: int)
    | Unsupported(op: int)
    | Nary(nkind: NaryKind, op: int, kids: seq<Option<Tree>>)
    | Unary(ukind: UnaryKind, op: int, kid: Tree)
    | Call(op: int, called: Tree, gas: Option<Tree>, callValue: Option<Tree>, args: seq<Option<Tree>>)
    | Cond(ifPart: Tree, thenPart: Tree, elsePart: Tree)

  // ---------------------------------------------------------------------
  // The rewrite
  // ---------------------------------------------------------------------

  // The two exceptions of the source.
  datatype Failure = NestedTernary | NotHandled

  // `sites` lists the ternaries that were intercepted, in order; `cond` is
  // the condition the splitter holds afterwards.
  datatype Outcome =
    | Halves(onTrue: Tree, onFalse: Tree, cond: Option<Tree>, sites: seq<Tree>)
    | Unhandled(failure: Failure)

  datatype KidsOutcome =
    | KidHalves(onTrue: seq<Option<Tree>>, onFalse: seq<Option<Tree>>, cond: Option<Tree>, sites: seq<Tree>)
    | KidsUnhandled(failure: Failure)

  // The ternary directly ahead, looking through one pair of parentheses.
  function Ahead(next: Tree): (r: Option<Tree>)
    ensures r.Some? ==> r.value.Cond?
  {
    if next.Cond? then Some(next)
    else if next.Nary? && next.nkind.Tuple? && |next.kids| == 1 && next.kids[0].Some? && next.kids[0].value.Cond? then
      next.kids[0]
    else None
  }

  function AheadOpt(next: Option<Tree>): (r: Option<Tree>)
    ensures r.Some? ==> r.value.Cond?
  {
    if next.Some? then Ahead(next.value) else None
  }

  function Intercept(site: Tree): Outcome
    requires site.Cond?
  {
    Halves(site.thenPart, site.elsePart, Some(site.ifPart), [site])
  }

  function SplitCopy(e: Tree, cond: Option<Tree>): Outcome
    decreases e, 2
  {
    if cond.Some? then Halves(e, e, cond, [])
    else
      match e
      case Cond(_, _, _) => Unhandled(NestedTernary)
      case Atom(_) => Halves(e, e, None, [])
      case Unsupported(_) => Unhandled(NotHandled)
      case Nary(k, op, kids) =>
        var r := SplitKids(kids, |kids|, None);
        if r.KidsUnhandled? then Unhandled(r.failure)
        else Halves(Nary(k, op, r.onTrue), Nary(k, op, r.onFalse), r.cond, r.sites)
      case Unary(k, op, kid) =>
        var r := SplitNext(kid, None);
        if r.Unhandled? then Unhandled(r.failure)
        else Halves(Unary(k, op, r.onTrue), Unary(k, op, r.onFalse), r.cond, r.sites)
      case Call(_, _, _, _, _) => SplitCall(e)
  }

  function SplitNext(next: Tree, cond: Option<Tree>): Outcome
    decreases next, 3
  {
    var ahead := Ahead(next);
    if ahead.Some? then Intercept(ahead.value) else SplitCopy(next, cond)
  }

  // The first n components, left to right.
  function SplitKids(kids: seq<Option<Tree>>, n: nat, cond: Option<Tree>): (r: KidsOutcome)
    requires n <= |kids|
    ensures r.KidHalves? ==> |r.onTrue| == |r.onFalse| == n
    ensures r.KidHalves? ==> forall i :: 0 <= i < n ==> r.onTrue[i].Some? == r.onFalse[i].Some? == kids[i].Some?
    decreases kids, n
  {
    if n == 0 then KidHalves([], [], cond, [])
    else
      var before := SplitKids(kids, n - 1, cond);
      if before.KidsUnhandled? then KidsUnhandled(before.failure)
      else
        var r := SplitKid(kids[n - 1], before.cond);
        if r.KidsUnhandled? then KidsUnhandled(r.failure)
        else KidHalves(before.onTrue + r.onTrue, before.onFalse + r.onFalse, r.cond, before.sites + r.sites)
  }

  function SplitKid(kid: Option<Tree>, cond: Option<Tree>): (r: KidsOutcome)
    ensures r.KidHalves? ==> |r.onTrue| == |r.onFalse| == 1
    ensures r.KidHalves? ==> r.onTrue[0].Some? == r.onFalse[0].Some? == kid.Some?
    decreases kid, 4
  {
    if kid.None? then KidHalves([None], [None], cond, [])
    else AsKid(SplitNext(kid.value, cond))
  }

  function AsKid(r: Outcome): KidsOutcome {
    if r.Unhandled? then KidsUnhandled(r.failure)
    else KidHalves([Some(r.onTrue)], [Some(r.onFalse)], r.cond, r.sites)
  }

  // A ternary as gas or as value ends the walk: what follows is kept whole.
  function SplitCall(e: Tree): Outcome
    requires e.Call?
    decreases e, 1
  {
    var c := SplitNext(e.called, None);
    if c.Unhandled? then Unhandled(c.failure)
    else
      var g := SplitKid(e.gas, c.cond);
      if g.KidsUnhandled? then Unhandled(g.failure)
      else
        var l, r := e.(called := c.onTrue, gas := g.onTrue[0]), e.(called := c.onFalse, gas := g.onFalse[0]);
        if AheadOpt(e.gas).Some? then Halves(l, r, g.cond, c.sites + g.sites)
        else SplitCallTail(e, l, r, g.cond, c.sites + g.sites)
  }

  // From the value on; l and r are the two copies made so far.
  function SplitCallTail(e: Tree, l: Tree, r: Tree, cond: Option<Tree>, sites: seq<Tree>): Outcome
    requires e.Call? && l.Call? && r.Call?
    decreases e, 0
  {
    var v := SplitKid(e.callValue, cond);
    if v.KidsUnhandled? then Unhandled(v.failure)
    else
      var l', r' := l.(callValue := v.onTrue[0]), r.(callValue := v.onFalse[0]);
      if AheadOpt(e.callValue).Some? then Halves(l', r', v.cond, sites + v.sites)
      else
        var a := SplitKids(e.args, |e.args|, v.cond);
        if a.KidsUnhandled? then Unhandled(a.failure)
        else Halves(l'.(args := a.onTrue), r'.(args := a.onFalse), a.cond, sites + v.sites + a.sites)
  }

  // The constructor of the splitter.
  function Split(e: Tree): Outcome {
    if e.Cond? then Intercept(e) else SplitCopy(e, None)
  }

  // ---------------------------------------------------------------------
  // Meaning
  // ---------------------------------------------------------------------

  // Any compositional semantics: every node's value is some function of the
  // values of its components, and of a ternary's components as usual.
  datatype Sem<!V> = Sem(
    atom: int -> V,
    unsupported: int -> V,
    nary: (NaryKind, int, seq<Option<V>>) -> V,
    unary: (UnaryKind, int, V) -> V,
    call: (int, V, Option<V>, Option<V>, seq<Option<V>>) -> V,
    truth: V -> bool)

  function Eval<V>(s: Sem<V>, e: Tree): V
    decreases e, 1
  {
    match e
    case Atom(op) => s.atom(op)
    case Unsupported(op) => s.unsupported(op)
    case Nary(k, op, kids) => s.nary(k, op, EvalKids(s, kids, |kids|))
    case Unary(k, op, kid) => s.unary(k, op, Eval(s, kid))
    case Call(op, called, gas, value, args) =>
      s.call(op, Eval(s, called), EvalOpt(s, gas), EvalOpt(s, value), EvalKids(s, args, |args|))
    case Cond(c, t, f) => if s.truth(Eval(s, c)) then Eval(s, t) else Eval(s, f)
  }

  function EvalOpt<V>(s: Sem<V>, e: Option<Tree>): Option<V>
    decreases e, 0
  {
    if e.None? then None else Some(Eval(s, e.value))
  }

  function EvalKids<V>(s: Sem<V>, kids: seq<Option<Tree>>, n: nat): (r: seq<Option<V>>)
    requires n <= |kids|
    ensures |r| == n && forall i :: 0 <= i < n ==> r[i].Some? == kids[i].Some?
    decreases kids, n
  {
    if n == 0 then [] else EvalKids(s, kids, n - 1) + [EvalOpt(s, kids[n - 1])]
  }

  // A pair of parentheses does not change the value inside it.
  ghost predicate Parenthetical<V(!new)>(s: Sem<V>) {
    forall op, v :: s.nary(Tuple, op, [Some(v)]) == v
  }

  // Choosing branch b of the ternary `site` gives the value of the ternary.
  ghost predicate Agrees<V>(s: Sem<V>, site: Tree, b: bool) {
    site.Cond? && Eval(s, site) == Eval(s, if b then site.thenPart else site.elsePart)
  }

  ghost predicate AllAgree<V>(s: Sem<V>, sites: seq<Tree>, b: bool) {
    forall i :: 0 <= i < |sites| ==> Agrees(s, sites[i], b)
  }

  function Pick(r: Outcome, b: bool): Tree
    requires r.Halves?
  {
    if b then r.onTrue else r.onFalse
  }

  function PickKids(r: KidsOutcome, b: bool): seq<Option<Tree>>
    requires r.KidHalves?
  {
    if b then r.onTrue else r.onFalse
  }

  // Different values of the components that are present give different values.
  ghost predicate Injective<V(!new)>(s: Sem<V>) {
    && (forall k, op, vs, ws :: SameShape(vs, ws) && s.nary(k, op, vs) == s.nary(k, op, ws) ==> vs == ws)
    && (forall k, op, v, w :: s.unary(k, op, v) == s.unary(k, op, w) ==> v == w)
    && (forall op, v1, v2, g1, g2, c1, c2, a1, a2 ::
          SameShape(a1, a2) && s.call(op, v1, g1, c1, a1) == s.call(op, v2, g2, c2, a2) ==>
          v1 == v2 && g1 == g2 && c1 == c2 && a1 == a2)
  }

  ghost predicate SameShape<V>(vs: seq<Option<V>>, ws: seq<Option<V>>) {
    |vs| == |ws| && forall i :: 0 <= i < |vs| ==> vs[i].Some? == ws[i].Some?
  }

  // Taking branch b everywhere keeps the value of e when every intercepted
  // ternary agrees, and only then if the semantics is injective.
  ghost predicate Selects<V(!new)>(s: Sem<V>, e: Tree, r: Outcome, b: bool) {
    r.Halves? ==>
      var same := Eval(s, e) == Eval(s, Pick(r, b));
      (AllAgree(s, r.sites, b) ==> same) && (Injective(s) && same ==> AllAgree(s, r.sites, b))
  }

  ghost predicate SelectsKids<V(!new)>(s: Sem<V>, kids: seq<Option<Tree>>, n: nat, r: KidsOutcome, b: bool)
    requires n <= |kids| && (r.KidHalves? ==> |r.onTrue| == |r.onFalse| == n)
  {
    r.KidHalves? ==>
      var same := EvalKids(s, kids, n) == EvalKids(s, PickKids(r, b), n);
      (AllAgree(s, r.sites, b) ==> same) && (Injective(s) && same ==> AllAgree(s, r.sites, b))
  }

  lemma AllAgreeConcat<V>(s: Sem<V>, p: seq<Tree>, q: seq<Tree>, b: bool)
    ensures AllAgree(s, p + q, b) <==> AllAgree(s, p, b) && AllAgree(s, q, b)
  {
    var pq := p + q;
    assert forall i :: 0 <= i < |p| ==> pq[i] == p[i];
    assert forall i :: 0 <= i < |q| ==> pq[|p| + i] == q[i];
    if AllAgree(s, pq, b) {
      forall i | 0 <= i < |q| ensures Agrees(s, q[i], b) {
        assert Agrees(s, pq[|p| + i], b);
      }
      forall i | 0 <= i < |p| ensures Agrees(s, p[i], b) {
        assert Agrees(s, pq[i], b);
      }
    }
  }

  lemma {:induction false} EvalKidsPrefix<V>(s: Sem<V>, p: seq<Option<Tree>>, q: seq<Option<Tree>>, n: nat)
    requires n <= |p|
    ensures EvalKids(s, p + q, n) == EvalKids(s, p, n)
  {
    if n > 0 {
      EvalKidsPrefix(s, p, q, n - 1);
      assert (p + q)[n - 1] == p[n - 1];
    }
  }

  // An intercepted ternary is worth what stands ahead.
  lemma AheadValue<V(!new)>(s: Sem<V>, next: Tree)
    requires Parenthetical(s) && Ahead(next).Some?
    ensures Eval(s, next) == Eval(s, Ahead(next).value)
  {
    if !next.Cond? {
      var site := Ahead(next).value;
      assert EvalKids(s, next.kids, 0) == [];
      assert EvalKids(s, next.kids, 1) == [Some(Eval(s, site))];
    }
  }

  lemma InterceptSelects<V(!new)>(s: Sem<V>, next: Tree, b: bool)
    requires Parenthetical(s) && Ahead(next).Some?
    ensures Selects(s, next, Intercept(Ahead(next).value), b)
  {
    AheadValue(s, next);
    var site := Ahead(next).value;
    assert Intercept(site).sites[0] == site;
  }

  lemma {:induction false} SplitCopySelects<V(!new)>(s: Sem<V>, e: Tree, cond: Option<Tree>, b: bool)
    requires Parenthetical(s)
    ensures Selects(s, e, SplitCopy(e, cond), b)
    decreases e, 1
  {
    if cond.None? {
      match e
      case Cond(_, _, _) =>
      case Atom(_) =>
      case Unsupported(_) =>
      case Nary(_, _, kids) => SplitKidsSelects(s, kids, |kids|, None, b);
      case Unary(_, _, kid) => SplitNextSelects(s, kid, None, b);
      case Call(_, _, _, _, _) => SplitCallSelects(s, e, b);
    }
  }

  lemma {:induction false} SplitNextSelects<V(!new)>(s: Sem<V>, next: Tree, cond: Option<Tree>, b: bool)
    requires Parenthetical(s)
    ensures Selects(s, next, SplitNext(next, cond), b)
    decreases next, 2
  {
    if Ahead(next).Some? {
      InterceptSelects(s, next, b);
    } else {
      SplitCopySelects(s, next, cond, b);
    }
  }

  lemma {:induction false} SplitKidSelects<V(!new)>(s: Sem<V>, kid: Option<Tree>, cond: Option<Tree>, b: bool)
    requires Parenthetical(s)
    ensures SelectsKids(s, [kid], 1, SplitKid(kid, cond), b)
    decreases kid, 3
  {
    if kid.Some? {
      SplitNextSelects(s, kid.value, cond, b);
      AsKidSelects(s, kid.value, SplitNext(kid.value, cond), b);
    }
  }

  lemma AsKidSelects<V(!new)>(s: Sem<V>, e: Tree, r: Outcome, b: bool)
    requires Selects(s, e, r, b)
    ensures SelectsKids(s, [Some(e)], 1, AsKid(r), b)
  {
  }

  lemma {:induction false} SplitKidsSelects<V(!new)>(s: Sem<V>, kids: seq<Option<Tree>>, n: nat, cond: Option<Tree>, b: bool)
    requires Parenthetical(s) && n <= |kids|
    ensures SelectsKids(s, kids, n, SplitKids(kids, n, cond), b)
    decreases kids, n
  {
    hide SelectsKids;
    hide SplitKid;
    hide Parenthetical;
    NoKidsSelect(s, kids, n, cond, b);
    if n > 0 {
      var before := SplitKids(kids, n - 1, cond);
      SplitKidsSelects(s, kids, n - 1, cond, b);
      if before.KidHalves? {
        var r := SplitKid(kids[n - 1], before.cond);
        SplitKidSelects(s, kids[n - 1], before.cond, b);
        if r.KidHalves? {
          AppendSelects(s, kids, n, before, r, b);
        }
      }
    }
  }

  lemma NoKidsSelect<V(!new)>(s: Sem<V>, kids: seq<Option<Tree>>, n: nat, cond: Option<Tree>, b: bool)
    requires n <= |kids|
    ensures SelectsKids(s, kids, 0, KidHalves([], [], cond, []), b)
    ensures forall failure :: SelectsKids(s, kids, n, KidsUnhandled(failure), b)
  {
  }

  lemma AppendSelects<V(!new)>(s: Sem<V>, kids: seq<Option<Tree>>, n: nat, p: KidsOutcome, q: KidsOutcome, b: bool)
    requires 0 < n <= |kids|
    requires p.KidHalves? && |p.onTrue| == |p.onFalse| == n - 1 && SelectsKids(s, kids, n - 1, p, b)
    requires q.KidHalves? && |q.onTrue| == |q.onFalse| == 1 && SelectsKids(s, [kids[n - 1]], 1, q, b)
    ensures SelectsKids(s, kids, n, KidHalves(p.onTrue + q.onTrue, p.onFalse + q.onFalse, q.cond, p.sites + q.sites), b)
  {
    hide Eval;
    hide EvalOpt;
    hide AllAgree;
    hide Injective;
    var x, y := PickKids(p, b), PickKids(q, b);
    AllAgreeConcat(s, p.sites, q.sites, b);
    EvalKidsPrefix(s, x, y, n - 1);
    var l, l' := EvalKids(s, kids, n - 1), EvalKids(s, x, n - 1);
    var m, m' := EvalOpt(s, kids[n - 1]), EvalOpt(s, y[0]);
    assert EvalKids(s, [kids[n - 1]], 1) == [m];
    assert EvalKids(s, y, 1) == [m'];
    assert EvalKids(s, kids, n) == l + [m];
    assert (x + y)[n - 1] == y[0];
    assert EvalKids(s, x + y, n) == l' + [m'];
    SameAppended(l, m, l', m');
  }

  lemma SameAppended<V>(l: seq<V>, m: V, l': seq<V>, m': V)
    requires |l| == |l'|
    ensures l + [m] == l' + [m'] <==> l == l' && m == m'
  {
    var k, k' := l + [m], l' + [m'];
    assert l == k[..|l|] && l' == k'[..|l|] && m == k[|l|] && m' == k'[|l|];
  }

  lemma OneKid<V>(s: Sem<V>, kids: seq<Option<Tree>>)
    requires |kids| == 1
    ensures EvalKids(s, kids, 1) == [EvalOpt(s, kids[0])]
  {
  }

  lemma {:induction false} OptionSelects<V(!new)>(s: Sem<V>, option: Option<Tree>, cond: Option<Tree>, b: bool)
    requires Parenthetical(s) && SplitKid(option, cond).KidHalves?
    ensures var r := SplitKid(option, cond);
            var same := EvalOpt(s, option) == EvalOpt(s, PickKids(r, b)[0]);
            (AllAgree(s, r.sites, b) ==> same) && (Injective(s) && same ==> AllAgree(s, r.sites, b))
    decreases option, 4
  {
    SplitKidSelects(s, option, cond, b);
    OneKid(s, [option]);
    OneKid(s, PickKids(SplitKid(option, cond), b));
  }

  // The components of two calls have the same values.
  ghost predicate SameParts<V>(s: Sem<V>, e: Tree, q: Tree)
    requires e.Call? && q.Call?
  {
    && Eval(s, e.called) == Eval(s, q.called)
    && EvalOpt(s, e.gas) == EvalOpt(s, q.gas)
    && EvalOpt(s, e.callValue) == EvalOpt(s, q.callValue)
    && EvalKids(s, e.args, |e.args|) == EvalKids(s, q.args, |q.args|)
  }

  ghost predicate SameCallShape(e: Tree, q: Tree) {
    && e.Call? && q.Call? && e.op == q.op && |e.args| == |q.args|
    && forall i :: 0 <= i < |e.args| ==> e.args[i].Some? == q.args[i].Some?
  }

  lemma SplitCallKeepsShape(e: Tree, b: bool)
    requires e.Call? && SplitCall(e).Halves?
    ensures SameCallShape(e, Pick(SplitCall(e), b))
  {
    hide SplitKid;
    hide SplitNext;
  }

  lemma CallIffParts<V(!new)>(s: Sem<V>, e: Tree, q: Tree)
    requires SameCallShape(e, q)
    ensures SameParts(s, e, q) ==> Eval(s, e) == Eval(s, q)
    ensures Injective(s) && Eval(s, e) == Eval(s, q) ==> SameParts(s, e, q)
  {
  }

  lemma {:induction false} SplitCallSelects<V(!new)>(s: Sem<V>, e: Tree, b: bool)
    requires Parenthetical(s) && e.Call?
    ensures Selects(s, e, SplitCall(e), b)
    decreases e, 0
  {
    hide AllAgree;
    hide SplitKid;
    hide SplitNext;
    hide Eval;
    hide EvalOpt;
    hide EvalKids;
    hide Injective;
    hide Parenthetical;
    var c := SplitNext(e.called, None);
    SplitNextSelects(s, e.called, None, b);
    if c.Halves? {
      var g := SplitKid(e.gas, c.cond);
      if g.KidHalves? {
        OptionSelects(s, e.gas, c.cond, b);
        AllAgreeConcat(s, c.sites, g.sites, b);
        if AheadOpt(e.gas).None? {
          var v := SplitKid(e.callValue, g.cond);
          if v.KidHalves? {
            OptionSelects(s, e.callValue, g.cond, b);
            AllAgreeConcat(s, c.sites + g.sites, v.sites, b);
            if AheadOpt(e.callValue).None? {
              SplitKidsSelects(s, e.args, |e.args|, v.cond, b);
              var a := SplitKids(e.args, |e.args|, v.cond);
              if a.KidHalves? {
                AllAgreeConcat(s, c.sites + g.sites + v.sites, a.sites, b);
              }
            }
          }
        }
      }
    }
    var r := SplitCall(e);
    if r.Halves? {
      SplitCallKeepsShape(e, b);
      CallIffParts(s, e, Pick(r, b));
    }
  }

  // ---------------------------------------------------------------------
  // Which ternaries are intercepted
  // ---------------------------------------------------------------------

  // Read off the expression.  Components are searched from left to right, in
  // full depth until some ternary is found; after that only ternaries directly
  // ahead are taken.
  ghost function Intercepted(e: Tree): seq<Tree>
    decreases e, 1
  {
    match e
    case Atom(_) => []
    case Unsupported(_) => []
    case Nary(_, _, kids) => Among([], kids, |kids|)
    case Unary(_, _, kid) => Intercepted(kid)
    case Call(_, _, _, _, _) => AmongCall(e)
    case Cond(_, _, _) => [e]
  }

  // The ternary c is all there is, bare or in one pair of parentheses.
  ghost predicate StandsAhead(t: Tree, c: Tree) {
    c.Cond? && (t == c || exists op :: t == Nary(Tuple, op, [Some(c)]))
  }

  lemma AheadStands(t: Tree, c: Tree)
    ensures Ahead(t) == Some(c) <==> StandsAhead(t, c)
  {
    if Ahead(t) == Some(c) && t != c {
      assert t == Nary(Tuple, t.op, [Some(c)]);
    }
  }

  // The ternary that stands there, if any.
  ghost function Standing(t: Tree): Option<Tree> {
    if exists c :: StandsAhead(t, c) then var c :| StandsAhead(t, c); Some(c) else None
  }

  ghost function StandingOpt(t: Option<Tree>): Option<Tree> {
    if t.Some? then Standing(t.value) else None
  }

  lemma StandingIsAhead(t: Tree)
    ensures Standing(t) == Ahead(t)
  {
    if exists c :: StandsAhead(t, c) {
      var c :| StandsAhead(t, c);
      AheadStands(t, c);
      AheadStands(t, Standing(t).value);
    }
    if Ahead(t).Some? { AheadStands(t, Ahead(t).value); }
  }

  lemma StandingOptIsAhead(t: Option<Tree>)
    ensures StandingOpt(t) == AheadOpt(t)
  {
    if t.Some? { StandingIsAhead(t.value); }
  }

  ghost function Among(found: seq<Tree>, kids: seq<Option<Tree>>, n: nat): seq<Tree>
    requires n <= |kids|
    decreases kids, n
  {
    if n == 0 then found else Then(Among(found, kids, n - 1), kids[n - 1])
  }

  ghost function Then(found: seq<Tree>, kid: Option<Tree>): seq<Tree>
    decreases kid, 2
  {
    if kid.None? then found
    else if |found| == 0 then Intercepted(kid.value)
    else if Standing(kid.value).Some? then found + [Standing(kid.value).value]
    else found
  }

  // A ternary as gas or as value ends the search.
  ghost function AmongCall(e: Tree): seq<Tree>
    requires e.Call?
    decreases e, 0
  {
    var g := Then(Intercepted(e.called), e.gas);
    if StandingOpt(e.gas).Some? then g
    else
      var v := Then(g, e.callValue);
      if StandingOpt(e.callValue).Some? then v else Among(v, e.args, |e.args|)
  }

  // No unsupported node is met before the first ternary.
  ghost predicate Handled(e: Tree)
    decreases e, 1
  {
    match e
    case Atom(_) => true
    case Unsupported(_) => false
    case Nary(_, _, kids) => HandledAmong([], kids, |kids|)
    case Unary(_, _, kid) => Handled(kid)
    case Call(_, _, _, _, _) => HandledCall(e)
    case Cond(_, _, _) => true
  }

  ghost predicate HandledAmong(found: seq<Tree>, kids: seq<Option<Tree>>, n: nat)
    requires n <= |kids|
    decreases kids, n
  {
    n == 0 || (HandledAmong(found, kids, n - 1) && HandledNext(Among(found, kids, n - 1), kids[n - 1]))
  }

  ghost predicate HandledNext(found: seq<Tree>, kid: Option<Tree>)
    decreases kid, 2
  {
    |found| == 0 && kid.Some? ==> Handled(kid.value)
  }

  ghost predicate HandledCall(e: Tree)
    requires e.Call?
    decreases e, 0
  {
    var c := Intercepted(e.called);
    var g := Then(c, e.gas);
    var v := Then(g, e.callValue);
    && Handled(e.called) && HandledNext(c, e.gas)
    && (StandingOpt(e.gas).None? ==> HandledNext(g, e.callValue))
    && (StandingOpt(e.gas).None? && StandingOpt(e.callValue).None? ==> HandledAmong(v, e.args, |e.args|))
  }

  // What stands ahead is what is found at that place.
  lemma AheadIsIntercepted(next: Tree)
    requires Ahead(next).Some?
    ensures Handled(next) && Intercepted(next) == [Ahead(next).value]
  {
    if !next.Cond? {
      assert Among([], next.kids, 0) == [];
      assert Among([], next.kids, 1) == Intercepted(next.kids[0].value);
      assert HandledAmong([], next.kids, 0);
    }
  }

  // The outcome r of a part of the rewrite that starts with `found`.
  ghost predicate Finds(r: Outcome, found: seq<Tree>, handled: bool, after: seq<Tree>) {
    && (r.Halves? <==> handled) && (r.Unhandled? ==> r.failure.NotHandled?)
    && (r.Halves? ==> found + r.sites == after && (r.cond.None? <==> |after| == 0))
  }

  ghost predicate FindsKids(r: KidsOutcome, found: seq<Tree>, handled: bool, after: seq<Tree>) {
    && (r.KidHalves? <==> handled) && (r.KidsUnhandled? ==> r.failure.NotHandled?)
    && (r.KidHalves? ==> found + r.sites == after && (r.cond.None? <==> |after| == 0))
  }

  lemma {:induction false} CopyFinds(e: Tree)
    requires !e.Cond?
    ensures Finds(SplitCopy(e, None), [], Handled(e), Intercepted(e))
    decreases e, 1
  {
    match e
    case Atom(_) =>
    case Unsupported(_) =>
    case Nary(_, _, kids) => KidsFind(kids, |kids|, None, []);
    case Unary(_, _, kid) => NextFinds(kid, None, []);
    case Call(_, _, _, _, _) => CallFinds(e);
  }

  lemma {:induction false} NextFinds(next: Tree, cond: Option<Tree>, found: seq<Tree>)
    requires cond.None? <==> |found| == 0
    ensures Finds(SplitNext(next, cond), found, HandledNext(found, Some(next)), Then(found, Some(next)))
    decreases next, 2
  {
    StandingIsAhead(next);
    if Ahead(next).Some? {
      AheadIsIntercepted(next);
    } else if cond.None? {
      CopyFinds(next);
    }
  }

  lemma {:induction false} KidFinds(kid: Option<Tree>, cond: Option<Tree>, found: seq<Tree>)
    requires cond.None? <==> |found| == 0
    ensures FindsKids(SplitKid(kid, cond), found, HandledNext(found, kid), Then(found, kid))
    decreases kid, 3
  {
    if kid.Some? { NextFinds(kid.value, cond, found); }
  }

  lemma {:induction false} KidsFind(kids: seq<Option<Tree>>, n: nat, cond: Option<Tree>, found: seq<Tree>)
    requires n <= |kids| && (cond.None? <==> |found| == 0)
    ensures FindsKids(SplitKids(kids, n, cond), found, HandledAmong(found, kids, n), Among(found, kids, n))
    decreases kids, n
  {
    hide SplitKid;
    hide Then;
    hide HandledNext;
    if n > 0 {
      KidsFind(kids, n - 1, cond, found);
      var before := SplitKids(kids, n - 1, cond);
      if before.KidHalves? {
        KidFinds(kids[n - 1], before.cond, found + before.sites);
        var r := SplitKid(kids[n - 1], before.cond);
        if r.KidHalves? { assert found + (before.sites + r.sites) == found + before.sites + r.sites; }
      }
    }
  }

  lemma {:induction false} CallFinds(e: Tree)
    requires e.Call?
    ensures Finds(SplitCall(e), [], HandledCall(e), AmongCall(e))
    decreases e, 0
  {
    hide SplitKid;
    hide SplitNext;
    hide Then;
    hide HandledNext;
    hide Standing;
    hide StandingOpt;
    var c := SplitNext(e.called, None);
    StandingOptIsAhead(e.gas);
    StandingOptIsAhead(e.callValue);
    CalledFinds(e);
    if c.Halves? {
      assert [] + c.sites == c.sites;
      KidFinds(e.gas, c.cond, c.sites);
      var g := SplitKid(e.gas, c.cond);
      if g.KidHalves? {
        if AheadOpt(e.gas).None? {
          KidFinds(e.callValue, g.cond, c.sites + g.sites);
          var v := SplitKid(e.callValue, g.cond);
          if v.KidHalves? {
            if AheadOpt(e.callValue).None? {
              KidsFind(e.args, |e.args|, v.cond, c.sites + g.sites + v.sites);
            }
          }
        }
      }
    }
    var r := SplitCall(e);
    if r.Halves? { assert [] + r.sites == r.sites; }
  }

  lemma {:induction false} CalledFinds(e: Tree)
    requires e.Call?
    ensures Finds(SplitNext(e.called, None), [], Handled(e.called), Intercepted(e.called))
    decreases e.called, 4
  {
    NextFinds(e.called, None, []);
  }

  // A ternary as gas, bare or in parentheses, is the last one intercepted, and
  // what follows it in the call is left whole.
  lemma GasEndsTheSplit(e: Tree, c: Tree)
    requires e.Call? && e.gas.Some? && StandsAhead(e.gas.value, c) && Split(e).Halves?
    ensures var r := Split(e);
            && r.cond == Some(c.ifPart) && |r.sites| > 0 && r.sites[|r.sites| - 1] == c
            && r.onTrue.Call? && r.onTrue.gas == Some(c.thenPart)
            && r.onFalse.Call? && r.onFalse.gas == Some(c.elsePart)
            && r.onTrue.callValue == r.onFalse.callValue == e.callValue
            && r.onTrue.args == r.onFalse.args == e.args
  {
    hide SplitNext;
    AheadStands(e.gas.value, c);
    assert Split(e) == SplitCopy(e, None) == SplitCall(e);
    var called := SplitNext(e.called, None);
    assert called.Halves?;
    NextOnSite(e.gas.value, c, called.cond);
    assert SplitKid(e.gas, called.cond) == KidHalves([Some(c.thenPart)], [Some(c.elsePart)], Some(c.ifPart), [c]);
    assert Split(e).sites == called.sites + [c];
  }

  // So is one as value, unless gas has ended the walk before.
  lemma ValueEndsTheSplit(e: Tree, c: Tree)
    requires e.Call? && e.callValue.Some? && StandsAhead(e.callValue.value, c) && Split(e).Halves?
    requires e.gas.Some? ==> forall d :: !StandsAhead(e.gas.value, d)
    ensures var r := Split(e);
            && r.cond == Some(c.ifPart) && |r.sites| > 0 && r.sites[|r.sites| - 1] == c
            && r.onTrue.Call? && r.onTrue.callValue == Some(c.thenPart)
            && r.onFalse.Call? && r.onFalse.callValue == Some(c.elsePart)
            && r.onTrue.args == r.onFalse.args == e.args
  {
    hide SplitNext;
    AheadStands(e.callValue.value, c);
    if e.gas.Some? { StandingIsAhead(e.gas.value); }
    assert AheadOpt(e.gas).None?;
    assert Split(e) == SplitCopy(e, None) == SplitCall(e);
    var called := SplitNext(e.called, None);
    assert called.Halves?;
    var gas := SplitKid(e.gas, called.cond);
    assert gas.KidHalves?;
    NextOnSite(e.callValue.value, c, gas.cond);
    assert SplitKid(e.callValue, gas.cond) == KidHalves([Some(c.thenPart)], [Some(c.elsePart)], Some(c.ifPart), [c]);
    assert Split(e) ==
      SplitCallTail(e, e.(called := called.onTrue, gas := gas.onTrue[0]), e.(called := called.onFalse, gas := gas.onFalse[0]),
                    gas.cond, called.sites + gas.sites);
    assert Split(e).sites == called.sites + gas.sites + [c];
  }

  lemma NextOnSite(next: Tree, c: Tree, cond: Option<Tree>)
    requires Ahead(next) == Some(c)
    ensures SplitNext(next, cond) == Halves(c.thenPart, c.elsePart, Some(c.ifPart), [c])
  {
  }

  // The split succeeds exactly when no unsupported node is met before the
  // first ternary, raises "not handled" otherwise and "nested ternary" never,
  // and intercepts exactly the ternaries read off the expression.
  lemma SplitFinds(e: Tree)
    ensures Finds(Split(e), [], Handled(e), Intercepted(e))
  {
    if !e.Cond? { CopyFinds(e); }
  }

  ghost function Ternaries(e: Tree): nat
    decreases e, 1
  {
    match e
    case Atom(_) => 0
    case Unsupported(_) => 0
    case Nary(_, _, kids) => TernariesIn(kids, |kids|)
    case Unary(_, _, kid) => Ternaries(kid)
    case Call(_, called, gas, value, args) =>
      Ternaries(called) + TernariesOpt(gas) + TernariesOpt(value) + TernariesIn(args, |args|)
    case Cond(c, t, f) => 1 + Ternaries(c) + Ternaries(t) + Ternaries(f)
  }

  ghost function TernariesOpt(kid: Option<Tree>): nat
    decreases kid, 0
  {
    if kid.None? then 0 else Ternaries(kid.value)
  }

  ghost function TernariesIn(kids: seq<Option<Tree>>, n: nat): nat
    requires n <= |kids|
    decreases kids, n
  {
    if n == 0 then 0 else TernariesIn(kids, n - 1) + TernariesOpt(kids[n - 1])
  }

  // No ternary is taken twice, and if there is one, one is taken.
  lemma {:induction false} InterceptedCount(e: Tree)
    ensures |Intercepted(e)| <= Ternaries(e) && (|Intercepted(e)| == 0 <==> Ternaries(e) == 0)
    decreases e, 1
  {
    match e
    case Atom(_) =>
    case Unsupported(_) =>
    case Nary(_, _, kids) => AmongCount([], kids, |kids|);
    case Unary(_, _, kid) => InterceptedCount(kid);
    case Call(_, called, gas, value, args) =>
      InterceptedCount(called);
      ThenCount(Intercepted(called), gas);
      ThenCount(Then(Intercepted(called), gas), value);
      AmongCount(Then(Then(Intercepted(called), gas), value), args, |args|);
    case Cond(_, _, _) =>
  }

  // Then adds at most what the component holds, and something if it is the
  // first to hold anything.
  ghost predicate Counts(found: seq<Tree>, after: seq<Tree>, ternaries: nat) {
    && |found| <= |after| <= |found| + ternaries
    && (|after| == 0 <==> |found| == 0 && ternaries == 0)
  }

  lemma {:induction false} ThenCount(found: seq<Tree>, kid: Option<Tree>)
    ensures Counts(found, Then(found, kid), TernariesOpt(kid))
    ensures StandingOpt(kid).Some? ==> |Then(found, kid)| > 0
    decreases kid, 2
  {
    if kid.Some? {
      StandingIsAhead(kid.value);
      InterceptedCount(kid.value);
      if Ahead(kid.value).Some? { AheadIsIntercepted(kid.value); }
    }
  }

  lemma {:induction false} AmongCount(found: seq<Tree>, kids: seq<Option<Tree>>, n: nat)
    requires n <= |kids|
    ensures Counts(found, Among(found, kids, n), TernariesIn(kids, n))
    decreases kids, n
  {
    if n > 0 {
      AmongCount(found, kids, n - 1);
      ThenCount(Among(found, kids, n - 1), kids[n - 1]);
    }
  }

  // ---------------------------------------------------------------------
  // Main results
  // ---------------------------------------------------------------------

  // The meaning the rewrite is for: the condition chooses between the halves.
  ghost predicate Preserves<V>(s: Sem<V>, e: Tree, r: Outcome)
    requires r.Halves? && r.cond.Some?
  {
    Eval(s, e) == if s.truth(Eval(s, r.cond.value)) then Eval(s, r.onTrue) else Eval(s, r.onFalse)
  }

  lemma SplitSelects<V(!new)>(s: Sem<V>, e: Tree, b: bool)
    requires Parenthetical(s)
    ensures Selects(s, e, Split(e), b)
  {
    if e.Cond? {
      assert Ahead(e) == Some(e);
      InterceptSelects(s, e, b);
    } else {
      SplitCopySelects(s, e, None, b);
    }
  }

  // The condition kept is the one of the last intercepted ternary, and there
  // is one exactly when a ternary was intercepted.
  ghost predicate KeepsLast(cond: Option<Tree>, sites: seq<Tree>, before: Option<Tree>) {
    && (forall i :: 0 <= i < |sites| ==> sites[i].Cond?)
    && cond == (if sites == [] then before else Some(sites[|sites| - 1].ifPart))
  }

  lemma {:induction false} CopyKeepsLast(e: Tree, cond: Option<Tree>)
    ensures var r := SplitCopy(e, cond); r.Halves? ==> KeepsLast(r.cond, r.sites, cond)
    decreases e, 1
  {
    if cond.None? {
      match e
      case Cond(_, _, _) =>
      case Atom(_) =>
      case Unsupported(_) =>
      case Nary(_, _, kids) => KidsKeepLast(kids, |kids|, None);
      case Unary(_, _, kid) => NextKeepsLast(kid, None);
      case Call(_, _, _, _, _) => CallKeepsLast(e);
    }
  }

  lemma KeepsLastConcat(c0: Option<Tree>, p: seq<Tree>, c1: Option<Tree>, q: seq<Tree>, c2: Option<Tree>)
    requires KeepsLast(c1, p, c0) && KeepsLast(c2, q, c1)
    ensures KeepsLast(c2, p + q, c0)
  {
  }

  lemma {:induction false} NextKeepsLast(next: Tree, cond: Option<Tree>)
    ensures var r := SplitNext(next, cond); r.Halves? ==> KeepsLast(r.cond, r.sites, cond)
    decreases next, 2
  {
    if Ahead(next).None? { CopyKeepsLast(next, cond); }
  }

  lemma {:induction false} CallKeepsLast(e: Tree)
    requires e.Call?
    ensures var r := SplitCall(e); r.Halves? ==> KeepsLast(r.cond, r.sites, None)
    decreases e, 0
  {
    var c := SplitNext(e.called, None);
    NextKeepsLast(e.called, None);
    if c.Halves? {
      var g := SplitKid(e.gas, c.cond);
      KidKeepsLast(e.gas, c.cond);
      if g.KidHalves? {
        KeepsLastConcat(None, c.sites, c.cond, g.sites, g.cond);
        var v := SplitKid(e.callValue, g.cond);
        KidKeepsLast(e.callValue, g.cond);
        if v.KidHalves? {
          KeepsLastConcat(None, c.sites + g.sites, g.cond, v.sites, v.cond);
          KidsKeepLast(e.args, |e.args|, v.cond);
          var a := SplitKids(e.args, |e.args|, v.cond);
          if a.KidHalves? {
            KeepsLastConcat(None, c.sites + g.sites + v.sites, v.cond, a.sites, a.cond);
          }
        }
      }
    }
  }

  lemma {:induction false} KidKeepsLast(kid: Option<Tree>, cond: Option<Tree>)
    ensures var r := SplitKid(kid, cond); r.KidHalves? ==> KeepsLast(r.cond, r.sites, cond)
    decreases kid, 3
  {
    if kid.Some? { NextKeepsLast(kid.value, cond); }
  }

  lemma {:induction false} KidsKeepLast(kids: seq<Option<Tree>>, n: nat, cond: Option<Tree>)
    requires n <= |kids|
    ensures var r := SplitKids(kids, n, cond); r.KidHalves? ==> KeepsLast(r.cond, r.sites, cond)
    decreases kids, n
  {
    if n > 0 {
      KidsKeepLast(kids, n - 1, cond);
      var before := SplitKids(kids, n - 1, cond);
      if before.KidHalves? {
        var r := SplitKid(kids[n - 1], before.cond);
        KidKeepsLast(kids[n - 1], before.cond);
        if r.KidHalves? { KeepsLastConcat(cond, before.sites, before.cond, r.sites, r.cond); }
      }
    }
  }

  // The condition that the splitter ends with.
  ghost function LastCondition(e: Tree): Tree
    requires |Intercepted(e)| > 0 && forall i :: 0 <= i < |Intercepted(e)| ==> Intercepted(e)[i].Cond?
  {
    Intercepted(e)[|Intercepted(e)| - 1].ifPart
  }

  lemma SplitKeepsLast(e: Tree)
    requires Split(e).Halves?
    ensures KeepsLast(Split(e).cond, Split(e).sites, None)
  {
    if !e.Cond? { CopyKeepsLast(e, None); }
  }

  lemma ConditionIsLast(e: Tree)
    requires Handled(e) && Ternaries(e) > 0
    ensures Split(e).Halves? && Split(e).sites == Intercepted(e) && |Intercepted(e)| > 0
    ensures forall i :: 0 <= i < |Intercepted(e)| ==> Intercepted(e)[i].Cond?
    ensures Split(e).cond == Some(LastCondition(e))
  {
    hide Split;
    hide Intercepted;
    hide Handled;
    hide Ternaries;
    SplitFinds(e);
    InterceptedCount(e);
    SplitKeepsLast(e);
    assert [] + Split(e).sites == Split(e).sites;
  }

  // With an injective semantics the meaning is kept if and only if every
  // intercepted ternary, though its own condition may have been overwritten,
  // agrees with the branch that the last condition selects.
  lemma PreservedIffAllAgree<V(!new)>(s: Sem<V>, e: Tree)
    requires Parenthetical(s) && Handled(e) && Ternaries(e) > 0
    ensures Split(e).Halves? && Split(e).cond.Some? && |Intercepted(e)| > 0
    ensures forall i :: 0 <= i < |Intercepted(e)| ==> Intercepted(e)[i].Cond?
    ensures var b := s.truth(Eval(s, LastCondition(e)));
            (AllAgree(s, Intercepted(e), b) ==> Preserves(s, e, Split(e))) &&
            (Injective(s) ==> (Preserves(s, e, Split(e)) <==> AllAgree(s, Intercepted(e), b)))
  {
    ConditionIsLast(e);
    SplitSelects(s, e, s.truth(Eval(s, LastCondition(e))));
  }

  ghost predicate OneCondition(sites: seq<Tree>) {
    forall i, j :: 0 <= i < j < |sites| && sites[i].Cond? && sites[j].Cond? ==> sites[i].ifPart == sites[j].ifPart
  }

  // One condition among all intercepted ternaries is enough for every
  // semantics.
  lemma OneConditionPreserves<V(!new)>(s: Sem<V>, e: Tree)
    requires Parenthetical(s) && Handled(e) && Ternaries(e) > 0 && OneCondition(Intercepted(e))
    ensures Split(e).Halves? && Split(e).cond.Some? && Preserves(s, e, Split(e))
  {
    PreservedIffAllAgree(s, e);
    var sites := Intercepted(e);
    forall i | 0 <= i < |sites|
      ensures Agrees(s, sites[i], s.truth(Eval(s, LastCondition(e))))
    {
      assert sites[i].ifPart == sites[|sites| - 1].ifPart;
    }
  }

  // An expression that holds one ternary, at any depth, keeps its meaning.
  lemma OneTernaryPreserves<V(!new)>(s: Sem<V>, e: Tree)
    requires Parenthetical(s) && Handled(e) && Ternaries(e) == 1
    ensures Split(e).Halves? && Split(e).cond.Some? && Preserves(s, e, Split(e))
  {
    InterceptedCount(e);
    OneConditionPreserves(s, e);
  }

  // ---------------------------------------------------------------------
  // No ternary, no unsupported node
  // ---------------------------------------------------------------------

  ghost predicate Supported(e: Tree) {
    match e
    case Atom(_) => true
    case Unsupported(_) => false
    case Nary(_, _, kids) => forall i :: 0 <= i < |kids| && kids[i].Some? ==> Supported(kids[i].value)
    case Unary(_, _, kid) => Supported(kid)
    case Call(_, called, gas, value, args) =>
      && Supported(called)
      && (gas.Some? ==> Supported(gas.value))
      && (value.Some? ==> Supported(value.value))
      && (forall i :: 0 <= i < |args| && args[i].Some? ==> Supported(args[i].value))
    case Cond(c, t, f) => Supported(c) && Supported(t) && Supported(f)
  }

  // Without a ternary both halves are the expression itself.
  lemma {:induction false} NoTernaryCopies(e: Tree, cond: Option<Tree>)
    requires Ternaries(e) == 0
    ensures var r := SplitCopy(e, cond); r.Halves? ==> r.onTrue == r.onFalse == e && r.cond == cond && r.sites == []
    decreases e, 1
  {
    if cond.None? {
      match e
      case Cond(_, _, _) =>
      case Atom(_) =>
      case Unsupported(_) =>
      case Nary(_, _, kids) =>
        NoTernaryKids(kids, |kids|, None);
        assert kids[..|kids|] == kids;
      case Unary(_, _, kid) => NoTernaryNext(kid, None);
      case Call(_, _, _, _, _) => NoTernaryCall(e);
    }
  }

  lemma {:induction false} NoTernaryCall(e: Tree)
    requires Ternaries(e) == 0 && e.Call?
    ensures var r := SplitCall(e); r.Halves? ==> r.onTrue == r.onFalse == e && r.cond.None? && r.sites == []
    decreases e, 0
  {
    NoTernaryNext(e.called, None);
    NoTernaryKid(e.gas, None);
    NoTernaryKid(e.callValue, None);
    NoTernaryKids(e.args, |e.args|, None);
    assert e.args[..|e.args|] == e.args;
  }

  lemma {:induction false} NoTernaryNext(e: Tree, cond: Option<Tree>)
    requires Ternaries(e) == 0
    ensures Ahead(e).None?
    ensures var r := SplitNext(e, cond); r.Halves? ==> r.onTrue == r.onFalse == e && r.cond == cond && r.sites == []
    decreases e, 2
  {
    NoTernaryCopies(e, cond);
    InterceptedCount(e);
    if Ahead(e).Some? { AheadIsIntercepted(e); }
  }

  lemma {:induction false} NoTernaryKid(kid: Option<Tree>, cond: Option<Tree>)
    requires TernariesOpt(kid) == 0
    ensures AheadOpt(kid).None?
    ensures var r := SplitKid(kid, cond);
            r.KidHalves? ==> r.onTrue == r.onFalse == [kid] && r.cond == cond && r.sites == []
    decreases kid, 3
  {
    if kid.Some? { NoTernaryNext(kid.value, cond); }
  }

  lemma {:induction false} NoTernaryKids(kids: seq<Option<Tree>>, n: nat, cond: Option<Tree>)
    requires n <= |kids| && TernariesIn(kids, n) == 0
    ensures var r := SplitKids(kids, n, cond);
            r.KidHalves? ==> r.onTrue == r.onFalse == kids[..n] && r.cond == cond && r.sites == []
    decreases kids, n
  {
    hide SplitKid;
    if n > 0 {
      NoTernaryKids(kids, n - 1, cond);
      NoTernaryKid(kids[n - 1], cond);
      assert kids[..n] == kids[..n - 1] + [kids[n - 1]];
    }
  }

  // Wherever a ternary stands, one is intercepted: there is no condition
  // exactly when the expression holds no ternary at all.
  lemma ConditionIffTernary(e: Tree)
    requires Split(e).Halves?
    ensures Split(e).cond.None? <==> Ternaries(e) == 0
  {
    SplitFinds(e);
    InterceptedCount(e);
  }

  // Without an unsupported node nothing is raised.
  lemma {:induction false} SupportedIsHandled(e: Tree)
    requires Supported(e)
    ensures Handled(e)
    decreases e, 1
  {
    match e
    case Atom(_) =>
    case Unsupported(_) =>
    case Nary(_, _, kids) => SupportedKids([], kids, |kids|);
    case Unary(_, _, kid) => SupportedIsHandled(kid);
    case Call(_, called, gas, value, args) =>
      SupportedIsHandled(called);
      if gas.Some? { SupportedIsHandled(gas.value); }
      if value.Some? { SupportedIsHandled(value.value); }
      SupportedKids(Then(Then(Intercepted(called), gas), value), args, |args|);
    case Cond(_, _, _) =>
  }

  lemma {:induction false} SupportedKids(found: seq<Tree>, kids: seq<Option<Tree>>, n: nat)
    requires n <= |kids| && forall i :: 0 <= i < |kids| && kids[i].Some? ==> Supported(kids[i].value)
    ensures HandledAmong(found, kids, n)
    decreases kids, n
  {
    if n > 0 {
      SupportedKids(found, kids, n - 1);
      SupportedKid(kids[n - 1]);
    }
  }

  lemma {:induction false} SupportedKid(kid: Option<Tree>)
    requires kid.Some? ==> Supported(kid.value)
    ensures kid.Some? ==> Handled(kid.value)
    decreases kid, 2
  {
    if kid.Some? { SupportedIsHandled(kid.value); }
  }

  // ---------------------------------------------------------------------
  // Two ternaries with different conditions
  // ---------------------------------------------------------------------

  // A semantics in which values record how they were built, and every atom
  // with a positive number is true.
  datatype Record =
    | Atomic(op: int)
    | Many(nkind: NaryKind, op: int, kids: seq<Option<Record>>)
    | One(ukind: UnaryKind, op: int, kid: Record)
    | Called(op: int, called: Record, gas: Option<Record>, value: Option<Record>, args: seq<Option<Record>>)

  function RecordNary(k: NaryKind, op: int, kids: seq<Option<Record>>): Record {
    if k.Tuple? && |kids| == 1 && kids[0].Some? then kids[0].value else Many(k, op, kids)
  }

  const RECORDS: Sem<Record> := Sem(
    (op: int) => Atomic(op),
    (op: int) => Atomic(op),
    (k, op, kids) => RecordNary(k, op, kids),
    (k, op, kid) => One(k, op, kid),
    (op, called, gas, value, args) => Called(op, called, gas, value, args),
    (v: Record) => v.Atomic? && v.op > 0)

  // The hypotheses of PreservedIffAllAgree can be met.
  lemma RecordsAreInjective()
    ensures Parenthetical(RECORDS) && Injective(RECORDS)
  {
  }

  const FIRST := Cond(Atom(1), Atom(2), Atom(3))
  const SECOND := Cond(Atom(0), Atom(4), Atom(5))
  const SUM_OF_TWO := Nary(Binary, 0, [Some(FIRST), Some(SECOND)])

  lemma BothIntercepted()
    ensures Handled(SUM_OF_TWO) && Ternaries(SUM_OF_TWO) == 2 && Intercepted(SUM_OF_TWO) == [FIRST, SECOND]
  {
    var kids := SUM_OF_TWO.kids;
    StandingIsAhead(SECOND);
    assert Ahead(SECOND) == Some(SECOND);
    assert Then([], Some(FIRST)) == [FIRST] && Then([FIRST], Some(SECOND)) == [FIRST] + [SECOND];
    assert Among([], kids, 0) == [];
    assert Among([], kids, 1) == [FIRST];
    assert Among([], kids, 2) == [FIRST] + [SECOND];
    assert HandledAmong([], kids, 0);
    assert HandledNext([], Some(FIRST)) && HandledAmong([], kids, 1);
    assert HandledNext([FIRST], Some(SECOND)) && HandledAmong([], kids, 2);
    assert Ternaries(FIRST) == 1 && Ternaries(SECOND) == 1;
    assert TernariesIn(kids, 0) == 0;
    assert TernariesIn(kids, 1) == 1;
    assert TernariesIn(kids, 2) == 2;
  }

  // (1 ? 2 : 3) + (0 ? 4 : 5) is 2 + 5, but the split gives 3 + 5.
  lemma SecondTernaryOverwritesCondition()
    ensures var r := Split(SUM_OF_TWO);
            r.Halves? && r.cond == Some(SECOND.ifPart) && !Preserves(RECORDS, SUM_OF_TWO, r)
  {
    hide Intercepted;
    hide Split;
    hide Preserves;
    hide Handled;
    hide Ternaries;
    hide Injective;
    BothIntercepted();
    RecordsAreInjective();
    ConditionIsLast(SUM_OF_TWO);
    PreservedIffAllAgree(RECORDS, SUM_OF_TWO);
    assert LastCondition(SUM_OF_TWO) == Atom(0) && !RECORDS.truth(Eval(RECORDS, Atom(0)));
    assert !Agrees(RECORDS, Intercepted(SUM_OF_TWO)[0], false);
    assert !AllAgree(RECORDS, Intercepted(SUM_OF_TWO), false);
  }
}
