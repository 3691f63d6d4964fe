// The ternary splitter on mutable expression nodes
// (slither/utils/expression_manipulations.py).
//
// Nodes are copied shallowly, so a copy shares its children and its lists with
// the original until the rewrite replaces them.  The splitter is proved to
// write only objects it allocated itself and to compute TernaryTrees.Split.
module TernarySplit {
  import opened Options
  import opened TernaryTrees

  datatype Kind =
    | AtomKind
    | UnsupportedKind
    | NaryNode(nkind: NaryKind)
    | UnaryNode(ukind: UnaryKind)
    | CallKind
    | CondKind

  class ExprList {
    var items: seq<Expression?>

    constructor (items: seq<Expression?>)
      ensures this.items == items
    {
      this.items := items;
    }

    method Append(x: Expression?)
      modifies this
      ensures items == old(items) + [x]
    {
      items := items + [x];
    }
  }

  // One class for all expression classes; a node uses the fields of its kind.
  class Expression {
    const kind: Kind
    const op: int
    var expressions: ExprList?
    var expression: Expression?
    var called: Expression?
    var gas: Expression?
    var callValue: Expression?
    var arguments: ExprList?
    var ifExpression: Expression?
    var thenExpression: Expression?
    var elseExpression: Expression?

    // copy.copy
    constructor Copy(x: Expression)
      ensures IsCopy(this, x)
    {
      kind, op := x.kind, x.op;
      expressions, expression, called := x.expressions, x.expression, x.called;
      gas, callValue, arguments := x.gas, x.callValue, x.arguments;
      ifExpression, thenExpression, elseExpression := x.ifExpression, x.thenExpression, x.elseExpression;
    }
  }

  ghost predicate IsCopy(c: Expression, x: Expression)
    reads c, x
  {
    && c.kind == x.kind && c.op == x.op
    && c.expressions == x.expressions && c.expression == x.expression && c.called == x.called
    && c.gas == x.gas && c.callValue == x.callValue && c.arguments == x.arguments
    && c.ifExpression == x.ifExpression && c.thenExpression == x.thenExpression
    && c.elseExpression == x.elseExpression
  }

  // Within the region s, node e is the root of the tree t.
  ghost predicate Denotes(s: set<object>, e: Expression, t: Tree)
    reads s
    decreases t
  {
    e in s &&
    match t
    case Atom(op) => e.kind == AtomKind && e.op == op
    case Unsupported(op) => e.kind == UnsupportedKind && e.op == op
    case Nary(k, op, kids) =>
      && e.kind == NaryNode(k) && e.op == op
      && e.expressions != null && e.expressions in s && |e.expressions.items| == |kids|
      && forall i :: 0 <= i < |kids| ==> DenotesOpt(s, e.expressions.items[i], kids[i])
    case Unary(k, op, kid) =>
      && e.kind == UnaryNode(k) && e.op == op
      && e.expression != null && Denotes(s, e.expression, kid)
    case Call(op, called, gas, value, args) =>
      && e.kind == CallKind && e.op == op
      && e.called != null && Denotes(s, e.called, called)
      && DenotesOpt(s, e.gas, gas)
      && DenotesOpt(s, e.callValue, value)
      && e.arguments != null && e.arguments in s && |e.arguments.items| == |args|
      && forall i :: 0 <= i < |args| ==> args[i].Some? && DenotesOpt(s, e.arguments.items[i], args[i])
    case Cond(c, l, r) =>
      && e.kind == CondKind
      && e.ifExpression != null && Denotes(s, e.ifExpression, c)
      && e.thenExpression != null && Denotes(s, e.thenExpression, l)
      && e.elseExpression != null && Denotes(s, e.elseExpression, r)
  }

  ghost predicate DenotesOpt(s: set<object>, e: Expression?, t: Option<Tree>)
    reads s
    decreases t
  {
    if t.None? then e == null else e != null && Denotes(s, e, t.value)
  }

  lemma {:induction false} DenotesGrows(s: set<object>, s': set<object>, e: Expression, t: Tree)
    requires Denotes(s, e, t) && s <= s'
    ensures Denotes(s', e, t)
    decreases t
  {
    match t
    case Atom(_) =>
    case Unsupported(_) =>
    case Nary(_, _, kids) =>
      forall i | 0 <= i < |kids|
        ensures DenotesOpt(s', e.expressions.items[i], kids[i])
      {
        DenotesOptGrows(s, s', e.expressions.items[i], kids[i]);
      }
    case Unary(_, _, kid) => DenotesGrows(s, s', e.expression, kid);
    case Call(_, called, gas, value, args) =>
      DenotesGrows(s, s', e.called, called);
      DenotesOptGrows(s, s', e.gas, gas);
      DenotesOptGrows(s, s', e.callValue, value);
      forall i | 0 <= i < |args|
        ensures DenotesOpt(s', e.arguments.items[i], args[i])
      {
        DenotesOptGrows(s, s', e.arguments.items[i], args[i]);
      }
    case Cond(c, l, r) =>
      DenotesGrows(s, s', e.ifExpression, c);
      DenotesGrows(s, s', e.thenExpression, l);
      DenotesGrows(s, s', e.elseExpression, r);
  }

  lemma {:induction false} DenotesOptGrows(s: set<object>, s': set<object>, e: Expression?, t: Option<Tree>)
    requires DenotesOpt(s, e, t) && s <= s'
    ensures DenotesOpt(s', e, t)
    decreases t
  {
    if t.Some? { DenotesGrows(s, s', e, t.value); }
  }

  // A shallow copy denotes the tree of its original.
  lemma CopyDenotes(s: set<object>, c: Expression, x: Expression, t: Tree)
    requires Denotes(s, x, t) && IsCopy(c, x)
    ensures Denotes(s + {c}, c, t)
  {
    DenotesGrows(s, s + {c}, x, t);
  }

  ghost predicate DenotesAll(s: set<object>, items: seq<Expression?>, kids: seq<Option<Tree>>)
    reads s
  {
    |items| == |kids| && forall i :: 0 <= i < |kids| ==> DenotesOpt(s, items[i], kids[i])
  }

  lemma DenotesAllAppend(s: set<object>, items: seq<Expression?>, kids: seq<Option<Tree>>,
                         s': set<object>, x: Expression?, kid: seq<Option<Tree>>)
    requires DenotesAll(s, items, kids) && s <= s'
    requires |kid| == 1 && DenotesOpt(s', x, kid[0])
    ensures DenotesAll(s', items + [x], kids + kid)
  {
    forall i | 0 <= i < |kids|
      ensures DenotesOpt(s', items[i], kids[i])
    {
      DenotesOptGrows(s, s', items[i], kids[i]);
    }
  }

  lemma ItemsGrow(s: set<object>, s': set<object>, items: seq<Expression?>, kids: seq<Option<Tree>>)
    requires DenotesAll(s, items, kids) && s <= s'
    ensures DenotesAll(s', items, kids)
  {
    forall i | 0 <= i < |kids|
      ensures DenotesOpt(s', items[i], kids[i])
    {
      DenotesOptGrows(s, s', items[i], kids[i]);
    }
  }

  lemma {:induction false} UnhandledStays(kids: seq<Option<Tree>>, i: nat, n: nat, cond: Option<Tree>)
    requires i <= n <= |kids| && SplitKids(kids, i, cond).KidsUnhandled?
    ensures SplitKids(kids, n, cond).KidsUnhandled?
  {
    if i < n { UnhandledStays(kids, i, n - 1, cond); }
  }

  // Looks through one pair of parentheses for a ternary.
  method LookAhead(next: Expression, ghost s: set<object>, ghost t: Tree) returns (ahead: Expression)
    requires Denotes(s, next, t)
    ensures ahead.kind == CondKind <==> Ahead(t).Some?
    ensures Ahead(t).Some? ==>
              && DenotesOpt(s, ahead.ifExpression, Some(Ahead(t).value.ifPart))
              && DenotesOpt(s, ahead.thenExpression, Some(Ahead(t).value.thenPart))
              && DenotesOpt(s, ahead.elseExpression, Some(Ahead(t).value.elsePart))
  {
    ahead := next;
    if next.kind == NaryNode(Tuple) && |next.expressions.items| == 1 {
      assert t.Nary? && t.nkind == Tuple && |t.kids| == 1;
      var first := next.expressions.items[0];
      assert DenotesOpt(s, first, t.kids[0]);
      if first != null && first.kind == CondKind {
        ahead := first;
        assert Denotes(s, ahead, t.kids[0].value) && t.kids[0].value.Cond?;
      } else {
        assert t.kids[0].Some? ==> Denotes(s, first, t.kids[0].value) && !t.kids[0].value.Cond?;
      }
    } else {
      assert t.Nary? && t.nkind == Tuple ==> |t.kids| != 1;
    }
  }

  lemma ItemDenotes(s: set<object>, items: seq<Expression?>, kids: seq<Option<Tree>>, i: nat)
    requires DenotesAll(s, items, kids) && i < |items|
    ensures |items| == |kids| && DenotesOpt(s, items[i], kids[i])
  {
  }

  lemma SameLength(s: set<object>, items: seq<Expression?>, kids: seq<Option<Tree>>)
    requires DenotesAll(s, items, kids)
    ensures |items| == |kids|
  {
  }

  lemma NothingDenoted(s: set<object>)
    ensures DenotesAll(s, [], [])
  {
  }

  lemma OperandOf(s: set<object>, e: Expression, t: Tree)
    requires Denotes(s, e, t) && t.Unary?
    ensures e in s && e.kind == UnaryNode(t.ukind) && e.op == t.op
    ensures e.expression != null && Denotes(s, e.expression, t.kid)
  {
  }

  lemma OperandReplaced(s: set<object>, x: Expression, t: Tree, kid: Tree)
    requires t.Unary? && x.kind == UnaryNode(t.ukind) && x.op == t.op
    requires x.expression != null && Denotes(s, x.expression, kid)
    ensures Denotes(s + {x}, x, t.(kid := kid))
  {
    DenotesGrows(s, s + {x}, x.expression, kid);
  }

  lemma ComponentsOf(s: set<object>, e: Expression, t: Tree)
    requires Denotes(s, e, t) && t.Nary?
    ensures e in s && e.kind == NaryNode(t.nkind) && e.op == t.op
    ensures e.expressions != null && e.expressions in s && DenotesAll(s, e.expressions.items, t.kids)
  {
  }

  lemma ComponentsReplaced(s: set<object>, s': set<object>, x: Expression, t: Tree, kids: seq<Option<Tree>>)
    requires t.Nary? && x.kind == NaryNode(t.nkind) && x.op == t.op && s <= s'
    requires x.expressions != null && x.expressions in s' && DenotesAll(s, x.expressions.items, kids)
    ensures Denotes(s' + {x}, x, t.(kids := kids))
  {
    ItemsGrow(s, s' + {x}, x.expressions.items, kids);
  }

  datatype CallOption = Gas | Value

  function With(which: CallOption, t: Tree, option: Option<Tree>): Tree
    requires t.Call?
  {
    if which.Gas? then t.(gas := option) else t.(callValue := option)
  }

  // x, outside the region, denotes the call t as far as everything but its
  // arguments is concerned.
  ghost predicate PartialCall(region: set<object>, x: Expression, t: Tree)
    reads x, region
  {
    && t.Call? && x.kind == CallKind && x.op == t.op
    && x.called != null && Denotes(region, x.called, t.called)
    && DenotesOpt(region, x.gas, t.gas)
    && DenotesOpt(region, x.callValue, t.callValue)
  }

  lemma PartialGrows(s: set<object>, s': set<object>, x: Expression, t: Tree)
    requires PartialCall(s, x, t) && s <= s'
    ensures PartialCall(s', x, t)
  {
    DenotesGrows(s, s', x.called, t.called);
    DenotesOptGrows(s, s', x.gas, t.gas);
    DenotesOptGrows(s, s', x.callValue, t.callValue);
  }

  lemma PartialIsCall(s: set<object>, x: Expression, t: Tree)
    requires PartialCall(s, x, t)
    ensures t.Call?
  {
  }

  // A copy of a call that has received another callee.
  lemma CalledReplaced(s: set<object>, s': set<object>, x: Expression, e: Expression, t: Tree, kid: Tree)
    requires Denotes(s, e, t) && t.Call? && s <= s'
    requires x.kind == e.kind && x.op == e.op && x.gas == e.gas && x.callValue == e.callValue
    requires x.called != null && Denotes(s', x.called, kid)
    ensures PartialCall(s', x, t.(called := kid))
  {
    DenotesOptGrows(s, s', e.gas, t.gas);
    DenotesOptGrows(s, s', e.callValue, t.callValue);
  }

  lemma FinishCall(s: set<object>, x: Expression, t: Tree)
    requires PartialCall(s, x, t)
    requires x.arguments != null && x.arguments in s && DenotesAll(s, x.arguments.items, t.args)
    requires forall i :: 0 <= i < |t.args| ==> t.args[i].Some?
    ensures Denotes(s + {x}, x, t)
  {
    PartialGrows(s, s + {x}, x, t);
    ItemsGrow(s, s + {x}, x.arguments.items, t.args);
  }

  // The argument list of x, itself in `all`, holds the given trees.
  ghost predicate OwnArguments(built: set<object>, all: set<object>, x: Expression, args: seq<Option<Tree>>)
    reads x, all, built
  {
    && x.arguments != null && x.arguments in all && DenotesAll(built, x.arguments.items, args)
    && forall i :: 0 <= i < |args| ==> args[i].Some?
  }

  lemma FinishArguments(region: set<object>, built: set<object>, all: set<object>, x: Expression, t: Tree,
                        args: seq<Option<Tree>>)
    requires PartialCall(region, x, t) && region <= all && built <= all
    requires OwnArguments(built, all, x, args)
    ensures Denotes(all + {x}, x, t.(args := args))
  {
    PartialGrows(region, all, x, t);
    ItemsGrow(built, all, x.arguments.items, args);
    FinishCall(all, x, t.(args := args));
  }

  // What a copy shares with its original.
  lemma CallShares(s: set<object>, s': set<object>, e: Expression, t: Tree)
    requires Denotes(s, e, t) && t.Call? && s <= s'
    ensures e in s && e.called != null && Denotes(s, e.called, t.called)
    ensures DenotesOpt(s, e.gas, t.gas) && DenotesOpt(s, e.callValue, t.callValue)
    ensures e.arguments != null && e.arguments in s' && DenotesAll(s', e.arguments.items, t.args)
    ensures forall i :: 0 <= i < |t.args| ==> t.args[i].Some?
  {
    ItemsGrow(s, s', e.arguments.items, t.args);
  }

  // f_call_gas and f_call_value
  method AttachOption(which: CallOption, x: Expression, child: Expression,
                      ghost region: set<object>, ghost t: Tree, ghost kid: Tree)
    requires x !in region && PartialCall(region, x, t) && Denotes(region, child, kid)
    modifies x
    ensures PartialCall(region, x, With(which, t, Some(kid))) && x.arguments == old(x.arguments)
  {
    hide Denotes;
    match which
    case Gas => x.gas := child;
    case Value => x.callValue := child;
  }

  // true_expression._arguments = []
  method ResetArguments(x: Expression, ghost region: set<object>, ghost t: Tree) returns (l: ExprList)
    requires x !in region && PartialCall(region, x, t)
    modifies x
    ensures PartialCall(region, x, t) && fresh(l) && x.arguments == l && l.items == []
  {
    hide Denotes;
    l := new ExprList([]);
    x.arguments := l;
  }

  class SplitTernaryExpression {
    var trueExpression: Expression?
    var falseExpression: Expression?
    var condition: Expression?
    ghost var condTree: Option<Tree>
    ghost var condRegion: set<object>

    ghost predicate HoldsCondition()
      reads this, condRegion
    {
      this !in condRegion && DenotesOpt(condRegion, condition, condTree)
    }

    // Copies both branches of a ternary and keeps its condition.
    method TakeApart(ahead: Expression, ghost s: set<object>, ghost site: Tree) returns (ct: Expression, cf: Expression)
      requires this !in s && site.Cond?
      requires DenotesOpt(s, ahead.ifExpression, Some(site.ifPart))
      requires DenotesOpt(s, ahead.thenExpression, Some(site.thenPart))
      requires DenotesOpt(s, ahead.elseExpression, Some(site.elsePart))
      modifies this`condition, this`condTree, this`condRegion
      ensures fresh(ct) && fresh(cf) && ct != cf
      ensures HoldsCondition() && fresh(condRegion - s)
      ensures Denotes(s + {ct}, ct, site.thenPart) && Denotes(s + {cf}, cf, site.elsePart)
      ensures condTree == Some(site.ifPart)
    {
      hide Denotes;
      ct := new Expression.Copy(ahead.thenExpression);
      cf := new Expression.Copy(ahead.elseExpression);
      var c := new Expression.Copy(ahead.ifExpression);
      condition := c;
      condTree := Some(site.ifPart);
      condRegion := s + {c};
      CopyDenotes(s, ct, ahead.thenExpression, site.thenPart);
      CopyDenotes(s, cf, ahead.elseExpression, site.elsePart);
      CopyDenotes(s, c, ahead.ifExpression, site.ifPart);
    }

    // Takes a ternary directly ahead apart; otherwise copies `next` twice.
    method ConditionalNotAhead(next: Expression, ghost s: set<object>, ghost t: Tree)
      returns (ct: Expression, cf: Expression, notAhead: bool)
      requires HoldsCondition() && this !in s && Denotes(s, next, t)
      modifies this`condition, this`condTree, this`condRegion
      ensures fresh(ct) && fresh(cf) && ct != cf
      ensures HoldsCondition() && fresh(condRegion - old(condRegion) - s)
      ensures notAhead <==> Ahead(t).None?
      ensures notAhead ==> IsCopy(ct, next) && IsCopy(cf, next)
      ensures notAhead ==> condTree == old(condTree) && condRegion == old(condRegion)
      ensures !notAhead ==>
                && Denotes(s + {ct}, ct, Ahead(t).value.thenPart)
                && Denotes(s + {cf}, cf, Ahead(t).value.elsePart)
                && condTree == Some(Ahead(t).value.ifPart)
    {
      hide Denotes;
      var ahead := LookAhead(next, s, t);
      if ahead.kind == CondKind {
        ct, cf := TakeApart(ahead, s, Ahead(t).value);
        notAhead := false;
      } else {
        ct := new Expression.Copy(next);
        cf := new Expression.Copy(next);
        notAhead := true;
      }
    }

    // One element of a list; an absent one is passed on.
    method SplitItem(next: Expression?, ghost s: set<object>, ghost kid: Option<Tree>)
      returns (ct: Expression?, cf: Expression?, ok: bool, ghost r: set<object>)
      requires HoldsCondition() && this !in s && DenotesOpt(s, next, kid)
      modifies this`condition, this`condTree, this`condRegion
      ensures fresh(r) && fresh(condRegion - old(condRegion) - s) && HoldsCondition()
      ensures ok <==> SplitKid(kid, old(condTree)).KidHalves?
      ensures ok ==>
                var out := SplitKid(kid, old(condTree));
                && condTree == out.cond
                && DenotesOpt(s + r, ct, out.onTrue[0])
                && DenotesOpt(s + r, cf, out.onFalse[0])
      decreases kid, 3
    {
      if next == null {
        ct, cf, ok, r := null, null, true, {};
      } else {
        var notAhead;
        ct, cf, notAhead, ok, r := SplitPart(next, s, kid.value);
      }
    }

    method ConvertItem(item: Expression?, lt: ExprList, lf: ExprList, ghost s: set<object>, ghost kid: Option<Tree>,
                       ghost r0: set<object>, ghost onTrue: seq<Option<Tree>>, ghost onFalse: seq<Option<Tree>>)
      returns (ok: bool, ghost r: set<object>)
      requires HoldsCondition() && this !in s + r0 && DenotesOpt(s, item, kid)
      requires DenotesAll(s + r0, lt.items, onTrue) && DenotesAll(s + r0, lf.items, onFalse)
      requires lt != lf && lt !in s + r0 + condRegion && lf !in s + r0 + condRegion
      modifies this`condition, this`condTree, this`condRegion, lt, lf
      ensures fresh(r) && fresh(condRegion - old(condRegion) - s) && HoldsCondition()
      ensures ok <==> SplitKid(kid, old(condTree)).KidHalves?
      ensures ok ==>
                var out := SplitKid(kid, old(condTree));
                && condTree == out.cond
                && DenotesAll(s + (r0 + r), lt.items, onTrue + out.onTrue)
                && DenotesAll(s + (r0 + r), lf.items, onFalse + out.onFalse)
      decreases kid, 4
    {
      hide Denotes;
      hide DenotesOpt;
      hide DenotesAll;
      hide SplitNext;
      ghost var out := SplitKid(kid, condTree);
      ghost var pt, pf := lt.items, lf.items;
      var ct, cf;
      ct, cf, ok, r := SplitItem(item, s, kid);
      if ok {
        lt.Append(ct);
        lf.Append(cf);
        ghost var all := s + (r0 + r);
        DenotesOptGrows(s + r, all, ct, out.onTrue[0]);
        DenotesOptGrows(s + r, all, cf, out.onFalse[0]);
        DenotesAllAppend(s + r0, pt, onTrue, all, ct, out.onTrue);
        DenotesAllAppend(s + r0, pf, onFalse, all, cf, out.onFalse);
      }
    }

    // The loop of convert_expressions, and the loop over call arguments.
    method ConvertItems(items: seq<Expression?>, lt: ExprList, lf: ExprList,
                        ghost s: set<object>, ghost kids: seq<Option<Tree>>)
      returns (ok: bool, ghost r: set<object>)
      requires HoldsCondition() && this !in s
      requires DenotesAll(s, items, kids)
      requires lt != lf && lt !in s && lf !in s && lt !in condRegion && lf !in condRegion
      requires lt.items == lf.items == []
      modifies this`condition, this`condTree, this`condRegion, lt, lf
      ensures fresh(r) && fresh(condRegion - old(condRegion) - s) && HoldsCondition()
      ensures ok <==> SplitKids(kids, |kids|, old(condTree)).KidHalves?
      ensures ok ==>
                var out := SplitKids(kids, |kids|, old(condTree));
                && condTree == out.cond
                && DenotesAll(s + r, lt.items, out.onTrue)
                && DenotesAll(s + r, lf.items, out.onFalse)
      decreases kids, 0
    {
      hide Denotes;
      hide DenotesOpt;
      hide DenotesAll;
      hide SplitKid;
      hide SplitNext;
      hide SplitCopy;
      hide HoldsCondition;
      r := {};
      NothingDenoted(s + r);
      assert |items| == |kids| by { SameLength(s, items, kids); }
      ghost var c0 := condTree;
      var i := 0;
      while i < |items|
        invariant 0 <= i <= |items|
        invariant fresh(r) && fresh(condRegion - old(condRegion) - s) && HoldsCondition()
        invariant this !in r && lt !in r && lf !in r
        invariant SplitKids(kids, i, c0).KidHalves? && condTree == SplitKids(kids, i, c0).cond
        invariant DenotesAll(s + r, lt.items, SplitKids(kids, i, c0).onTrue)
        invariant DenotesAll(s + r, lf.items, SplitKids(kids, i, c0).onFalse)
      {
        ghost var before := SplitKids(kids, i, c0);
        ItemDenotes(s, items, kids, i);
        var handled;
        ghost var r1;
        handled, r1 := ConvertItem(items[i], lt, lf, s, kids[i], r, before.onTrue, before.onFalse);
        if !handled {
          ok := false;
          UnhandledStays(kids, i + 1, |kids|, c0);
          return;
        }
        r := r + r1;
        i := i + 1;
      }
      ok := true;
    }

    // self.condition set: nothing to do.  Otherwise te and fe, which are copies
    // of e, are rebuilt over copies of the components of e.
    method CopyExpression(e: Expression, te: Expression, fe: Expression, ghost s: set<object>, ghost t: Tree)
      returns (ok: bool, ghost r: set<object>)
      requires HoldsCondition() && this !in s && Denotes(s, e, t)
      requires te != fe && te !in s && fe !in s && te !in condRegion && fe !in condRegion
      requires IsCopy(te, e) && IsCopy(fe, e)
      modifies this`condition, this`condTree, this`condRegion, te, fe
      ensures fresh(r) && fresh(condRegion - old(condRegion) - s) && HoldsCondition()
      ensures ok <==> SplitCopy(t, old(condTree)).Halves?
      ensures ok ==>
                var out := SplitCopy(t, old(condTree));
                && condTree == out.cond
                && Denotes(s + r + {te}, te, out.onTrue)
                && Denotes(s + r + {fe}, fe, out.onFalse)
      decreases t, 4
    {
      r := {};
      if condition != null || e.kind == AtomKind {
        CopyDenotes(s, te, e, t);
        CopyDenotes(s, fe, e, t);
        assert s + r == s;
        return true, r;
      }
      if e.kind == CondKind || e.kind == UnsupportedKind {
        return false, r;
      }
      if e.kind.NaryNode? {
        ok, r := ConvertExpressions(e, te, fe, s, t);
      } else if e.kind.CallKind? {
        ok, r := ConvertCallExpression(e, te, fe, s, t);
      } else {
        ok, r := ConvertOperand(e, te, fe, s, t);
      }
    }

    method ConvertExpressions(e: Expression, te: Expression, fe: Expression, ghost s: set<object>, ghost t: Tree)
      returns (ok: bool, ghost r: set<object>)
      requires HoldsCondition() && this !in s && Denotes(s, e, t) && t.Nary? && condTree.None?
      requires te != fe && te !in s && fe !in s && te !in condRegion && fe !in condRegion
      requires IsCopy(te, e) && IsCopy(fe, e)
      modifies this`condition, this`condTree, this`condRegion, te, fe
      ensures fresh(r) && fresh(condRegion - old(condRegion) - s) && HoldsCondition()
      ensures ok <==> SplitCopy(t, None).Halves?
      ensures ok ==>
                var out := SplitCopy(t, None);
                && condTree == out.cond
                && Denotes(s + r + {te}, te, out.onTrue)
                && Denotes(s + r + {fe}, fe, out.onFalse)
      decreases t, 0
    {
      hide Denotes;
      hide DenotesAll;
      hide SplitKids;
      hide HoldsCondition;
      ComponentsOf(s, e, t);
      var lt := new ExprList([]);
      var lf := new ExprList([]);
      te.expressions := lt;
      fe.expressions := lf;
      ok, r := ConvertItems(e.expressions.items, lt, lf, s, t.kids);
      if ok {
        ghost var out := SplitKids(t.kids, |t.kids|, None);
        ghost var r0 := r;
        r := r + {lt, lf};
        ComponentsReplaced(s + r0, s + r, te, t, out.onTrue);
        ComponentsReplaced(s + r0, s + r, fe, t, out.onFalse);
      }
    }

    method ConvertOperand(e: Expression, te: Expression, fe: Expression, ghost s: set<object>, ghost t: Tree)
      returns (ok: bool, ghost r: set<object>)
      requires HoldsCondition() && this !in s && Denotes(s, e, t) && t.Unary? && condTree.None?
      requires te != fe && te !in s && fe !in s && te !in condRegion && fe !in condRegion
      requires IsCopy(te, e) && IsCopy(fe, e)
      modifies this`condition, this`condTree, this`condRegion, te, fe
      ensures fresh(r) && fresh(condRegion - old(condRegion) - s) && HoldsCondition()
      ensures ok <==> SplitCopy(t, None).Halves?
      ensures ok ==>
                var out := SplitCopy(t, None);
                && condTree == out.cond
                && Denotes(s + r + {te}, te, out.onTrue)
                && Denotes(s + r + {fe}, fe, out.onFalse)
      decreases t, 0
    {
      hide Denotes;
      hide SplitNext;
      hide HoldsCondition;
      OperandOf(s, e, t);
      var ct, cf, notAhead;
      ct, cf, notAhead, ok, r := SplitPart(e.expression, s, t.kid);
      te.expression := ct;
      fe.expression := cf;
      if ok {
        ghost var out := SplitNext(t.kid, None);
        OperandReplaced(s + r, te, t, out.onTrue);
        OperandReplaced(s + r, fe, t, out.onFalse);
      }
    }

    // Looks ahead and, unless a ternary was taken apart there, descends into
    // the copies.  `notAhead` tells the caller which of the two happened.
    method SplitPart(next: Expression, ghost s: set<object>, ghost t: Tree)
      returns (ct: Expression, cf: Expression, notAhead: bool, ok: bool, ghost r: set<object>)
      requires HoldsCondition() && this !in s && Denotes(s, next, t)
      modifies this`condition, this`condTree, this`condRegion
      ensures fresh(r) && fresh(condRegion - old(condRegion) - s) && HoldsCondition()
      ensures notAhead <==> Ahead(t).None?
      ensures ok <==> SplitNext(t, old(condTree)).Halves?
      ensures ok ==>
                var out := SplitNext(t, old(condTree));
                && condTree == out.cond
                && Denotes(s + r, ct, out.onTrue)
                && Denotes(s + r, cf, out.onFalse)
      decreases t, 5
    {
      hide Denotes;
      hide SplitCopy;
      ghost var out := SplitNext(t, condTree);
      ct, cf, notAhead := ConditionalNotAhead(next, s, t);
      r := {ct, cf};
      ok := true;
      if notAhead {
        ghost var r1;
        ok, r1 := CopyExpression(next, ct, cf, s, t);
        if ok {
          r := r + r1;
          DenotesGrows(s + r1 + {ct}, s + r, ct, out.onTrue);
          DenotesGrows(s + r1 + {cf}, s + r, cf, out.onFalse);
        }
      } else {
        DenotesGrows(s + {ct}, s + r, ct, out.onTrue);
        DenotesGrows(s + {cf}, s + r, cf, out.onFalse);
      }
    }

    // The gas or the value of a call.  Tells the caller to stop after a
    // ternary was taken apart there.
    method ConvertOption(which: CallOption, next: Expression?, te: Expression, fe: Expression,
                         ghost s: set<object>, ghost option: Option<Tree>,
                         ghost region: set<object>, ghost onTrue: Tree, ghost onFalse: Tree)
      returns (stop: bool, ok: bool, ghost r: set<object>)
      requires HoldsCondition() && this !in s + region && DenotesOpt(s, next, option) && s <= region
      requires te != fe && te !in region && fe !in region && te !in condRegion && fe !in condRegion
      requires PartialCall(region, te, onTrue) && PartialCall(region, fe, onFalse)
      requires option == (if which.Gas? then onTrue.gas else onTrue.callValue)
      requires option.None? ==> onFalse == With(which, onFalse, None)
      modifies this`condition, this`condTree, this`condRegion, te, fe
      ensures fresh(r) && fresh(condRegion - old(condRegion) - s) && HoldsCondition()
      ensures te.arguments == old(te.arguments) && fe.arguments == old(fe.arguments)
      ensures stop <==> AheadOpt(option).Some?
      ensures ok <==> SplitKid(option, old(condTree)).KidHalves?
      ensures ok ==>
                var out := SplitKid(option, old(condTree));
                && condTree == out.cond
                && PartialCall(region + r, te, With(which, onTrue, out.onTrue[0]))
                && PartialCall(region + r, fe, With(which, onFalse, out.onFalse[0]))
      decreases option, 4
    {
      hide Denotes;
      hide PartialCall;
      hide HoldsCondition;
      r := {};
      PartialIsCall(region, te, onTrue);
      PartialIsCall(region, fe, onFalse);
      if next == null {
        stop, ok := false, true;
        assert region + r == region;
        return;
      }
      ghost var out := SplitNext(option.value, condTree);
      var ct, cf, notAhead;
      ct, cf, notAhead, ok, r := SplitPart(next, s, option.value);
      stop := !notAhead;
      if ok {
        PartialGrows(region, region + r, te, onTrue);
        PartialGrows(region, region + r, fe, onFalse);
        DenotesGrows(s + r, region + r, ct, out.onTrue);
        DenotesGrows(s + r, region + r, cf, out.onFalse);
        AttachOption(which, te, ct, region + r, onTrue, out.onTrue);
        AttachOption(which, fe, cf, region + r, onFalse, out.onFalse);
      }
    }

    // A ternary as gas or value returns early and leaves the rest shared.
    method ConvertCallExpression(e: Expression, te: Expression, fe: Expression, ghost s: set<object>, ghost t: Tree)
      returns (ok: bool, ghost r: set<object>)
      requires HoldsCondition() && this !in s && Denotes(s, e, t) && t.Call? && condTree.None?
      requires te != fe && te !in s && fe !in s && te !in condRegion && fe !in condRegion
      requires IsCopy(te, e) && IsCopy(fe, e)
      modifies this`condition, this`condTree, this`condRegion, te, fe
      ensures fresh(r) && fresh(condRegion - old(condRegion) - s) && HoldsCondition()
      ensures ok <==> SplitCall(t).Halves?
      ensures ok ==>
                var out := SplitCall(t);
                && condTree == out.cond
                && Denotes(s + r + {te}, te, out.onTrue)
                && Denotes(s + r + {fe}, fe, out.onFalse)
      decreases t, 3
    {
      hide Denotes;
      hide DenotesAll;
      hide PartialCall;
      hide HoldsCondition;
      hide SplitNext;
      CallShares(s, s, e, t);
      ghost var c := SplitNext(t.called, None);
      ok, r := ConvertCalled(e, te, fe, s, t);
      if !ok { return; }
      ghost var onTrue, onFalse := t.(called := c.onTrue), t.(called := c.onFalse);
      ghost var region := s + r;

      var stop;
      ghost var r1;
      ghost var g := SplitKid(t.gas, c.cond);
      stop, ok, r1 := ConvertOption(Gas, e.gas, te, fe, s, t.gas, region, onTrue, onFalse);
      region, r := region + r1, r + r1;
      if !ok { return; }
      assert region == s + r;
      onTrue, onFalse := onTrue.(gas := g.onTrue[0]), onFalse.(gas := g.onFalse[0]);
      if stop {
        CallShares(s, region, e, t);
        FinishCall(region, te, onTrue);
        FinishCall(region, fe, onFalse);
        return;
      }

      ok, r1 := ConvertValueAndArguments(e, te, fe, s, t, region, onTrue, onFalse, c.sites + g.sites);
      region, r := region + r1, r + r1;
      assert region == s + r;
    }

    method ConvertValueAndArguments(e: Expression, te: Expression, fe: Expression, ghost s: set<object>, ghost t: Tree,
                                    ghost region: set<object>, ghost onTrue: Tree, ghost onFalse: Tree,
                                    ghost sites: seq<Tree>)
      returns (ok: bool, ghost r: set<object>)
      requires HoldsCondition() && this !in region && s <= region && Denotes(s, e, t) && t.Call?
      requires te != fe && te !in region && fe !in region && te !in condRegion && fe !in condRegion
      requires PartialCall(region, te, onTrue) && PartialCall(region, fe, onFalse)
      requires onTrue.Call? && onFalse.Call?
      requires onTrue.callValue == onFalse.callValue == t.callValue && onTrue.args == onFalse.args == t.args
      requires te.arguments == fe.arguments == e.arguments
      modifies this`condition, this`condTree, this`condRegion, te, fe
      ensures fresh(r) && fresh(condRegion - old(condRegion) - s) && HoldsCondition()
      ensures ok <==> SplitCallTail(t, onTrue, onFalse, old(condTree), sites).Halves?
      ensures ok ==>
                var out := SplitCallTail(t, onTrue, onFalse, old(condTree), sites);
                && condTree == out.cond
                && Denotes(region + r + {te}, te, out.onTrue)
                && Denotes(region + r + {fe}, fe, out.onFalse)
      decreases t, 2
    {
      hide Denotes;
      hide DenotesAll;
      hide PartialCall;
      hide HoldsCondition;
      hide SplitNext;
      CallShares(s, s, e, t);
      ghost var v := SplitKid(t.callValue, condTree);
      var stop;
      stop, ok, r := ConvertOption(Value, e.callValue, te, fe, s, t.callValue, region, onTrue, onFalse);
      if !ok { return; }
      ghost var all := region + r;
      ghost var left, right := onTrue.(callValue := v.onTrue[0]), onFalse.(callValue := v.onFalse[0]);
      if stop {
        CallShares(s, all, e, t);
        FinishCall(all, te, left);
        FinishCall(all, fe, right);
        return;
      }
      ghost var r1;
      ok, r1 := ConvertArguments(e, te, fe, s, t, all, left, right);
      r := r + r1;
      assert all + r1 == region + r;
    }

    method ConvertArguments(e: Expression, te: Expression, fe: Expression, ghost s: set<object>, ghost t: Tree,
                            ghost region: set<object>, ghost onTrue: Tree, ghost onFalse: Tree)
      returns (ok: bool, ghost r: set<object>)
      requires HoldsCondition() && this !in region && s <= region && Denotes(s, e, t) && t.Call?
      requires te != fe && te !in region && fe !in region && te !in condRegion && fe !in condRegion
      requires PartialCall(region, te, onTrue) && PartialCall(region, fe, onFalse)
      modifies this`condition, this`condTree, this`condRegion, te, fe
      ensures fresh(r) && fresh(condRegion - old(condRegion) - s) && HoldsCondition()
      ensures ok <==> SplitKids(t.args, |t.args|, old(condTree)).KidHalves?
      ensures ok ==>
                var out := SplitKids(t.args, |t.args|, old(condTree));
                && condTree == out.cond
                && Denotes(region + r + {te}, te, onTrue.(args := out.onTrue))
                && Denotes(region + r + {fe}, fe, onFalse.(args := out.onFalse))
      decreases t, 1
    {
      hide *;
      ghost var out := SplitKids(t.args, |t.args|, condTree);
      ghost var built;
      ok, r, built := RebuildArguments(e, te, fe, s, t, region, onTrue, onFalse);
      if ok {
        FinishArguments(region, built, region + r, te, onTrue, out.onTrue);
        FinishArguments(region, built, region + r, fe, onFalse, out.onFalse);
      }
    }

    // Gives both copies argument lists of their own.
    method RebuildArguments(e: Expression, te: Expression, fe: Expression, ghost s: set<object>, ghost t: Tree,
                            ghost region: set<object>, ghost onTrue: Tree, ghost onFalse: Tree)
      returns (ok: bool, ghost r: set<object>, ghost built: set<object>)
      requires HoldsCondition() && this !in region && s <= region && Denotes(s, e, t) && t.Call?
      requires te != fe && te !in region && fe !in region && te !in condRegion && fe !in condRegion
      requires PartialCall(region, te, onTrue) && PartialCall(region, fe, onFalse)
      modifies this`condition, this`condTree, this`condRegion, te, fe
      ensures fresh(r) && fresh(condRegion - old(condRegion) - s) && HoldsCondition()
      ensures PartialCall(region, te, onTrue) && PartialCall(region, fe, onFalse) && onTrue.Call? && onFalse.Call?
      ensures ok <==> SplitKids(t.args, |t.args|, old(condTree)).KidHalves?
      ensures ok ==>
                var out := SplitKids(t.args, |t.args|, old(condTree));
                && condTree == out.cond && built <= region + r
                && OwnArguments(built, region + r, te, out.onTrue)
                && OwnArguments(built, region + r, fe, out.onFalse)
      decreases t, 0
    {
      hide Denotes;
      hide DenotesAll;
      hide PartialCall;
      hide HoldsCondition;
      hide SplitKids;
      CallShares(s, s, e, t);
      PartialIsCall(region, te, onTrue);
      PartialIsCall(region, fe, onFalse);
      var lt := ResetArguments(te, region, onTrue);
      var lf := ResetArguments(fe, region, onFalse);
      ok, r := ConvertItems(e.arguments.items, lt, lf, s, t.args);
      built := s + r;
      r := r + {lt, lf};
    }

    method ConvertCalled(e: Expression, te: Expression, fe: Expression, ghost s: set<object>, ghost t: Tree)
      returns (ok: bool, ghost r: set<object>)
      requires HoldsCondition() && this !in s && Denotes(s, e, t) && t.Call? && condTree.None?
      requires te != fe && te !in s && fe !in s && te !in condRegion && fe !in condRegion
      requires IsCopy(te, e) && IsCopy(fe, e)
      modifies this`condition, this`condTree, this`condRegion, te, fe
      ensures fresh(r) && fresh(condRegion - old(condRegion) - s) && HoldsCondition()
      ensures te.arguments == old(te.arguments) && fe.arguments == old(fe.arguments)
      ensures ok <==> SplitNext(t.called, None).Halves?
      ensures ok ==>
                var out := SplitNext(t.called, None);
                && condTree == out.cond
                && PartialCall(s + r, te, t.(called := out.onTrue))
                && PartialCall(s + r, fe, t.(called := out.onFalse))
      decreases t, 0
    {
      hide Denotes;
      hide DenotesOpt;
      hide DenotesAll;
      hide SplitNext;
      hide PartialCall;
      hide HoldsCondition;
      CallShares(s, s, e, t);
      var ct, cf, notAhead;
      ct, cf, notAhead, ok, r := SplitPart(e.called, s, t.called);
      te.called, fe.called := ct, cf;
      if ok {
        ghost var out := SplitNext(t.called, None);
        CalledReplaced(s, s + r, te, e, t, out.onTrue);
        CalledReplaced(s, s + r, fe, e, t, out.onFalse);
      }
    }

    constructor ()
      ensures condition == null && condTree == None && condRegion == {}
    {
      trueExpression, falseExpression, condition := null, null, null;
      condTree, condRegion := None, {};
    }

    // The source's __init__; false stands for its exceptions.  Nothing that
    // existed before is written, so e still denotes t afterwards.
    method Init(e: Expression, ghost s: set<object>, ghost t: Tree)
      returns (ok: bool, ghost left: set<object>, ghost right: set<object>)
      requires this !in s && Denotes(s, e, t)
      requires condition == null && condTree == None && condRegion == {}
      modifies this
      ensures Denotes(s, e, t)
      ensures ok <==> Split(t).Halves?
      ensures fresh(left - s) && fresh(right - s) && fresh(condRegion - s)
      ensures ok ==>
                && fresh(trueExpression) && DenotesOpt(left, trueExpression, Some(Split(t).onTrue))
                && fresh(falseExpression) && DenotesOpt(right, falseExpression, Some(Split(t).onFalse))
                && DenotesOpt(condRegion, condition, Split(t).cond)
    {
      hide Denotes;
      hide SplitCopy;
      TernaryParts(s, e, t);
      if e.kind == CondKind {
        ok := true;
        var te, fe := TakeApart(e, s, t);
        trueExpression, falseExpression := te, fe;
        left, right := s + {te}, s + {fe};
      } else {
        var te := new Expression.Copy(e);
        var fe := new Expression.Copy(e);
        trueExpression, falseExpression := te, fe;
        ghost var r;
        ok, r := CopyExpression(e, te, fe, s, t);
        left, right := s + r + {te}, s + r + {fe};
      }
    }
  }

  lemma TernaryParts(s: set<object>, e: Expression, t: Tree)
    requires Denotes(s, e, t)
    ensures e.kind == CondKind <==> t.Cond?
    ensures t.Cond? ==>
              && DenotesOpt(s, e.ifExpression, Some(t.ifPart))
              && DenotesOpt(s, e.thenExpression, Some(t.thenPart))
              && DenotesOpt(s, e.elseExpression, Some(t.elsePart))
  {
  }
}
