/** The evaluator of src/lval.c: lval_eval returns every value other than an
    S-expression unchanged; lval_eval_expr evaluates an S-expression's
    children left to right in place, lets the first error win, unwraps a
    single child and otherwise hands the rest to builtin_op under the head
    symbol. */
module Evaluator {
  import opened Values
  import opened Cells
  import opened Builtins

  /** The state of a list after its children have been evaluated: the first
      error met, or every child's value. */
  datatype Evaluated = Failed(error: Lval) | Done(values: seq<Lval>)

  /** lval_eval as a function of the value. */
  function EvalValue(v: Lval): Lval
    decreases v, 1
  {
    match v
    case SExpr(cs) =>
      (match EvalCells(cs)
       case Failed(e) => e
       case Done(vs) => Apply(vs))
    case _ => v
  }

  /** The loop of lval_eval_expr over the children `cs`, left to right: the
      children up to the last are evaluated first, and the last is looked at
      only when none of them failed. */
  function EvalCells(cs: seq<Lval>): (r: Evaluated)
    ensures r.Failed? ==> r.error.Err?
    ensures r.Done? ==> |r.values| == |cs|
    decreases cs, 0
  {
    if cs == [] then Done([])
    else
      match EvalCells(cs[..|cs| - 1])
      case Failed(e) => Failed(e)
      case Done(vs) =>
        var last := EvalValue(cs[|cs| - 1]);
        if last.Err? then Failed(last) else Done(vs + [last])
  }

  /** What lval_eval_expr does once every child has a value: an empty list is
      itself, a single child is unwrapped, and otherwise the head must be a
      symbol naming the operator applied to the rest. */
  function Apply(vs: seq<Lval>): Lval {
    if |vs| == 0 then SExpr([])
    else if |vs| == 1 then vs[0]
    else if !vs[0].Sym? then Err(HeadNotSymbol)
    else Op(vs[0].symbol, vs[1..])
  }

  // ---------------------------------------------------------------------
  // Properties of evaluation
  // ---------------------------------------------------------------------

  /** Numbers, symbols, errors and Q-expressions evaluate to themselves, so
      the children of a Q-expression are never evaluated. */
  lemma SelfEvaluating(v: Lval)
    requires !v.SExpr?
    ensures EvalValue(v) == v
    ensures v.QExpr? ==> EvalValue(v).cells == v.cells
  {
  }

  /** The children evaluate without failure exactly when no child evaluates
      to an error, and then they are replaced by their values in order. */
  lemma {:induction false} EvalCellsDone(cs: seq<Lval>)
    ensures EvalCells(cs).Done? <==> forall j :: 0 <= j < |cs| ==> !EvalValue(cs[j]).Err?
    ensures EvalCells(cs).Done? ==> forall j :: 0 <= j < |cs| ==> EvalCells(cs).values[j] == EvalValue(cs[j])
    decreases |cs|
  {
    if cs != [] {
      var init := cs[..|cs| - 1];
      EvalCellsDone(init);
      assert forall j :: 0 <= j < |init| ==> init[j] == cs[j];
    }
  }

  /** Once a prefix of the children has failed, the children after it make no
      difference: they are never evaluated. */
  lemma {:induction false} EvalCellsFailedPrefix(cs: seq<Lval>, k: nat)
    requires k <= |cs| && EvalCells(cs[..k]).Failed?
    ensures EvalCells(cs) == EvalCells(cs[..k])
    decreases |cs| - k
  {
    if k < |cs| {
      assert cs[..k + 1][..k] == cs[..k];
      EvalCellsFailedPrefix(cs, k + 1);
    } else {
      assert cs[..k] == cs;
    }
  }

  /** The first child that evaluates to an error is the value of the whole
      S-expression, whatever follows it. */
  lemma FirstErrorWins(cs: seq<Lval>, k: nat, rest: seq<Lval>)
    requires k < |cs|
    requires forall j :: 0 <= j < k ==> !EvalValue(cs[j]).Err?
    requires EvalValue(cs[k]).Err?
    ensures EvalValue(SExpr(cs)) == EvalValue(cs[k])
    ensures EvalValue(SExpr(cs[..k + 1] + rest)) == EvalValue(cs[k])
  {
    var pre := cs[..k + 1];
    EvalCellsDone(pre[..k]);
    assert pre[..k] == cs[..k];
    assert EvalCells(pre) == Failed(EvalValue(cs[k]));
    EvalCellsFailedPrefix(cs, k + 1);
    var longer := pre + rest;
    assert longer[..k + 1] == pre;
    EvalCellsFailedPrefix(longer, k + 1);
  }

  /** An empty S-expression is its own value. */
  lemma EvalEmpty()
    ensures EvalValue(SExpr([])) == SExpr([])
  {
  }

  /** A one-element S-expression evaluates to the value of its element. */
  lemma EvalSingle(x: Lval)
    ensures EvalValue(SExpr([x])) == EvalValue(x)
  {
    assert [x][..0] == [];
    assert EvalCells([x]) == if EvalValue(x).Err? then Failed(EvalValue(x)) else Done([EvalValue(x)]);
  }

  /** With two or more children and no error among their values, the value
      is the type error when the head is not a symbol, and otherwise the
      operator named by the head applied to the other values. */
  lemma EvalCall(cs: seq<Lval>)
    requires |cs| >= 2
    requires forall j :: 0 <= j < |cs| ==> !EvalValue(cs[j]).Err?
    ensures !EvalValue(cs[0]).Sym? ==> EvalValue(SExpr(cs)) == Err(HeadNotSymbol)
    ensures EvalValue(cs[0]).Sym? ==>
      EvalValue(SExpr(cs)) == Op(EvalValue(cs[0]).symbol, seq(|cs| - 1, j requires 0 <= j < |cs| - 1 => EvalValue(cs[j + 1])))
  {
    EvalCellsDone(cs);
    var vs := EvalCells(cs).values;
    assert vs[1..] == seq(|cs| - 1, j requires 0 <= j < |cs| - 1 => EvalValue(cs[j + 1]));
  }

  /** Evaluation never yields an S-expression with children: its results are
      numbers, symbols, errors, Q-expressions or the empty S-expression. */
  lemma {:induction false} EvalNormalForm(v: Lval)
    ensures EvalValue(v).SExpr? ==> EvalValue(v) == SExpr([])
    decreases v
  {
    if v.SExpr? {
      var cs := v.cells;
      EvalCellsDone(cs);
      match EvalCells(cs)
      case Failed(e) =>
      case Done(vs) =>
        if |vs| == 1 {
          EvalNormalForm(cs[0]);
        } else if |vs| >= 2 && vs[0].Sym? {
          OpIsNumberOrError(vs[0].symbol, vs[1..]);
        }
    }
  }

  /** Evaluating a value twice gives the same as evaluating it once. */
  lemma EvalIdempotent(v: Lval)
    ensures EvalValue(EvalValue(v)) == EvalValue(v)
  {
    EvalNormalForm(v);
  }

  /** Children that are all numbers, symbols or Q-expressions are their own
      values. */
  lemma {:induction false} EvalCellsOfAtoms(cs: seq<Lval>)
    requires forall j :: 0 <= j < |cs| ==> !cs[j].SExpr? && !cs[j].Err?
    ensures EvalCells(cs) == Done(cs)
    decreases |cs|
  {
    if cs != [] {
      var init, last := cs[..|cs| - 1], cs[|cs| - 1];
      assert forall j :: 0 <= j < |init| ==> init[j] == cs[j];
      EvalCellsOfAtoms(init);
      assert EvalValue(last) == last;
      assert EvalCells(cs) == Done(init + [last]);
      assert init + [last] == cs;
    }
  }

  /** `(+ 1 2 3)` evaluates to 6. */
  lemma EvalSumExample()
    ensures EvalValue(SExpr([Sym("+"), Num(1), Num(2), Num(3)])) == Num(6)
  {
    var cs := [Sym("+"), Num(1), Num(2), Num(3)];
    EvalCellsOfAtoms(cs);
    OpAdd(cs[1..]);
  }

  /** `(- 5)` evaluates to -5. */
  lemma EvalNegateExample()
    ensures EvalValue(SExpr([Sym("-"), Num(5)])) == Num(-5)
  {
    var cs := [Sym("-"), Num(5)];
    EvalCellsOfAtoms(cs);
    OpSubtract(cs[1..]);
  }

  /** `(/ 4 0)` evaluates to the division error. */
  lemma EvalDivideByZeroExample()
    ensures EvalValue(SExpr([Sym("/"), Num(4), Num(0)])) == Err(DivideByZero)
  {
    var cs := [Sym("/"), Num(4), Num(0)];
    EvalCellsOfAtoms(cs);
    OpDivideByZero("/", cs[1..]);
  }

  /** `(head {1 2 3})` evaluates to the type error of builtin_op: every head
      symbol goes to builtin_op, so builtin_head is never reached. */
  lemma HeadIsNotDispatched()
    ensures EvalValue(SExpr([Sym("head"), QExpr([Num(1), Num(2), Num(3)])])) == Err(NumbersOnly)
  {
    var cs := [Sym("head"), QExpr([Num(1), Num(2), Num(3)])];
    EvalCellsOfAtoms(cs);
    OpRejectsNonNumbers("head", cs[1..]);
  }

  /** One turn of the loop of lval_eval_expr: with the children before `i`
      evaluated to `done`, the child at `i` either fails the whole list or
      extends `done` by its value. */
  lemma {:induction false} EvalCellsStep(cs: seq<Lval>, i: nat, done: seq<Lval>)
    requires i < |cs| && EvalCells(cs[..i]) == Done(done)
    ensures EvalValue(cs[i]).Err? ==> EvalCells(cs) == Failed(EvalValue(cs[i]))
    ensures !EvalValue(cs[i]).Err? ==> EvalCells(cs[..i + 1]) == Done(done + [EvalValue(cs[i])])
  {
    var pre := cs[..i + 1];
    assert pre[..|pre| - 1] == cs[..i] && pre[|pre| - 1] == cs[i];
    var e := EvalValue(cs[i]);
    assert EvalCells(pre) == if e.Err? then Failed(e) else Done(done + [e]);
    if e.Err? {
      EvalCellsFailedPrefix(cs, i + 1);
    }
  }

  // ---------------------------------------------------------------------
  // lval_eval and lval_eval_expr
  // ---------------------------------------------------------------------

  /** lval_eval: an S-expression is evaluated through its buffer; every other
      value is returned as it is. */
  method Eval(v: Lval) returns (r: Lval)
    ensures r == EvalValue(v)
    decreases v, 1
  {
    if v.SExpr? {
      var node := new ExprNode.FromCells(SExprKind, v.cells);
      r := EvalExpr(node, v);
    } else {
      r := v;
    }
  }

  /** lval_eval_expr on the buffer of the S-expression `v`: overwrite each
      child with its value, returning the first error; then return the empty
      list itself, unwrap a single child, or pop the head and call builtin_op. */
  method EvalExpr(node: ExprNode, ghost v: Lval) returns (r: Lval)
    requires node.Valid() && node.kind == SExprKind && v == SExpr(node.Contents())
    modifies node, node.cell
    ensures r == EvalValue(v)
    decreases v, 0
  {
    ghost var cs := node.Contents();
    var i := 0;
    while i < node.count
      invariant node.Valid() && node.cell == old(node.cell)
      invariant 0 <= i <= node.count == |cs|
      invariant EvalCells(cs[..i]) == Done(node.cell[..i])
      invariant node.cell[i..] == cs[i..]
    {
      assert node.cell[i..][0] == cs[i..][0];
      ghost var done := node.cell[..i];
      var e := Eval(node.cell[i]);
      EvalCellsStep(cs, i, done);
      node.cell[i] := e;
      assert node.cell[..i + 1] == done + [e];
      assert node.cell[i + 1..] == node.cell[i..][1..];
      if e.Err? {
        r := node.Take(i);
        return;
      }
      i := i + 1;
    }
    assert cs[..i] == cs && node.Contents()[..i] == node.Contents();
    ghost var vs := node.Contents();
    assert EvalValue(v) == Apply(vs);
    if node.count == 0 {
      return node.Value();
    }
    if node.count == 1 {
      r := node.Take(0);
      return;
    }
    var first := node.Pop(0);
    if !first.Sym? {
      return Err(HeadNotSymbol);
    }
    assert node.Contents() == vs[1..];
    r := BuiltinOp(node, first.symbol);
  }
}
