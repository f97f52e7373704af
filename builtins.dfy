/** The builtins of src/lval.c: the arithmetic operator builtin_op, which the
    evaluator calls for every symbol in head position, and the list builtins
    builtin_head and builtin_tail, which nothing dispatches to yet. */
module Builtins {
  import opened Values
  import opened Numbers
  import opened Cells

  // ---------------------------------------------------------------------
  // Specification of builtin_op
  // ---------------------------------------------------------------------

  predicate AllNumbers(args: seq<Lval>) {
    forall i :: 0 <= i < |args| ==> args[i].Num?
  }

  function NumberValues(args: seq<Lval>): (ns: seq<int>)
    requires AllNumbers(args)
    ensures |ns| == |args| && forall i :: 0 <= i < |args| ==> ns[i] == args[i].number
  {
    seq(|args|, i requires 0 <= i < |args| => args[i].number)
  }

  /** The operators whose right operand must not be zero. */
  predicate Divides(op: string) {
    op == "/" || op == "%"
  }

  predicate IsOperator(op: string) {
    op == "+" || op == "-" || op == "*" || Divides(op)
  }

  /** One step of the fold, `result->number <op>= next->number`, with C's
      truncating `/` and `%`; an unrecognised symbol leaves the accumulator. */
  function Combine(op: string, a: int, b: int): int
    requires Divides(op) ==> b != 0
  {
    if op == "-" then a - b
    else if op == "+" then a + b
    else if op == "*" then a * b
    else if op == "/" then TruncDiv(a, b)
    else if op == "%" then TruncMod(a, b)
    else a
  }

  /** The left fold of the operator over the remaining arguments, which stops
      with an error at the first zero divisor. */
  function Fold(op: string, acc: int, rest: seq<int>): Lval
    decreases |rest|
  {
    if rest == [] then Num(acc)
    else if Divides(op) && rest[0] == 0 then Err(DivideByZero)
    else Fold(op, Combine(op, acc, rest[0]), rest[1..])
  }

  /** builtin_op applied to the evaluated arguments: every argument must be a
      number; a lone argument of `-` is negated; otherwise the operator is
      folded from the first argument over the rest. */
  function Op(op: string, args: seq<Lval>): Lval
    requires |args| >= 1
  {
    if !AllNumbers(args) then Err(NumbersOnly)
    else
      var ns := NumberValues(args);
      if |ns| == 1 && op == "-" then Num(-ns[0]) else Fold(op, ns[0], ns[1..])
  }

  /** Reference definitions of the sum and the product of a list of numbers. */
  function Sum(ns: seq<int>): int {
    if ns == [] then 0 else ns[0] + Sum(ns[1..])
  }

  function Product(ns: seq<int>): int {
    if ns == [] then 1 else ns[0] * Product(ns[1..])
  }

  // ---------------------------------------------------------------------
  // Properties of builtin_op
  // ---------------------------------------------------------------------

  /** The fold yields a number, or the division error exactly when a
      dividing operator meets a zero divisor. */
  lemma {:induction false} FoldOutcome(op: string, acc: int, rest: seq<int>)
    ensures Fold(op, acc, rest).Num? || Fold(op, acc, rest) == Err(DivideByZero)
    ensures Fold(op, acc, rest).Err? <==> Divides(op) && 0 in rest
    decreases |rest|
  {
    if rest != [] && !(Divides(op) && rest[0] == 0) {
      FoldOutcome(op, Combine(op, acc, rest[0]), rest[1..]);
      assert rest == [rest[0]] + rest[1..];
    }
  }

  /** The result of builtin_op is always a number or an error. */
  lemma OpIsNumberOrError(op: string, args: seq<Lval>)
    requires |args| >= 1
    ensures Op(op, args).Num? || Op(op, args).Err?
  {
    if AllNumbers(args) {
      var ns := NumberValues(args);
      FoldOutcome(op, ns[0], ns[1..]);
    }
  }

  /** The type error is returned exactly when some argument is not a number:
      no arithmetic error can be mistaken for it. */
  lemma OpRejectsNonNumbers(op: string, args: seq<Lval>)
    requires |args| >= 1
    ensures Op(op, args) == Err(NumbersOnly) <==> exists i :: 0 <= i < |args| && !args[i].Num?
  {
    if AllNumbers(args) {
      var ns := NumberValues(args);
      FoldOutcome(op, ns[0], ns[1..]);
    }
  }

  /** `/` and `%` fail with the division error exactly when some argument
      after the first is zero. */
  lemma OpDivideByZero(op: string, args: seq<Lval>)
    requires |args| >= 1 && AllNumbers(args) && Divides(op)
    ensures Op(op, args) == Err(DivideByZero) <==> exists i :: 1 <= i < |args| && args[i] == Num(0)
    ensures Op(op, args).Num? <==> forall i :: 1 <= i < |args| ==> args[i] != Num(0)
  {
    var ns := NumberValues(args);
    FoldOutcome(op, ns[0], ns[1..]);
    if 0 in ns[1..] {
      var k :| 0 <= k < |ns[1..]| && ns[1..][k] == 0;
      assert args[k + 1] == Num(0);
    }
    if exists i :: 1 <= i < |args| && args[i] == Num(0) {
      var i :| 1 <= i < |args| && args[i] == Num(0);
      assert ns[1..][i - 1] == 0;
    }
  }

  lemma {:induction false} FoldAdd(acc: int, rest: seq<int>)
    ensures Fold("+", acc, rest) == Num(acc + Sum(rest))
    decreases |rest|
  {
    if rest != [] {
      FoldAdd(acc + rest[0], rest[1..]);
    }
  }

  lemma {:induction false} FoldSubtract(acc: int, rest: seq<int>)
    ensures Fold("-", acc, rest) == Num(acc - Sum(rest))
    decreases |rest|
  {
    if rest != [] {
      FoldSubtract(acc - rest[0], rest[1..]);
    }
  }

  lemma {:induction false} FoldMultiply(acc: int, rest: seq<int>)
    ensures Fold("*", acc, rest) == Num(acc * Product(rest))
    decreases |rest|
  {
    if rest != [] {
      FoldMultiply(acc * rest[0], rest[1..]);
      assert acc * rest[0] * Product(rest[1..]) == acc * (rest[0] * Product(rest[1..]));
    }
  }

  /** `+` over numbers is their sum. */
  lemma OpAdd(args: seq<Lval>)
    requires |args| >= 1 && AllNumbers(args)
    ensures Op("+", args) == Num(Sum(NumberValues(args)))
  {
    var ns := NumberValues(args);
    FoldAdd(ns[0], ns[1..]);
  }

  /** `*` over numbers is their product. */
  lemma OpMultiply(args: seq<Lval>)
    requires |args| >= 1 && AllNumbers(args)
    ensures Op("*", args) == Num(Product(NumberValues(args)))
  {
    var ns := NumberValues(args);
    FoldMultiply(ns[0], ns[1..]);
  }

  /** `-` negates a lone number and otherwise subtracts the sum of the rest
      from the first. */
  lemma OpSubtract(args: seq<Lval>)
    requires |args| >= 1 && AllNumbers(args)
    ensures |args| == 1 ==> Op("-", args) == Num(-args[0].number)
    ensures |args| > 1 ==> Op("-", args) == Num(args[0].number - Sum(NumberValues(args)[1..]))
  {
    var ns := NumberValues(args);
    FoldSubtract(ns[0], ns[1..]);
  }

  lemma {:induction false} FoldUnknown(op: string, acc: int, rest: seq<int>)
    requires !IsOperator(op)
    ensures Fold(op, acc, rest) == Num(acc)
    decreases |rest|
  {
    if rest != [] {
      FoldUnknown(op, acc, rest[1..]);
    }
  }

  /** Any other symbol returns the first argument unchanged. */
  lemma OpUnknownSymbol(op: string, args: seq<Lval>)
    requires |args| >= 1 && AllNumbers(args) && !IsOperator(op)
    ensures Op(op, args) == args[0]
  {
    var ns := NumberValues(args);
    FoldUnknown(op, ns[0], ns[1..]);
  }

  // ---------------------------------------------------------------------
  // builtin_op on the argument buffer
  // ---------------------------------------------------------------------

  /** builtin_op: check every argument, pop the first as the accumulator and
      fold the operator over the others, popping them one at a time. */
  method BuiltinOp(args: ExprNode, op: string) returns (r: Lval)
    requires args.Valid() && args.count >= 1
    modifies args, args.cell
    ensures r == Op(op, old(args.Contents()))
  {
    ghost var given := args.Contents();
    for i := 0 to args.count
      invariant forall k :: 0 <= k < i ==> given[k].Num?
    {
      if !args.cell[i].Num? {
        return Err(NumbersOnly);
      }
    }
    assert AllNumbers(given);
    var result := args.Pop(0);
    var acc := result.number;
    assert NumberValues(args.Contents()) == NumberValues(given)[1..];
    if args.count == 0 && op == "-" {
      acc := -acc;
    }
    while args.count != 0
      invariant args.Valid() && fresh(args.cell)
      invariant AllNumbers(args.Contents())
      invariant Fold(op, acc, NumberValues(args.Contents())) == Op(op, given)
      decreases args.count
    {
      ghost var ns := NumberValues(args.Contents());
      var next := args.Pop(0);
      assert NumberValues(args.Contents()) == ns[1..];
      if op == "-" {
        acc := acc - next.number;
      } else if op == "+" {
        acc := acc + next.number;
      } else if op == "*" {
        acc := acc * next.number;
      } else if op == "/" {
        if next.number != 0 {
          acc := TruncDiv(acc, next.number);
        } else {
          return Err(DivideByZero);
        }
      } else if op == "%" {
        if next.number != 0 {
          acc := TruncMod(acc, next.number);
        } else {
          return Err(DivideByZero);
        }
      }
    }
    r := Num(acc);
  }

  /** What the fold does as written: `%` has no zero check, so a zero divisor
      reaches C's `%`, whose behaviour is then undefined. */
  datatype AsWritten = Defined(value: Lval) | Undefined

  function FoldAsWritten(op: string, acc: int, rest: seq<int>): AsWritten
    decreases |rest|
  {
    if rest == [] then Defined(Num(acc))
    else if op == "/" && rest[0] == 0 then Defined(Err(DivideByZero))
    else if op == "%" && rest[0] == 0 then Undefined
    else FoldAsWritten(op, Combine(op, acc, rest[0]), rest[1..])
  }

  /** The fold as written is undefined exactly when `%` meets a zero divisor
      (for instance `(% 5 0)`); everywhere else it agrees with the corrected
      fold, which reports the division error instead. */
  lemma {:induction false} ModuloByZeroAsWritten(op: string, acc: int, rest: seq<int>)
    ensures FoldAsWritten(op, acc, rest) == Undefined <==> op == "%" && 0 in rest
    ensures FoldAsWritten(op, acc, rest) != Undefined ==> FoldAsWritten(op, acc, rest) == Defined(Fold(op, acc, rest))
    ensures op == "%" && 0 in rest ==> Fold(op, acc, rest) == Err(DivideByZero)
    decreases |rest|
  {
    FoldOutcome(op, acc, rest);
    if rest != [] && !(Divides(op) && rest[0] == 0) {
      ModuloByZeroAsWritten(op, Combine(op, acc, rest[0]), rest[1..]);
      assert rest == [rest[0]] + rest[1..];
    }
  }

  // ---------------------------------------------------------------------
  // builtin_head and builtin_tail
  // ---------------------------------------------------------------------

  /** The argument list head and tail accept: a single Q-expression. */
  predicate OneList(args: seq<Lval>) {
    |args| == 1 && args[0].QExpr?
  }

  /** builtin_head: a one-element Q-expression holding the first element of
      the single, non-empty Q-expression argument. */
  function HeadOf(args: seq<Lval>): Lval {
    if !OneList(args) then Err(HeadArity)
    else if |args[0].cells| < 1 then Err(HeadEmpty)
    else QExpr(args[0].cells[..1])
  }

  /** builtin_tail: the single, non-empty Q-expression argument without its
      first element. */
  function TailOf(args: seq<Lval>): Lval {
    if !OneList(args) then Err(TailArity)
    else if |args[0].cells| < 1 then Err(TailEmpty)
    else QExpr(args[0].cells[1..])
  }

  /** Head and tail fail on the same argument lists, with the arity error
      unless there is exactly one Q-expression and the emptiness error when
      it is empty; where they succeed, head's element followed by tail's
      elements rebuild the argument. */
  lemma HeadTailSplit(args: seq<Lval>)
    ensures HeadOf(args).Err? <==> TailOf(args).Err?
    ensures HeadOf(args) == Err(HeadArity) <==> !OneList(args)
    ensures TailOf(args) == Err(TailArity) <==> !OneList(args)
    ensures HeadOf(args) == Err(HeadEmpty) <==> OneList(args) && args[0].cells == []
    ensures TailOf(args) == Err(TailEmpty) <==> OneList(args) && args[0].cells == []
    ensures !HeadOf(args).Err? ==>
      && HeadOf(args).QExpr? && TailOf(args).QExpr?
      && |HeadOf(args).cells| == 1
      && HeadOf(args).cells + TailOf(args).cells == args[0].cells
  {
    if OneList(args) && |args[0].cells| >= 1 {
      assert args[0].cells[..1] + args[0].cells[1..] == args[0].cells;
    }
  }

  /** builtin_head, taking the Q-expression out of the argument list and then
      trimming it down to its first element. */
  method Head(args: ExprNode) returns (r: Lval)
    requires args.Valid()
    modifies args, args.cell
    ensures r == HeadOf(old(args.Contents()))
  {
    if args.count != 1 || !args.cell[0].QExpr? {
      return Err(HeadArity);
    }
    if |args.cell[0].cells| < 1 {
      return Err(HeadEmpty);
    }
    var list := args.Take(0);
    var q := new ExprNode.FromCells(QExprKind, list.cells);
    while q.count != 1
      invariant q.Valid() && fresh(q) && fresh(q.cell)
      invariant 1 <= q.count <= |list.cells|
      invariant q.Contents() == [list.cells[0]] + list.cells[|list.cells| - q.count + 1..]
      decreases q.count
    {
      ghost var before := q.Contents();
      var dropped := q.Pop(1);
      assert before[2..] == list.cells[|list.cells| - q.count + 1..];
    }
    r := q.Value();
  }

  /** builtin_tail, taking the Q-expression out of the argument list and then
      popping its first element. */
  method Tail(args: ExprNode) returns (r: Lval)
    requires args.Valid()
    modifies args, args.cell
    ensures r == TailOf(old(args.Contents()))
  {
    if args.count != 1 || !args.cell[0].QExpr? {
      return Err(TailArity);
    }
    if |args.cell[0].cells| < 1 {
      return Err(TailEmpty);
    }
    var list := args.Take(0);
    var q := new ExprNode.FromCells(QExprKind, list.cells);
    var dropped := q.Pop(0);
    r := q.Value();
  }

  /** The value builtin_head and builtin_tail go on to trim as written,
      `lval_take(lval->cell[0], 0)`: the Q-expression's first element rather
      than the Q-expression. */
  function TakenAsWritten(args: seq<Lval>): Lval
    requires OneList(args) && |args[0].cells| >= 1
  {
    args[0].cells[0]
  }

  /** builtin_head and builtin_tail as written, where the taken first element
      is itself a non-empty Q-expression, so that their trimming loop and
      their pop act on that inner list. */
  function HeadAsWritten(args: seq<Lval>): Lval
    requires OneList(args) && |args[0].cells| >= 1
    requires TakenAsWritten(args).QExpr? && |TakenAsWritten(args).cells| >= 1
  {
    QExpr(TakenAsWritten(args).cells[..1])
  }

  function TailAsWritten(args: seq<Lval>): Lval
    requires OneList(args) && |args[0].cells| >= 1
    requires TakenAsWritten(args).QExpr? && |TakenAsWritten(args).cells| >= 1
  {
    QExpr(TakenAsWritten(args).cells[1..])
  }

  /** As written, the value being trimmed is a list only when the first
      element happens to be a Q-expression itself, and then head and tail act
      on that inner list instead of the argument: for `{1 2 3}` the taken
      value is the number 1, while the corrected head and tail give `{1}` and
      `{2 3}`; for `{{1 2} 3}` head as written gives `{1}` and tail `{2}`,
      where the corrected ones give `{{1 2}}` and `{3}`. For `{{}}` the taken
      value is the empty list, and the pops of index 1 (head) and index 0
      (tail) that follow pass the guard of lval_pop as written on an empty
      buffer. */
  lemma TakeAsWrittenMissesTheList(args: seq<Lval>)
    requires OneList(args) && |args[0].cells| >= 1
    ensures HeadOf(args).QExpr? && TailOf(args).QExpr?
    ensures TakenAsWritten(args).QExpr? && |TakenAsWritten(args).cells| >= 1 ==>
      && HeadAsWritten(args) == HeadOf([args[0].cells[0]])
      && TailAsWritten(args) == TailOf([args[0].cells[0]])
    ensures args == [QExpr([Num(1), Num(2), Num(3)])] ==>
      && TakenAsWritten(args) == Num(1)
      && HeadOf(args) == QExpr([Num(1)])
      && TailOf(args) == QExpr([Num(2), Num(3)])
    ensures args == [QExpr([QExpr([Num(1), Num(2)]), Num(3)])] ==>
      && HeadAsWritten(args) == QExpr([Num(1)]) && HeadOf(args) == QExpr([QExpr([Num(1), Num(2)])])
      && TailAsWritten(args) == QExpr([Num(2)]) && TailOf(args) == QExpr([Num(3)])
    ensures args == [QExpr([QExpr([])])] ==>
      && TakenAsWritten(args) == QExpr([])
      && PopGuardAsWritten(0, 0) && PopGuardAsWritten(1, 0)
  {
    if args == [QExpr([QExpr([Num(1), Num(2)]), Num(3)])] {
      assert [QExpr([Num(1), Num(2)]), Num(3)][..1] == [QExpr([Num(1), Num(2)])];
      assert [QExpr([Num(1), Num(2)]), Num(3)][1..] == [Num(3)];
    }
  }
}
