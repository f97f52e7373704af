# d-lisp value model and evaluator, in Dafny

This project models `src/lval.c` of d-lisp, a small Lisp interpreter written in C, at the stage where it has:

- a tagged value tree (`lval_t`): numbers, symbols, errors, S-expressions and Q-expressions;
- a reader that folds the parser's syntax tree into values;
- an evaluator that reduces S-expressions through the arithmetic builtin `builtin_op`;
- the list builtins `builtin_head` and `builtin_tail`, which nothing dispatches to yet;
- a printer.

Modules, one per part of the file:

- `Values` (`values.dfy`): the `Lval` datatype, the range of `long` and the source's error messages, verbatim.
- `Numbers` (`numbers.dfy`): C's truncating `/` and `%`, the number token `-?[0-9]+` of the grammar, and `%ld` decimal text.
- `Cells` (`cells.dfy`): class `ExprNode`, the `count`/`cell` buffer of a list. It has `Add` (lval_add), `Pop` (lval_pop) and `Take` (lval_take). `realloc` becomes a fresh array plus a copy loop. `memmove` becomes a shift loop.
- `Reader` (`reader.dfy`): `is_compound_character`, `lval_read`, `lval_read_expr` and `lval_read_num`. `is_compound_character` and `lval_read_expr` are methods with the C loops, proved against specification functions. `lval_read` is a dispatch method proved against the function `ReadValue`. `lval_read_num` has no loop and is the function `ReadNum`.
- `Builtins` (`builtins.dfy`): `builtin_op` as a pop-and-fold method over the argument buffer, specified by `Op`; `builtin_head` and `builtin_tail`.
- `Evaluator` (`evaluator.dfy`): `lval_eval` and `lval_eval_expr` as mutually recursive methods. They are specified by the functions `EvalValue` and `EvalCells`.
- `Printer` (`printer.dfy`): `lval_print`, `lval_print_expr` and `lval_println` as functions that return the text written.

Later stages of d-lisp add environments, function values and more builtins. At this stage, and in this model:

- The head of an S-expression must be a symbol, not a function value. Every symbol goes to `builtin_op`; there is no environment lookup.
- Values carry error messages as strings, as `lval.c:75` stores them. The error enumeration in `include/lval.h` is out of date.
- There are no environments, closures, `def`, `list`, `join` or `eval` builtins in this file.

## Model

| member | source | states |
|---|---|---|
| `Values.ListValue` | src/lval.c:37-64 | A list value holds exactly the given cells, and it is an S-expression exactly when the kind is S-expression. |
| `Numbers.TruncDivMod` | src/lval.c:258-269 | C's `/` truncates toward zero: the quotient's magnitude is at most `abs(a)/abs(b)`, and a non-zero quotient has the sign of `a*b`. The remainder `a - b*(a/b)` is smaller than `abs(b)` and is 0 or has the sign of the dividend. |
| `Numbers.DecimalTextRoundTrip` | src/lval.c:337 | The `%ld` text of every integer is a number token of the grammar whose value is that integer. |
| `Cells.ExprNode.Empty` | src/lval.c:37-64 | A new S- or Q-expression has count 0 and no children. |
| `Cells.ExprNode.Resize` | src/lval.c:146 | `realloc` gives a buffer of the new size whose prefix equals the old contents, up to the shorter length. |
| `Cells.ExprNode.Add` | src/lval.c:143-150 | Count grows by one, the new element is last, and the earlier elements are unchanged and in order. |
| `Cells.ExprNode.Pop` | src/lval.c:157-173 | For `index < count`: returns the old `cell[index]`, count drops by one, and the contents become `old[..index] + old[index+1..]`. For any other index: returns the out-of-scope error and leaves the buffer unchanged. |
| `Cells.ExprNode.Take` | src/lval.c:175-180 | Returns the same element as `Pop`. Nothing is promised about the released container. |
| `Cells.PopGuardAdmitsEmptyBuffer` | src/lval.c:159 | The guard as written, with an unsigned `count - 1`, lets an empty buffer through. On every non-empty buffer it agrees with `index < count`. |
| `Cells.MemmoveOverrunsBuffer` | src/lval.c:163 | For every valid index, the memmove byte count as written exceeds the bytes left in the buffer by `7*(index+1)`. |
| `Reader.IsCompoundCharacter` | src/lval.c:84-96 | True exactly when the token is one of `(`, `)`, `{`, `}`. |
| `Reader.ReadNum` | src/lval.c:98-105 | Yields the token's value exactly when that value is within the range of `long`, and the error "Expression is not a number" otherwise. |
| `Numbers.DigitsCanonical` | src/lval.c:337 | The digits `%ld` writes for a natural number have no leading zero unless the number is 0. |
| `Numbers.CanonicalRoundTrip` | src/lval.c:337 | A run of digits with no leading zero, other than `0` itself, is exactly what `%ld` writes for its value. |
| `Numbers.TokenRoundTrip` | src/lval.c:98-105 | Every number token of the grammar, written back with `%ld` after reading, gives the token without leading zeros and without the sign of `-0`. |
| `Reader.ReadNumToken` | src/lval.c:98-105 | Every number token, including `007` and `-0`, reads as its text without leading zeros does; a number read from it prints back as that text. |
| `Reader.ReadNumDecimalText` | src/lval.c:99-105 | Reading a number's decimal text gives that number when it is within `long` range, and the error otherwise. |
| `Reader.ReadsAsSymbol` | src/lval.c:131-134 | A tag that names `symbol` and has no `n` in it, so it cannot contain `number`, is read as a symbol. |
| `Reader.ReadsAsSExpr` | src/lval.c:131-136 | A tag that names `sexpr` and has neither `n` nor `y` in it is read as an S-expression. |
| `Reader.ReadsAsQExpr` | src/lval.c:131-138 | A tag that names `qexpr` and has none of `n`, `y` and `s` in it is read as a Q-expression. |
| `Reader.ReadsAsNothing` | src/lval.c:131-140 | A tag other than `>` that lacks a letter of `number`, the `y` of `symbol` and the `q` of `qexpr`, and has no `s` followed by `e`, gets no reading. |
| `Reader.KindOfNumberTag` | src/lval.c:131-132 | The parser's tag for a number node (`expr`, `number`, `regex`, bar-separated) is read as a number. |
| `Reader.KindOfSymbolTag` | src/lval.c:133-134 | The parser's tag for a symbol node is read as a symbol, because it does not contain `number`. |
| `Reader.KindOfSExprTag` | src/lval.c:135-136 | The parser's tag for a nested S-expression node is read as an S-expression. |
| `Reader.KindOfProgramTag` | src/lval.c:135-136 | The root tag `>` is read as an S-expression. |
| `Reader.KindOfQExprTag` | src/lval.c:137-138 | The parser's tag for a Q-expression node is read as a Q-expression. |
| `Reader.KindOfCommentTag` | src/lval.c:139-140 | A comment node matches none of the four readings, so the source returns NULL for it. |
| `Reader.KindOfStringTag` | src/lval.c:139-140 | A string node matches none of the four readings, although its tag holds an `s`, so the source returns NULL for it. |
| `Reader.ReadCellsKeepsOrder` | src/lval.c:115-124 | The children that are read are exactly the non-delimiter, non-`regex` children, in source order, each read by `lval_read`. |
| `Reader.Read` | src/lval.c:129-141 | Returns the reading `ReadValue` of the tree. Dispatch is by tag substring in the order number, symbol, sexpr or `>`, qexpr. |
| `Reader.ReadExpr` | src/lval.c:108-127 | Returns a list of the requested kind whose cells are `ReadCells` of the children. |
| `Builtins.FoldOutcome` | src/lval.c:248-272 | The fold yields a number, or "Cannot divide by zero" exactly when `/` or `%` meets a zero divisor. |
| `Builtins.OpIsNumberOrError` | src/lval.c:230-276 | `builtin_op` always returns a number or an error. |
| `Builtins.OpRejectsNonNumbers` | src/lval.c:232-239 | Returns "Numerical operators can only be applied to number" exactly when some argument is not a number. |
| `Builtins.OpDivideByZero` | src/lval.c:258-267 | `/` and `%` return the division error exactly when an argument after the first is 0. Otherwise they return a number. |
| `Builtins.OpAdd` | src/lval.c:254-255 | `+` over numbers gives their sum. |
| `Builtins.OpMultiply` | src/lval.c:256-257 | `*` over numbers gives their product. |
| `Builtins.OpSubtract` | src/lval.c:243-253 | `-` negates a lone argument. Otherwise it gives the first argument minus the sum of the rest. |
| `Builtins.OpUnknownSymbol` | src/lval.c:248-275 | When every argument is a number, any symbol other than `+ - * / %` returns the first argument unchanged. |
| `Builtins.BuiltinOp` | src/lval.c:230-276 | The check-then-pop-and-fold loop returns `Op(symbol, arguments)`. |
| `Builtins.ModuloByZeroAsWritten` | src/lval.c:268-269 | The fold as written reaches an undefined `%` exactly when `%` meets a zero divisor. Everywhere else it agrees with the corrected fold, which returns the division error. |
| `Builtins.HeadTailSplit` | src/lval.c:281-324 | Head and tail fail on the same inputs: the arity error unless there is exactly one Q-expression, and the emptiness error if it is empty. On success, head's single element followed by tail's elements rebuilds the argument. |
| `Builtins.Head` | src/lval.c:281-303 | Returns `HeadOf(arguments)`: a one-element Q-expression holding the first element, or one of the two errors. |
| `Builtins.Tail` | src/lval.c:305-324 | Returns `TailOf(arguments)`: the Q-expression without its first element, or one of the two errors. |
| `Builtins.TakeAsWrittenMissesTheList` | src/lval.c:295-321 | The corrected head and tail always return Q-expressions. As written, the value being trimmed is the Q-expression's first element. When that element is a non-empty Q-expression, head and tail as written act on it instead of the argument: `{{1 2} 3}` gives `{1}` and `{2}`, where the corrected head and tail give `{{1 2}}` and `{3}`. For `{{}}` the taken value is the empty list, whose pops pass the as-written guard of `lval_pop` on an empty buffer. |
| `Evaluator.EvalCells` | src/lval.c:196-202 | Evaluating the children stops at an error value, or yields one value per child. |
| `Evaluator.SelfEvaluating` | src/lval.c:186-192 | Numbers, symbols, errors and Q-expressions evaluate to themselves. Q-expression children are not evaluated. |
| `Evaluator.EvalCellsDone` | src/lval.c:196-202 | No child fails exactly when no child evaluates to an error. Each child is then replaced by its own value, in order. |
| `Evaluator.EvalCellsFailedPrefix` | src/lval.c:196-202 | Once a prefix of the children has failed, the later children do not affect the outcome. |
| `Evaluator.FirstErrorWins` | src/lval.c:196-202 | The first child that evaluates to an error is the value of the whole S-expression, whatever children follow it. |
| `Evaluator.EvalEmpty` | src/lval.c:204-207 | The empty S-expression evaluates to itself. |
| `Evaluator.EvalSingle` | src/lval.c:209-212 | A one-element S-expression evaluates to the value of its element. |
| `Evaluator.EvalCall` | src/lval.c:214-227 | With two or more error-free children, a non-symbol head gives "The first element of a S-Expression must be a symbol". Otherwise the result is `builtin_op` of the head symbol and the other values. |
| `Evaluator.EvalNormalForm` | src/lval.c:186-228 | Evaluation never returns an S-expression that has children. |
| `Evaluator.EvalIdempotent` | src/lval.c:186-228 | Evaluating a result again changes nothing. |
| `Evaluator.EvalCellsStep` | src/lval.c:196-202 | One turn of the loop: the child's value either fails the whole list with that error or extends the values so far. |
| `Evaluator.EvalCellsOfAtoms` | src/lval.c:186-191 | Children that are numbers, symbols or Q-expressions are their own values, so the loop keeps them as they are. |
| `Evaluator.EvalSumExample` | src/lval.c:254-255 | `(+ 1 2 3)` evaluates to 6. |
| `Evaluator.EvalNegateExample` | src/lval.c:243-246 | `(- 5)` evaluates to -5. |
| `Evaluator.EvalDivideByZeroExample` | src/lval.c:258-267 | `(/ 4 0)` evaluates to "Cannot divide by zero". |
| `Evaluator.HeadIsNotDispatched` | src/lval.c:214-227 | `(head {1 2 3})` goes to `builtin_op` and gives the numbers-only error. |
| `Evaluator.Eval` | src/lval.c:186-192 | `lval_eval` returns `EvalValue` of its argument. |
| `Evaluator.EvalExpr` | src/lval.c:194-228 | The in-place child loop, unwrapping and dispatch return `EvalValue` of the S-expression. |
| `Printer.Render` | src/lval.c:332-355 | A number is written as its `%ld` text (see `RenderNumber`), a symbol by its name, an error as `Error: ` followed by the message, an S-expression between `(` and `)` and a Q-expression between `{` and `}`, around the text of its children. |
| `Printer.RenderCells` | src/lval.c:357-372 | The children's text starts with the first child's rendering. With `RenderCellsSnoc`, the renderings appear in order, joined by single spaces, with nothing after the last. |
| `Printer.RenderLine` | src/lval.c:374-378 | The printed line is the rendering followed by one newline. |
| `Printer.RenderCellsLength` | src/lval.c:357-372 | The length of a list's children's text is the sum of their renderings' lengths plus one separator for each pair of neighbours. Where the separators go is stated by `RenderCellsSnoc`. |
| `Printer.RenderCellsSnoc` | src/lval.c:361-369 | Appending a child appends a space and that child's rendering, so the children's renderings appear in order with one space between neighbours and none after the last. |
| `Printer.RenderNumber` | src/lval.c:336-338 | A number prints as a number token whose value is that number. |

## Left out

- `Builtins.Op`: arithmetic is on unbounded integers. Overflow of `long` in `+`, `-`, `*`, negation of the least `long`, least `long` divided by -1 and least `long` `%` -1 (for which the model gives 0) are not modelled, because C leaves these undefined. The reader still guarantees that every number it reads is within `long` range.
- `Builtins.BuiltinOp`: `%` by zero returns the error "Cannot divide by zero", which is the corrected behaviour (see Findings). The source has no message of its own for it.
- `Builtins.Head` and `Builtins.Tail` model the evident intent of `builtin_head` and `builtin_tail`, not the code as written (see Findings).
- Constructors `lval_num`, `lval_sym` and `lval_err` are the datatype constructors `Num`, `Sym` and `Err`. A `malloc` that returns NULL is not modelled: allocation always succeeds.
- `lval_del` only releases memory, so it is not modelled. `Cells.ExprNode.Take` stands for "pop, then release": it promises nothing about the container afterwards.
- Aliasing of nested nodes: an S-expression child is evaluated through a fresh buffer holding its cells (`ExprNode.FromCells`). It is not evaluated in place inside its parent's buffer.
- `lval_read` returns NULL for string and comment nodes (`Reader.KindOfStringTag`, `Reader.KindOfCommentTag`). The precondition `Readable` excludes such trees instead of modelling NULL children.
- The `expr_type` guard of `lval_read_expr` (NULL for a non-list type) cannot arise, because the kind is a `ListKind`.
- `strtol` is modelled only on the grammar's number token `-?[0-9]+`, with an explicit `long` range check. Leading blanks, `+` and other bases do not occur in that token.
- The printer returns the text that `printf` and `putchar` would write. Output itself is not modelled.
- `src/main.c`, `src/sep.c`, `src/parser.c` and the headers in `include/` are not part of this model. They hold the REPL, the `mpc` grammar set-up and declarations. `main.c` calls an environment-taking `lval_eval` and `lenv_*` functions whose source is not part of the file modelled here.

## Findings

| source | as written | input that shows it | evidently intended | confidence | as-written member | corrected member |
|---|---|---|---|---|---|---|
| src/lval.c:159 | `index <= lval->count - 1` with an unsigned `count` | count 0, index 0: the guard passes and `cell[0]` is read from a NULL buffer | `index < count` | high for the guard; reached only by `builtin_head` and `builtin_tail` as written, on `{{}}`; nothing dispatches to them, and the corrected ones never pop an empty list; not executed | `Cells.PopGuardAdmitsEmptyBuffer` | `Cells.ExprNode.Pop` |
| src/lval.c:163 | memmove of `sizeof(lval_t *) * count - index - 1` bytes | evaluating `(+ 1 2)` pops index 0 of 3 cells: 23 bytes are moved from `&cell[1]`, where only 16 remain | move `count - index - 1` pointers | high; not executed | `Cells.MemmoveOverrunsBuffer` | `Cells.ExprNode.Pop` |
| src/lval.c:268-269 | `%` with no zero check | `(% 5 0)` reaches C's `%` with divisor 0, which is undefined | return an error, as `/` does | high; not executed | `Builtins.ModuloByZeroAsWritten` | `Builtins.BuiltinOp` |
| src/lval.c:295 | `lval_take(lval->cell[0], 0)` in `builtin_head` | argument `{1 2 3}`: the number 1 is taken, then trimmed as if it were a list; argument `{{1 2} 3}` gives `{1}` | `lval_take(lval, 0)`, giving `{1}` after trimming | high; not executed | `Builtins.TakeAsWrittenMissesTheList` | `Builtins.Head` |
| src/lval.c:319 | `lval_take(lval->cell[0], 0)` in `builtin_tail` | argument `{1 2 3}`: the number 1 is taken and popped from as if it were a list | `lval_take(lval, 0)`, giving `{2 3}` | high; not executed | `Builtins.TakeAsWrittenMissesTheList` | `Builtins.Tail` |
