/** The tagged value tree of the interpreter (lval_t in src/lval.c).
    A value is a number, a symbol, an error carrying its message, or one of
    the two list kinds: an S-expression (evaluated) or a Q-expression (quoted). */
module Values {

  /** Which of the two list kinds a buffer holds. */
  datatype ListKind = SExprKind | QExprKind

  datatype Lval =
    | Num(number: int)
    | Sym(symbol: string)
    | Err(error: string)
    | SExpr(cells: seq<Lval>)
    | QExpr(cells: seq<Lval>)

  /** The list value of the given kind holding `cells` (lval_sexpr / lval_qexpr
      followed by lval_add of each cell). */
  function ListValue(kind: ListKind, cells: seq<Lval>): (r: Lval)
    ensures (r.SExpr? || r.QExpr?) && r.cells == cells
    ensures r.SExpr? <==> kind == SExprKind
  {
    match kind
    case SExprKind => SExpr(cells)
    case QExprKind => QExpr(cells)
  }

  /** The range of the C type `long` on the platforms the source targets (LP64). */
  const LongMin: int := -0x8000_0000_0000_0000
  const LongMax: int := 0x7FFF_FFFF_FFFF_FFFF

  predicate InLongRange(n: int) {
    LongMin <= n <= LongMax
  }

  // The error messages the source produces, verbatim.
  const NotANumber: string := "Expression is not a number"
  const PopOutOfScope: string := "Trying to pop a lval by index, but index is out of scope"
  const HeadNotSymbol: string := "The first element of a S-Expression must be a symbol"
  const NumbersOnly: string := "Numerical operators can only be applied to number"
  const DivideByZero: string := "Cannot divide by zero"
  const HeadArity: string := "`head` symbol can only be applied to one Q-Expression"
  const HeadEmpty: string := "`head` symbol cannot be applied to an empty Q-Expression"
  const TailArity: string := "`tail` symbol can only be applied to one Q-Expression"
  const TailEmpty: string := "`tail` symbol cannot be applied to an empty Q-Expression"
}
