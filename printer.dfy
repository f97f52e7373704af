/** The printer of src/lval.c (lval_print, lval_print_expr, lval_println),
    as a function producing the text it writes. */
module Printer {
  import opened Values
  import opened Numbers

  /** lval_print: a number in decimal, a symbol by name, an error after
      `Error: `, and a list between its delimiters. */
  function Render(v: Lval): (r: string)
    ensures v.SExpr? ==> |r| >= 2 && r[0] == '(' && r[|r| - 1] == ')'
    ensures v.QExpr? ==> |r| >= 2 && r[0] == '{' && r[|r| - 1] == '}'
    ensures v.Err? ==> |r| >= 7 && r[..7] == "Error: " && r[7..] == v.error
    decreases v, 1
  {
    match v
    case Num(n) => DecimalText(n)
    case Sym(name) => name
    case Err(msg) => "Error: " + msg
    case SExpr(cs) => "(" + RenderCells(cs) + ")"
    case QExpr(cs) => "{" + RenderCells(cs) + "}"
  }

  /** The loop of lval_print_expr: each child, followed by a space unless it
      is the last. The text starts with the first child's rendering. */
  function RenderCells(cs: seq<Lval>): (r: string)
    ensures cs != [] ==> Render(cs[0]) <= r
    decreases cs, 0
  {
    if cs == [] then ""
    else if |cs| == 1 then Render(cs[0])
    else Render(cs[0]) + " " + RenderCells(cs[1..])
  }

  /** lval_println: the rendering followed by a newline. */
  function RenderLine(v: Lval): (s: string)
    ensures |s| > 0 && s[|s| - 1] == '\n' && s[..|s| - 1] == Render(v)
  {
    Render(v) + "\n"
  }

  /** The total length of the children's renderings. */
  function RenderedLength(cs: seq<Lval>): nat {
    if cs == [] then 0 else |Render(cs[0])| + RenderedLength(cs[1..])
  }

  /** The total length of the text: the renderings plus one separator between
      each pair of neighbours. */
  lemma {:induction false} RenderCellsLength(cs: seq<Lval>)
    ensures |RenderCells(cs)| == RenderedLength(cs) + (if cs == [] then 0 else |cs| - 1)
    decreases |cs|
  {
    if |cs| > 1 {
      RenderCellsLength(cs[1..]);
    }
  }

  /** Appending a child appends a space and its rendering; the text of a list
      is built left to right in the order of its children. */
  lemma {:induction false} RenderCellsSnoc(cs: seq<Lval>, c: Lval)
    ensures RenderCells(cs + [c]) == if cs == [] then Render(c) else RenderCells(cs) + " " + Render(c)
    decreases |cs|
  {
    var longer := cs + [c];
    if |cs| == 1 {
      assert longer[0] == cs[0] && longer[1..] == [c];
    } else if |cs| > 1 {
      var rest := cs[1..];
      RenderCellsSnoc(rest, c);
      assert longer[0] == cs[0] && longer[1..] == rest + [c];
      Regroup(Render(cs[0]), RenderCells(rest), Render(c));
    }
  }

  /** Joining three texts with spaces does not depend on the grouping. */
  lemma Regroup(a: string, b: string, c: string)
    ensures a + " " + (b + " " + c) == (a + " " + b) + " " + c
  {
  }

  /** A number prints as a number token holding its value. */
  lemma RenderNumber(n: int)
    ensures IsNumberToken(Render(Num(n))) && TokenValue(Render(Num(n))) == n
  {
    DecimalTextRoundTrip(n);
  }
}
