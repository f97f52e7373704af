/** The reader of src/lval.c: it folds the syntax tree produced by the
    parser (a tag, the matched text and the children of every node) into
    values. Nodes are dispatched on a substring of their tag; delimiter
    children and `regex` children are dropped. */
module Reader {
  import opened Values
  import opened Numbers
  import opened Cells

  /** A node of the parser's syntax tree (mpc_ast_t). */
  datatype Ast = Ast(tag: string, contents: string, children: seq<Ast>)

  /** `strstr(s, pat) != NULL`: `pat` occurs somewhere in `s`. */
  predicate Contains(s: string, pat: string)
    decreases |s|
  {
    pat <= s || (|s| > 0 && Contains(s[1..], pat))
  }

  /** The four delimiters the grammar puts around lists. */
  const CompoundCharacters: seq<string> := ["(", ")", "{", "}"]

  predicate IsCompound(token: string) {
    token in CompoundCharacters
  }

  /** is_compound_character: compare the token with each delimiter in turn. */
  method IsCompoundCharacter(token: string) returns (b: bool)
    ensures b == IsCompound(token)
  {
    for j := 0 to |CompoundCharacters|
      invariant forall k :: 0 <= k < j ==> token != CompoundCharacters[k]
    {
      if token == CompoundCharacters[j] {
        return true;
      }
    }
    return false;
  }

  /** The reading lval_read chooses for a tag, tried in the source's order. */
  datatype NodeKind = NumberNode | SymbolNode | SExprNode | QExprNode | Unreadable

  function KindOf(tag: string): NodeKind {
    if Contains(tag, "number") then NumberNode
    else if Contains(tag, "symbol") then SymbolNode
    else if Contains(tag, "sexpr") || tag == ">" then SExprNode
    else if Contains(tag, "qexpr") then QExprNode
    else Unreadable
  }

  /** A pattern found at position `i` is contained in the text. */
  lemma {:induction false} ContainsAt(s: string, pat: string, i: nat)
    requires i <= |s| && pat <= s[i..]
    ensures Contains(s, pat)
    decreases i
  {
    if i > 0 {
      assert s[1..][i - 1..] == s[i..];
      ContainsAt(s[1..], pat, i - 1);
    }
  }

  /** A pattern holding a character the text lacks does not occur in it. */
  lemma {:induction false} NotContains(s: string, pat: string, c: char)
    requires c in pat && c !in s
    ensures !Contains(s, pat)
    decreases |s|
  {
    if |s| > 0 {
      NotContains(s[1..], pat, c);
    }
  }

  /** A tag naming `symbol` and holding no `n` (so not `number`) reads as a
      symbol. */
  lemma ReadsAsSymbol(tag: string, i: nat)
    requires 'n' !in tag && i <= |tag| && "symbol" <= tag[i..]
    ensures KindOf(tag) == SymbolNode
  {
    NotContains(tag, "number", 'n');
    ContainsAt(tag, "symbol", i);
  }

  /** A tag naming `sexpr` and holding neither `n` nor `y` reads as an
      S-expression. */
  lemma ReadsAsSExpr(tag: string, i: nat)
    requires 'n' !in tag && 'y' !in tag && i <= |tag| && "sexpr" <= tag[i..]
    ensures KindOf(tag) == SExprNode
  {
    NotContains(tag, "number", 'n');
    NotContains(tag, "symbol", 'y');
    ContainsAt(tag, "sexpr", i);
  }

  /** A tag naming `qexpr` and holding none of `n`, `y` and `s` reads as a
      Q-expression. */
  lemma ReadsAsQExpr(tag: string, i: nat)
    requires 'n' !in tag && 'y' !in tag && 's' !in tag && i <= |tag| && "qexpr" <= tag[i..]
    ensures KindOf(tag) == QExprNode
  {
    NotContains(tag, "number", 'n');
    NotContains(tag, "symbol", 'y');
    NotContains(tag, "sexpr", 's');
    ContainsAt(tag, "qexpr", i);
  }

  /** A tag other than `>` that lacks a letter of `number`, a `y`, a `q` and
      an `s` followed by `e` names none of the four rules and is not read. */
  lemma ReadsAsNothing(tag: string, c: char)
    requires c in "number" && c !in tag && 'y' !in tag && 'q' !in tag
    requires NeverFollowedBy(tag, 's', 'e') && tag != ">"
    ensures KindOf(tag) == Unreadable
  {
    NotContains(tag, "number", c);
    NotContains(tag, "symbol", 'y');
    NotContainsPair(tag, "sexpr", 0);
    NotContains(tag, "qexpr", 'q');
  }

  /** No `c` in the text is followed by `d`. */
  predicate NeverFollowedBy(s: string, c: char, d: char) {
    forall i :: 0 <= i < |s| - 1 ==> s[i] == c ==> s[i + 1] != d
  }

  /** A pattern holding `c` followed by `d` does not occur in a text where `c`
      is never followed by `d`. */
  lemma {:induction false} NotContainsPair(s: string, pat: string, k: nat)
    requires k + 1 < |pat| && NeverFollowedBy(s, pat[k], pat[k + 1])
    ensures !Contains(s, pat)
    decreases |s|
  {
    if k + 1 < |s| && s[k] == pat[k] {
      assert s[k + 1] != pat[k + 1];
    }
    if |s| > 0 {
      assert forall i :: 0 <= i < |s| - 1 ==> s[1..][i] == s[i + 1];
      NotContainsPair(s[1..], pat, k);
    }
  }

  /** The parser tags every node with the rules that matched, so the
      reader finds the rule by substring. */
  lemma KindOfNumberTag()
    ensures KindOf("expr|number|regex") == NumberNode
  {
    ContainsAt("expr|number|regex", "number", 5);
  }

  lemma KindOfSymbolTag()
    ensures KindOf("expr|symbol|regex") == SymbolNode
  {
    ReadsAsSymbol("expr|symbol|regex", 5);
  }

  lemma KindOfSExprTag()
    ensures KindOf("expr|sexpr|>") == SExprNode
  {
    ReadsAsSExpr("expr|sexpr|>", 5);
  }

  /** `>` tags the whole program, which is read as an S-expression. */
  lemma KindOfProgramTag()
    ensures KindOf(">") == SExprNode
  {
    NotContains(">", "number", 'n');
    NotContains(">", "symbol", 'y');
  }

  lemma KindOfQExprTag()
    ensures KindOf("expr|qexpr|>") == QExprNode
  {
    ReadsAsQExpr("expr|qexpr|>", 5);
  }

  /** Comment nodes are not read. */
  lemma KindOfCommentTag()
    ensures KindOf("expr|comment|regex") == Unreadable
  {
    ReadsAsNothing("expr|comment|regex", 'b');
  }

  /** String nodes are not read either: their tag holds an `s`, but not
      followed by the `e` of `sexpr`. */
  lemma KindOfStringTag()
    ensures KindOf("expr|string|regex") == Unreadable
  {
    ReadsAsNothing("expr|string|regex", 'u');
  }

  /** A child lval_read_expr skips: a delimiter, or a node tagged `regex`
      (the start and end anchors of the whole program). */
  predicate Skipped(child: Ast) {
    IsCompound(child.contents) || child.tag == "regex"
  }

  /** The trees lval_read turns into values without a NULL anywhere: every
      node it reads has a number, symbol or list tag (no string or comment
      nodes), and every number node holds a number token of the grammar. */
  predicate Readable(ast: Ast)
    decreases ast, 1
  {
    match KindOf(ast.tag)
    case NumberNode => IsNumberToken(ast.contents)
    case SymbolNode => true
    case SExprNode => ReadableChildren(ast.children)
    case QExprNode => ReadableChildren(ast.children)
    case Unreadable => false
  }

  predicate ReadableChildren(cs: seq<Ast>)
    decreases cs, 0
  {
    forall i :: 0 <= i < |cs| ==> Skipped(cs[i]) || Readable(cs[i])
  }

  /** lval_read_num: strtol's value, or the error when it is out of the range
      of `long` (strtol reports ERANGE exactly then). */
  function ReadNum(token: string): (r: Lval)
    requires IsNumberToken(token)
    ensures r.Num? ==> InLongRange(r.number)
    ensures r.Num? || r == Err(NotANumber)
    ensures r.Num? <==> InLongRange(TokenValue(token))
    ensures r.Num? ==> r.number == TokenValue(token)
  {
    var n := TokenValue(token);
    if InLongRange(n) then Num(n) else Err(NotANumber)
  }

  /** Reading back what `printf("%ld")` writes gives the number whenever it
      is in the range of `long`, and the error otherwise. */
  lemma ReadNumDecimalText(n: int)
    ensures IsNumberToken(DecimalText(n))
    ensures InLongRange(n) ==> ReadNum(DecimalText(n)) == Num(n)
    ensures !InLongRange(n) ==> ReadNum(DecimalText(n)) == Err(NotANumber)
  {
    DecimalTextRoundTrip(n);
  }

  /** Every number token reads as its text without leading zeros does, and a
      number read from it prints back as that text: `007` reads as 7, `-0`
      as 0. */
  lemma ReadNumToken(token: string)
    requires IsNumberToken(token)
    ensures IsNumberToken(CanonicalToken(token)) && ReadNum(CanonicalToken(token)) == ReadNum(token)
    ensures ReadNum(token).Num? ==> DecimalText(ReadNum(token).number) == CanonicalToken(token)
  {
    TokenRoundTrip(token);
    ReadNumDecimalText(TokenValue(token));
  }

  /** lval_read as a function of the tree. */
  function ReadValue(ast: Ast): Lval
    requires Readable(ast)
    decreases ast, 1
  {
    match KindOf(ast.tag)
    case NumberNode => ReadNum(ast.contents)
    case SymbolNode => Sym(ast.contents)
    case SExprNode => SExpr(ReadCells(ast.children))
    case QExprNode => QExpr(ReadCells(ast.children))
  }

  /** The loop of lval_read_expr over the children `cs`, left to right. */
  function ReadCells(cs: seq<Ast>): seq<Lval>
    requires ReadableChildren(cs)
    decreases cs, 0
  {
    if cs == [] then []
    else
      var last := cs[|cs| - 1];
      assert ReadableChildren(cs[..|cs| - 1]) by {
        assert forall i :: 0 <= i < |cs| - 1 ==> cs[..|cs| - 1][i] == cs[i];
      }
      ReadCells(cs[..|cs| - 1]) + (if Skipped(last) then [] else [ReadValue(last)])
  }

  /** The children that are read, in source order: an independent reference
      for the filtering ReadCells does. */
  function Kept(cs: seq<Ast>): (ks: seq<Ast>)
    ensures forall k :: k in ks ==> k in cs && !Skipped(k)
  {
    if cs == [] then []
    else if Skipped(cs[0]) then Kept(cs[1..])
    else [cs[0]] + Kept(cs[1..])
  }

  lemma {:induction false} KeptSnoc(cs: seq<Ast>, c: Ast)
    ensures Kept(cs + [c]) == Kept(cs) + (if Skipped(c) then [] else [c])
    decreases |cs|
  {
    if cs != [] {
      KeptSnoc(cs[1..], c);
      assert (cs + [c])[0] == cs[0] && (cs + [c])[1..] == cs[1..] + [c];
    }
  }

  /** lval_read_expr drops exactly the delimiter and `regex` children and
      reads every other child, keeping their order. */
  lemma {:induction false} ReadCellsKeepsOrder(cs: seq<Ast>)
    requires ReadableChildren(cs)
    ensures |ReadCells(cs)| == |Kept(cs)|
    ensures forall j :: 0 <= j < |Kept(cs)| ==> Readable(Kept(cs)[j]) && ReadCells(cs)[j] == ReadValue(Kept(cs)[j])
    decreases |cs|
  {
    if cs != [] {
      var init, last := cs[..|cs| - 1], cs[|cs| - 1];
      assert forall i :: 0 <= i < |init| ==> init[i] == cs[i];
      ReadCellsKeepsOrder(init);
      assert init + [last] == cs;
      KeptSnoc(init, last);
    }
  }

  /** lval_read: dispatch on the tag, reading numbers, symbols and lists. */
  method Read(ast: Ast) returns (r: Lval)
    requires Readable(ast)
    ensures r == ReadValue(ast)
    decreases ast, 1
  {
    if Contains(ast.tag, "number") {
      r := ReadNum(ast.contents);
    } else if Contains(ast.tag, "symbol") {
      r := Sym(ast.contents);
    } else if Contains(ast.tag, "sexpr") || ast.tag == ">" {
      r := ReadExpr(ast, SExprKind);
    } else if Contains(ast.tag, "qexpr") {
      r := ReadExpr(ast, QExprKind);
    } else {
      // string and comment nodes, read as NULL by the source, are not Readable
      assert false;
    }
  }

  /** lval_read_expr: start from an empty list of the given kind and append
      the reading of every child that is not skipped. */
  method ReadExpr(ast: Ast, kind: ListKind) returns (r: Lval)
    requires ReadableChildren(ast.children)
    ensures r == ListValue(kind, ReadCells(ast.children))
    decreases ast, 0
  {
    var expr := new ExprNode.Empty(kind);
    var cs := ast.children;
    for i := 0 to |cs|
      invariant expr.Valid() && fresh(expr) && fresh(expr.cell) && expr.kind == kind
      invariant expr.Contents() == ReadCells(cs[..i])
    {
      assert cs[..i + 1][..i] == cs[..i] && cs[..i + 1][i] == cs[i];
      var compound := IsCompoundCharacter(cs[i].contents);
      if compound {
        continue;
      }
      if cs[i].tag == "regex" {
        continue;
      }
      var v := Read(cs[i]);
      expr.Add(v);
    }
    assert cs[..|cs|] == cs;
    r := expr.Value();
  }
}
