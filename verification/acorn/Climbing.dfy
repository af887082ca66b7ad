// Every well-formed tree is the one tree the parser makes of its tokens, and printing
// with as few parentheses as possible is undone by parsing.
module Climbing {
  import opened ExprSyntax
  import opened Grammar

  // Nothing behind the expression can be taken into it.
  predicate Stops(ts: seq<Token>, prec: int, noIn: bool) {
    !Continues(ts, prec, noIn) && (ts == [] || !ts[0].Starstar?)
  }

  lemma {:induction false} AtomParses(e: Expr, k: seq<Token>, noIn: bool)
    requires Primary(e) && WellFormed(e, noIn)
    ensures ParseAtom(Yield(e) + k) == Got(e, k)
    decreases e, 0
  {
    match e
    case Atom(_) =>
      assert (Yield(e) + k)[1..] == k;
    case Paren(x) =>
      var ts := Yield(e) + k;
      assert ts[1..] == Yield(x) + ([ParenR] + k);
      assert ([ParenR] + k)[1..] == k;
      OpsParse(x, [ParenR] + k, -1, false);
  }

  lemma {:induction false} UnaryParses(e: Expr, k: seq<Token>, sawUnary: bool, noIn: bool)
    requires !e.Binary? && WellFormed(e, noIn) && (sawUnary ==> !e.Power?)
    requires k == [] || !k[0].Starstar?
    ensures ParseUnary(Yield(e) + k, sawUnary) == Got(e, k)
    decreases e, 1
  {
    var ts := Yield(e) + k;
    match e
    case Atom(_) =>
      AtomParses(e, k, noIn);
    case Paren(x) =>
      AtomParses(e, k, noIn);
      assert ts[0] == ParenL;
    case Unary(op, x) =>
      assert ts[0] == op && ts[1..] == Yield(x) + k;
      UnaryParses(x, k, true, noIn);
    case Power(x, y) =>
      var rest := [Starstar] + (Yield(y) + k);
      Around(Yield(x), Starstar, Yield(y), k);
      AtomParses(x, rest, noIn);
      assert rest[1..] == Yield(y) + k;
      assert Yield(x)[0] == ts[0] && !IsPrefix(ts[0]);
      UnaryParses(y, k, false, noIn);
  }

  /** Parsing from the start of an expression is the same as going on behind it. */
  lemma {:induction false} Climb(e: Expr, k: seq<Token>, minPrec: int, noIn: bool)
    requires WellFormed(e, noIn) && RootPrec(e) > minPrec && Stops(k, RootPrec(e), noIn)
    ensures ParseOps(Yield(e) + k, minPrec, noIn) == ParseOp(e, k, minPrec, noIn)
    decreases e, 2
  {
    if e.Binary? {
      var op, l, r := e.op, e.left, e.right;
      var p := Prec(op.kind);
      var rest := [op] + (Yield(r) + k);
      Around(Yield(l), op, Yield(r), k);
      assert rest[1..] == Yield(r) + k;
      Climb(l, rest, minPrec, noIn);
      Climb(r, k, p, noIn);
      assert ParseOp(r, k, p, noIn) == Got(r, k);
      assert ParseOp(l, rest, minPrec, noIn) == ParseOp(e, k, minPrec, noIn);
    } else {
      UnaryParses(e, k, false, noIn);
    }
  }

  lemma {:induction false} OpsParse(e: Expr, k: seq<Token>, minPrec: int, noIn: bool)
    requires WellFormed(e, noIn) && RootPrec(e) > minPrec && Stops(k, minPrec, noIn)
    ensures ParseOps(Yield(e) + k, minPrec, noIn) == Got(e, k)
    decreases e, 3
  {
    Climb(e, k, minPrec, noIn);
  }

  /** The parser makes an expression of the grammar of its tokens again, whatever follows that
      cannot go on with it. */
  lemma ParseYield(e: Expr, k: seq<Token>, noIn: bool)
    requires LogicalOrExpression(e, noIn) && Stops(k, -1, noIn)
    ensures ParseExpr(Yield(e) + k, noIn) == Got(e, k)
  {
    WellFormedIff(e, noIn);
    OpsParse(e, k, -1, noIn);
  }

  /** So the tokens have one tree in the grammar. */
  lemma OneTree(a: Expr, b: Expr, noIn: bool)
    requires LogicalOrExpression(a, noIn) && LogicalOrExpression(b, noIn) && Yield(a) == Yield(b)
    ensures a == b
  {
    ParseYield(a, [], noIn);
    ParseYield(b, [], noIn);
  }

  /** The parser fails only where no prefix of the tokens is an expression followed by
      something that ends it. */
  lemma FailsRightly(ts: seq<Token>, noIn: bool, e: Expr, k: seq<Token>)
    requires ParseExpr(ts, noIn).Fail? && ts == Yield(e) + k
    ensures !LogicalOrExpression(e, noIn) || !Stops(k, -1, noIn)
  {
    if LogicalOrExpression(e, noIn) && Stops(k, -1, noIn) {
      ParseYield(e, k, noIn);
    }
  }

  // ---- Printing -----------------------------------------------------------------------------

  // Operators where they belong: what a tree without parentheses has to satisfy to be
  // printable at all.
  predicate Sorted(e: Expr) {
    match e
    case Atom(_) => true
    case Paren(x) => Sorted(x)
    case Unary(op, x) => IsPrefix(op) && Sorted(x)
    case Power(x, y) => Sorted(x) && Sorted(y)
    case Binary(op, l, r) => op.Binop? && Sorted(l) && Sorted(r)
  }

  /** Parentheses where the grouping needs them. */
  function Parenthesize(e: Expr, noIn: bool): (r: Expr)
    requires NoParens(e) && Sorted(e)
    ensures Strip(r) == e
    ensures RootPrec(r) >= RootPrec(e)
    decreases e, 0, noIn
  {
    match e
    case Atom(_) => e
    case Unary(op, x) => Unary(op, Wrapped(x, !(Primary(x) || x.Unary?), noIn))
    case Power(x, y) => Power(Wrapped(x, !Primary(x), noIn), Wrapped(y, y.Binary?, noIn))
    case Binary(op, l, r) =>
      if noIn && op.kind == In then Paren(Parenthesize(e, false))
      else
        Binary(op, Wrapped(l, RootPrec(l) < Prec(op.kind), noIn), Wrapped(r, RootPrec(r) <= Prec(op.kind), noIn))
  }

  function Wrapped(e: Expr, needed: bool, noIn: bool): (r: Expr)
    requires NoParens(e) && Sorted(e)
    ensures Strip(r) == e
    decreases e, 1
  {
    if needed then Paren(Parenthesize(e, false)) else Parenthesize(e, noIn)
  }

  lemma {:induction false} ParenthesizeWellFormed(e: Expr, noIn: bool)
    requires NoParens(e) && Sorted(e)
    ensures WellFormed(Parenthesize(e, noIn), noIn)
    ensures e.Unary? ==> Parenthesize(e, noIn).Unary?
    ensures !e.Binary? ==> !Parenthesize(e, noIn).Binary?
    decreases e, noIn
  {
    match e
    case Atom(_) =>
    case Unary(op, x) =>
      ParenthesizeWellFormed(x, noIn);
      ParenthesizeWellFormed(x, false);
    case Power(x, y) =>
      ParenthesizeWellFormed(x, noIn);
      ParenthesizeWellFormed(x, false);
      ParenthesizeWellFormed(y, noIn);
      ParenthesizeWellFormed(y, false);
    case Binary(op, l, r) =>
      if noIn && op.kind == In {
        ParenthesizeWellFormed(e, false);
      } else {
        ParenthesizeWellFormed(l, noIn);
        ParenthesizeWellFormed(l, false);
        ParenthesizeWellFormed(r, noIn);
        ParenthesizeWellFormed(r, false);
      }
  }

  /** Printing a tree with its necessary parentheses and parsing that gives the tree. */
  lemma PrintParse(e: Expr, k: seq<Token>, noIn: bool)
    requires NoParens(e) && Sorted(e) && Stops(k, -1, noIn)
    ensures
      var r := ParseExpr(Yield(Parenthesize(e, noIn)) + k, noIn);
      r.Got? && Strip(r.e) == e && r.rest == k
  {
    ParenthesizeWellFormed(e, noIn);
    WellFormedIff(Parenthesize(e, noIn), noIn);
    ParseYield(Parenthesize(e, noIn), k, noIn);
  }

  function Parens(e: Expr): nat {
    match e
    case Atom(_) => 0
    case Paren(x) => 1 + Parens(x)
    case Unary(_, x) => Parens(x)
    case Power(x, y) => Parens(x) + Parens(y)
    case Binary(_, l, r) => Parens(l) + Parens(r)
  }

  /** No way to write the tree does with fewer parentheses. */
  lemma {:induction false} FewestParens(c: Expr)
    requires WellFormed(c, false)
    ensures Sorted(Strip(c)) && Parens(Parenthesize(Strip(c), false)) <= Parens(c)
    ensures forall needed :: Parens(Wrapped(Strip(c), needed, false)) <= (if needed && !c.Paren? then 1 else 0) + Parens(c)
  {
    match c
    case Atom(_) =>
    case Paren(x) =>
      FewestParens(x);
    case Unary(op, x) =>
      FewestParens(x);
    case Power(x, y) =>
      FewestParens(x);
      FewestParens(y);
    case Binary(op, l, r) =>
      FewestParens(l);
      FewestParens(r);
  }
}
