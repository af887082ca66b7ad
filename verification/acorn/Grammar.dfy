// The nonterminals of ECMA-262 for operator expressions (sections 12.5 to 12.12 of the 6th
// edition, and section 12.6 of the 7th for "**"), and that the parser gives their trees.
module Grammar {
  import opened ExprSyntax

  predicate PrimaryExpression(e: Expr)
    decreases e, 0
  {
    e.Atom? || (e.Paren? && LogicalOrExpression(e.inner, false))
  }

  predicate UnaryExpression(e: Expr)
    decreases e, 1
  {
    PrimaryExpression(e) || (e.Unary? && IsPrefix(e.op) && UnaryExpression(e.arg))
  }

  predicate ExponentiationExpression(e: Expr)
    decreases e, 2
  {
    UnaryExpression(e) || (e.Power? && PrimaryExpression(e.base) && ExponentiationExpression(e.exponent))
  }

  // A binary expression with an operator of one of these kinds.
  predicate Operates(e: Expr, kinds: set<Kind>) {
    e.Binary? && e.op.Binop? && e.op.kind in kinds
  }

  predicate MultiplicativeExpression(e: Expr)
    decreases e, 3
  {
    ExponentiationExpression(e) ||
    (Operates(e, {Star, Slash, Modulo}) && MultiplicativeExpression(e.left) && ExponentiationExpression(e.right))
  }

  predicate AdditiveExpression(e: Expr)
    decreases e, 4
  {
    MultiplicativeExpression(e) || (Operates(e, {PlusMin}) && AdditiveExpression(e.left) && MultiplicativeExpression(e.right))
  }

  predicate ShiftExpression(e: Expr)
    decreases e, 5
  {
    AdditiveExpression(e) || (Operates(e, {BitShift}) && ShiftExpression(e.left) && AdditiveExpression(e.right))
  }

  predicate RelationalExpression(e: Expr, noIn: bool)
    decreases e, 6
  {
    ShiftExpression(e) ||
    (Operates(e, if noIn then {Relational, Instanceof} else {Relational, Instanceof, In}) &&
     RelationalExpression(e.left, noIn) && ShiftExpression(e.right))
  }

  predicate EqualityExpression(e: Expr, noIn: bool)
    decreases e, 7
  {
    RelationalExpression(e, noIn) ||
    (Operates(e, {Equality}) && EqualityExpression(e.left, noIn) && RelationalExpression(e.right, noIn))
  }

  predicate BitwiseAndExpression(e: Expr, noIn: bool)
    decreases e, 8
  {
    EqualityExpression(e, noIn) ||
    (Operates(e, {BitwiseAnd}) && BitwiseAndExpression(e.left, noIn) && EqualityExpression(e.right, noIn))
  }

  predicate BitwiseXorExpression(e: Expr, noIn: bool)
    decreases e, 9
  {
    BitwiseAndExpression(e, noIn) ||
    (Operates(e, {BitwiseXor}) && BitwiseXorExpression(e.left, noIn) && BitwiseAndExpression(e.right, noIn))
  }

  predicate BitwiseOrExpression(e: Expr, noIn: bool)
    decreases e, 10
  {
    BitwiseXorExpression(e, noIn) ||
    (Operates(e, {BitwiseOr}) && BitwiseOrExpression(e.left, noIn) && BitwiseXorExpression(e.right, noIn))
  }

  predicate LogicalAndExpression(e: Expr, noIn: bool)
    decreases e, 11
  {
    BitwiseOrExpression(e, noIn) ||
    (Operates(e, {LogicalAnd}) && LogicalAndExpression(e.left, noIn) && BitwiseOrExpression(e.right, noIn))
  }

  predicate LogicalOrExpression(e: Expr, noIn: bool)
    decreases e, 12
  {
    LogicalAndExpression(e, noIn) ||
    (Operates(e, {LogicalOr}) && LogicalOrExpression(e.left, noIn) && LogicalAndExpression(e.right, noIn))
  }

  // ---- Grouping by precedence is grouping by the grammar -------------------------------------------

  // The nonterminals whose operators bind at least so tightly.
  predicate AtLeast(e: Expr, prec: nat, noIn: bool) {
    match prec
    case 0 => LogicalOrExpression(e, noIn)
    case 1 => LogicalOrExpression(e, noIn)
    case 2 => LogicalAndExpression(e, noIn)
    case 3 => BitwiseOrExpression(e, noIn)
    case 4 => BitwiseXorExpression(e, noIn)
    case 5 => BitwiseAndExpression(e, noIn)
    case 6 => EqualityExpression(e, noIn)
    case 7 => RelationalExpression(e, noIn)
    case 8 => ShiftExpression(e)
    case 9 => AdditiveExpression(e)
    case 10 => MultiplicativeExpression(e)
    case _ => ExponentiationExpression(e)
  }

  // One step of a rule, for the operators of one precedence.
  lemma LevelStep(e: Expr, prec: nat, noIn: bool)
    requires 1 <= prec <= 10
    ensures AtLeast(e, prec, noIn) <==>
      AtLeast(e, prec + 1, noIn) ||
      (e.Binary? && e.op.Binop? && (noIn ==> e.op.kind != In) && Prec(e.op.kind) == prec &&
       AtLeast(e.left, prec, noIn) && AtLeast(e.right, prec + 1, noIn))
  {
  }

  lemma {:induction false} LevelIff(e: Expr, prec: nat, noIn: bool)
    requires prec <= 11
    ensures AtLeast(e, prec, noIn) <==> WellFormed(e, noIn) && RootPrec(e) >= prec
    decreases e, 14 - prec
  {
    if prec == 0 {
      LevelIff(e, 1, noIn);
    } else if prec <= 10 {
      hide AtLeast;
      LevelStep(e, prec, noIn);
      LevelIff(e, prec + 1, noIn);
      if e.Binary? {
        LevelIff(e.left, prec, noIn);
        LevelIff(e.right, prec + 1, noIn);
      }
    } else {
      ExponentIff(e, noIn);
    }
  }

  lemma {:induction false} PrimaryIff(e: Expr, noIn: bool)
    ensures PrimaryExpression(e) <==> WellFormed(e, noIn) && Primary(e)
    decreases e, 0
  {
    if e.Paren? {
      LevelIff(e.inner, 0, false);
    }
  }

  lemma {:induction false} UnaryIff(e: Expr, noIn: bool)
    ensures UnaryExpression(e) <==> WellFormed(e, noIn) && (Primary(e) || e.Unary?)
    decreases e, 1
  {
    PrimaryIff(e, noIn);
    if e.Unary? {
      UnaryIff(e.arg, noIn);
    }
  }

  lemma {:induction false} ExponentIff(e: Expr, noIn: bool)
    ensures ExponentiationExpression(e) <==> WellFormed(e, noIn) && RootPrec(e) >= 11
    decreases e, 2
  {
    UnaryIff(e, noIn);
    if e.Power? {
      PrimaryIff(e.base, noIn);
      ExponentIff(e.exponent, noIn);
    }
  }

  /** The trees that are grouped by precedence are the logical-or expressions of the grammar. */
  lemma WellFormedIff(e: Expr, noIn: bool)
    ensures WellFormed(e, noIn) <==> LogicalOrExpression(e, noIn)
  {
    LevelIff(e, 0, noIn);
  }

  // No operator that goes on with the expression.
  predicate EndsHere(ts: seq<Token>, noIn: bool) {
    ts != [] && ts[0].Binop? ==> noIn && ts[0].kind == In
  }

  /** What is parsed is an expression of the grammar, written in the tokens in order, and no
      operator behind it could have been taken in. */
  lemma ParsedByGrammar(ts: seq<Token>, noIn: bool)
    requires ParseExpr(ts, noIn).Got?
    ensures
      var r := ParseExpr(ts, noIn);
      Yield(r.e) + r.rest == ts && LogicalOrExpression(r.e, noIn) && EndsHere(r.rest, noIn)
  {
    OpsSound(ts, -1, noIn);
    WellFormedIff(ParseExpr(ts, noIn).e, noIn);
  }
}
