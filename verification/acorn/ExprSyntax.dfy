// Operator expressions: the trees, the tokens they are written with, and the simple form
// of acorn's precedence-climbing parser.
module ExprSyntax {
  datatype Kind =
    | LogicalOr | LogicalAnd | BitwiseOr | BitwiseXor | BitwiseAnd | Equality | Relational
    | Instanceof | In | BitShift | PlusMin | Modulo | Star | Slash

  // The binop numbers of the token types.
  function Prec(k: Kind): (p: nat)
    ensures 1 <= p <= 10
  {
    match k
    case LogicalOr => 1
    case LogicalAnd => 2
    case BitwiseOr => 3
    case BitwiseXor => 4
    case BitwiseAnd => 5
    case Equality => 6
    case Relational => 7
    case Instanceof => 7
    case In => 7
    case BitShift => 8
    case PlusMin => 9
    case Modulo => 10
    case Star => 10
    case Slash => 10
  }

  // Starstar is a binary operator without a binop number; plus and minus are prefix
  // operators as well. Other stands for any token that cannot go on with an expression.
  datatype Token =
    | Operand(text: string)
    | Binop(kind: Kind, text: string)
    | PrefixOp(text: string)
    | Starstar
    | ParenL
    | ParenR
    | Other(text: string)

  datatype Expr =
    | Atom(text: string)
    | Paren(inner: Expr)
    | Unary(op: Token, arg: Expr)
    | Power(base: Expr, exponent: Expr)
    | Binary(op: Token, left: Expr, right: Expr)

  predicate IsPrefix(t: Token) {
    t.PrefixOp? || (t.Binop? && t.kind == PlusMin)
  }

  /** How a tree is written. */
  function Yield(e: Expr): (ts: seq<Token>)
    ensures ts != []
  {
    match e
    case Atom(text) => [Operand(text)]
    case Paren(x) => [ParenL] + Yield(x) + [ParenR]
    case Unary(op, x) => [op] + Yield(x)
    case Power(x, y) => Yield(x) + [Starstar] + Yield(y)
    case Binary(op, l, r) => Yield(l) + [op] + Yield(r)
  }

  predicate Primary(e: Expr) {
    e.Atom? || e.Paren?
  }

  /** The trees the grammar of ECMA-262 gives: equal precedence groups to the left, "**"
      to the right and not behind a unary operator; without "in" where a for header
      forbids it. */
  predicate WellFormed(e: Expr, noIn: bool) {
    match e
    case Atom(_) => true
    case Paren(x) => WellFormed(x, false)
    case Unary(op, x) => IsPrefix(op) && (Primary(x) || x.Unary?) && WellFormed(x, noIn)
    case Power(x, y) => Primary(x) && !y.Binary? && WellFormed(x, noIn) && WellFormed(y, noIn)
    case Binary(op, l, r) =>
      op.Binop? && (noIn ==> op.kind != In) && WellFormed(l, noIn) && WellFormed(r, noIn) &&
      RootPrec(l) >= Prec(op.kind) && RootPrec(r) > Prec(op.kind)
  }

  // How tightly the operator at the root binds; 11 stands for anything but a binop.
  function RootPrec(e: Expr): nat {
    if e.Binary? && e.op.Binop? then Prec(e.op.kind) else 11
  }

  // Without preserveParens the parser drops ParenthesizedExpression nodes.
  function Strip(e: Expr): (r: Expr)
    ensures NoParens(r)
  {
    match e
    case Atom(_) => e
    case Paren(x) => Strip(x)
    case Unary(op, x) => Unary(op, Strip(x))
    case Power(x, y) => Power(Strip(x), Strip(y))
    case Binary(op, l, r) => Binary(op, Strip(l), Strip(r))
  }

  predicate NoParens(e: Expr) {
    match e
    case Atom(_) => true
    case Paren(_) => false
    case Unary(_, x) => NoParens(x)
    case Power(x, y) => NoParens(x) && NoParens(y)
    case Binary(_, l, r) => NoParens(l) && NoParens(r)
  }

  // ---- The parser on the tokens that are left ------------------------------------------------

  datatype Parse = Got(e: Expr, rest: seq<Token>) | Fail

  predicate Shorter(p: Parse, ts: seq<Token>) {
    p.Got? ==> |p.rest| < |ts|
  }

  /** parseExprAtom for names and parentheses; inside them "in" is allowed again. */
  function ParseAtom(ts: seq<Token>): (r: Parse)
    ensures Shorter(r, ts)
    decreases |ts|, 0
  {
    if ts == [] then Fail
    else if ts[0].Operand? then Got(Atom(ts[0].text), ts[1..])
    else if ts[0].ParenL? then
      match ParseOps(ts[1..], -1, false)
      case Fail => Fail
      case Got(e, rest) => if rest != [] && rest[0].ParenR? then Got(Paren(e), rest[1..]) else Fail
    else Fail
  }

  /** parseMaybeUnary */
  function ParseUnary(ts: seq<Token>, sawUnary: bool): (r: Parse)
    ensures Shorter(r, ts)
    decreases |ts|, 1
  {
    if ts == [] then Fail
    else if IsPrefix(ts[0]) then
      match ParseUnary(ts[1..], true)
      case Fail => Fail
      case Got(e, rest) => Got(Unary(ts[0], e), rest)
    else
      match ParseAtom(ts)
      case Fail => Fail
      case Got(e, rest) =>
        if !sawUnary && rest != [] && rest[0].Starstar? then
          match ParseUnary(rest[1..], false)
          case Fail => Fail
          case Got(y, rest') => Got(Power(e, y), rest')
        else Got(e, rest)
  }

  predicate Continues(ts: seq<Token>, minPrec: int, noIn: bool) {
    ts != [] && ts[0].Binop? && (noIn ==> ts[0].kind != In) && Prec(ts[0].kind) > minPrec
  }

  /** parseExprOp behind `left` */
  function ParseOp(left: Expr, ts: seq<Token>, minPrec: int, noIn: bool): (r: Parse)
    ensures r.Got? ==> |r.rest| <= |ts|
    decreases |ts|, 2
  {
    if !Continues(ts, minPrec, noIn) then Got(left, ts)
    else
      match ParseOps(ts[1..], Prec(ts[0].kind), noIn)
      case Fail => Fail
      case Got(right, rest) => ParseOp(Binary(ts[0], left, right), rest, minPrec, noIn)
  }

  // A unary expression and the operators behind it that bind tighter than minPrec.
  function ParseOps(ts: seq<Token>, minPrec: int, noIn: bool): (r: Parse)
    ensures Shorter(r, ts)
    decreases |ts|, 3
  {
    match ParseUnary(ts, false)
    case Fail => Fail
    case Got(e, rest) => ParseOp(e, rest, minPrec, noIn)
  }

  /** parseExprOps */
  function ParseExpr(ts: seq<Token>, noIn: bool): Parse {
    ParseOps(ts, -1, noIn)
  }

  // ---- What is parsed is written there, grouped by precedence, and as much as possible -------

  lemma Around(a: seq<Token>, t: Token, b: seq<Token>, rest: seq<Token>)
    ensures a + [t] + b + rest == a + ([t] + (b + rest))
  {
  }

  lemma {:induction false} AtomSound(ts: seq<Token>)
    requires ParseAtom(ts).Got?
    ensures var r := ParseAtom(ts); Yield(r.e) + r.rest == ts && Primary(r.e) && WellFormed(r.e, false) && WellFormed(r.e, true)
    decreases |ts|, 0
  {
    if ts[0].ParenL? {
      OpsSound(ts[1..], -1, false);
      var r := ParseOps(ts[1..], -1, false);
      assert [ParenL] + Yield(r.e) + [ParenR] + r.rest[1..] == [ParenL] + (Yield(r.e) + r.rest);
      assert ts == [ParenL] + ts[1..];
    }
  }

  lemma {:induction false} UnarySound(ts: seq<Token>, sawUnary: bool, noIn: bool)
    requires ParseUnary(ts, sawUnary).Got?
    ensures
      var r := ParseUnary(ts, sawUnary);
      Yield(r.e) + r.rest == ts && !r.e.Binary? && (sawUnary ==> !r.e.Power?) && WellFormed(r.e, noIn)
    decreases |ts|, 1
  {
    hide ParseAtom;
    if IsPrefix(ts[0]) {
      UnarySound(ts[1..], true, noIn);
    } else {
      AtomSound(ts);
      var a := ParseAtom(ts);
      if !sawUnary && a.rest != [] && a.rest[0].Starstar? {
        UnarySound(a.rest[1..], false, noIn);
        var b := ParseUnary(a.rest[1..], false);
        Around(Yield(a.e), Starstar, Yield(b.e), b.rest);
        assert a.rest == [Starstar] + a.rest[1..];
      }
    }
  }

  lemma {:induction false} OpSound(left: Expr, ts: seq<Token>, minPrec: int, noIn: bool)
    requires WellFormed(left, noIn) && RootPrec(left) > minPrec
    requires ParseOp(left, ts, minPrec, noIn).Got?
    requires ts != [] && ts[0].Binop? && (noIn ==> ts[0].kind != In) ==> Prec(ts[0].kind) <= RootPrec(left)
    ensures
      var r := ParseOp(left, ts, minPrec, noIn);
      Yield(r.e) + r.rest == Yield(left) + ts && WellFormed(r.e, noIn) && RootPrec(r.e) > minPrec &&
      !Continues(r.rest, minPrec, noIn)
    decreases |ts|, 2
  {
    if Continues(ts, minPrec, noIn) {
      var p := Prec(ts[0].kind);
      OpsSound(ts[1..], p, noIn);
      var r := ParseOps(ts[1..], p, noIn);
      var node := Binary(ts[0], left, r.e);
      Around(Yield(left), ts[0], Yield(r.e), r.rest);
      assert ts == [ts[0]] + ts[1..];
      OpSound(node, r.rest, minPrec, noIn);
    }
  }

  /** What the parser returns stands in the tokens, in order; it groups by precedence; and
      no operator behind it could have been taken in. */
  lemma {:induction false} OpsSound(ts: seq<Token>, minPrec: int, noIn: bool)
    requires minPrec <= 10 && ParseOps(ts, minPrec, noIn).Got?
    ensures
      var r := ParseOps(ts, minPrec, noIn);
      Yield(r.e) + r.rest == ts && WellFormed(r.e, noIn) && RootPrec(r.e) > minPrec &&
      !Continues(r.rest, minPrec, noIn)
    decreases |ts|, 3
  {
    UnarySound(ts, false, noIn);
    var u := ParseUnary(ts, false);
    OpSound(u.e, u.rest, minPrec, noIn);
  }
}
