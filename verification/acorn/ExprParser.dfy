// The expression part of acorn's Parser: a position in the input that the methods move
// forward. A thrown syntax error is None.
module ExprParser {
  import opened ExprSyntax
  import opened Grammar

  datatype Option<+T> = None | Some(value: T)

  class Parser {
    const input: seq<Token>
    const preserveParens: bool
    var pos: nat

    constructor (input: seq<Token>, preserveParens: bool)
      ensures this.input == input && this.preserveParens == preserveParens && pos == 0
    {
      this.input, this.preserveParens, pos := input, preserveParens, 0;
    }

    ghost predicate Valid()
      reads this
    {
      pos <= |input|
    }

    function Left(): seq<Token>
      requires Valid()
      reads this
    {
      input[pos..]
    }

    // The node that is returned for a tree.
    function Node(e: Expr): Expr {
      if preserveParens then e else Strip(e)
    }

    // The parser did what the simple form does with the tokens that were left: the same
    // node and the same tokens left, or an error.
    ghost predicate Does(p: Parse, r: Option<Expr>)
      reads this
    {
      pos <= |input| &&
      (p.Fail? ==> r == None) &&
      (p.Got? ==> r == Some(Node(p.e)) && input[pos..] == p.rest)
    }

    method Next()
      requires pos < |input|
      modifies this
      ensures Valid() && pos == old(pos) + 1 && Left() == old(Left())[1..]
    {
      pos := pos + 1;
    }

    method ParseExprAtom() returns (r: Option<Expr>)
      requires Valid()
      modifies this
      ensures Does(ParseAtom(old(Left())), r)
      decreases |input| - pos, 1
    {
      if pos == |input| {
        return None;
      }
      var t := input[pos];
      if t.Operand? {
        Next();
        return Some(Atom(t.text));
      }
      if !t.ParenL? {
        return None;
      }
      r := ParseParenAndDistinguishExpression();
    }

    // Parentheses around one expression; arrow functions and sequences are left out.
    method ParseParenAndDistinguishExpression() returns (r: Option<Expr>)
      requires Valid() && pos < |input| && input[pos].ParenL?
      modifies this
      ensures Does(ParseAtom(old(Left())), r)
      decreases |input| - pos, 0
    {
      ghost var inside := ParseOps(Left()[1..], -1, false);
      Next();
      var val := ParseExprOps(false);
      if val.None? || pos == |input| || !input[pos].ParenR? {
        return None;
      }
      Next();
      r := Some(if preserveParens then Paren(val.value) else val.value);
    }

    method ParseMaybeUnary(sawUnary: bool) returns (r: Option<Expr>)
      requires Valid()
      modifies this
      ensures Does(ParseUnary(old(Left()), sawUnary), r)
      decreases |input| - pos, 2
    {
      if pos < |input| && IsPrefix(input[pos]) {
        var op := input[pos];
        Next();
        var argument := ParseMaybeUnary(true);
        return if argument.None? then None else Some(Unary(op, argument.value));
      }
      r := ParseExprAtom();
      if r.None? {
        return;
      }
      if !sawUnary && pos < |input| && input[pos].Starstar? {
        Next();
        var exponent := ParseMaybeUnary(false);
        return if exponent.None? then None else Some(Power(r.value, exponent.value));
      }
    }

    method ParseExprOps(noIn: bool) returns (r: Option<Expr>)
      requires Valid()
      modifies this
      ensures Does(ParseExpr(old(Left()), noIn), r)
      ensures r.Some? ==>
        exists tree :: LogicalOrExpression(tree, noIn) && r.value == Node(tree) && Yield(tree) + Left() == old(Left()) &&
          EndsHere(Left(), noIn)
      decreases |input| - pos, 4
    {
      if ParseExpr(Left(), noIn).Got? {
        ParsedByGrammar(Left(), noIn);
      }
      ghost var whole := ParseUnary(Left(), false);
      r := ParseMaybeUnary(false);
      if r.Some? {
        r := ParseExprOp(r.value, -1, noIn, whole.e);
      }
    }

    // `tree` is what `left` was made of, with its parentheses.
    method ParseExprOp(left: Expr, minPrec: int, noIn: bool, ghost tree: Expr) returns (r: Option<Expr>)
      requires Valid() && left == Node(tree)
      modifies this
      ensures Does(ParseOp(tree, old(Left()), minPrec, noIn), r)
      decreases |input| - pos, 3
    {
      if pos < |input| && input[pos].Binop? && (!noIn || input[pos].kind != In) {
        var prec := Prec(input[pos].kind);
        if prec > minPrec {
          var op := input[pos];
          ghost var operand := ParseUnary(Left()[1..], false);
          ghost var second := ParseOps(Left()[1..], prec, noIn);
          Next();
          var right := ParseMaybeUnary(false);
          if right.None? {
            return None;
          }
          right := ParseExprOp(right.value, prec, noIn, operand.e);
          if right.None? {
            return None;
          }
          var node := Binary(op, left, right.value);
          r := ParseExprOp(node, minPrec, noIn, Binary(op, tree, second.e));
          return;
        }
      }
      r := Some(left);
    }
  }
}
