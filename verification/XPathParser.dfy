/** The precedence-climbing parser for XPath operators, and its agreement with the grammar on every token sequence. */
module XPathParser {
  import opened XPathGrammar

  /** `xpath_ast_depth_limit` */
  const DEPTH_LIMIT: nat := 1024

  /** `NeedsFunction` is where the parser leaves for the function-call and node-type syntax. */
  datatype Error = TooDeep | NotSets | NoOperand | Unclosed | NeedsFunction | Leftover

  datatype Outcome = Parsed(phrase: Phrase, pos: nat, depth: nat) | Failed(error: Error)

  type Tokens = seq<Token>

  /** `_lexer.current()` */
  function Peek(ts: Tokens, pos: nat): Token {
    if pos < |ts| then ts[pos] else Eof
  }

  /** The loop of the climber goes on at this lexeme. */
  predicate Continues(t: Token, limit: nat) {
    BinaryOp(t).Some? && limit <= Rank(t)
  }

  /** `parse_path_or_unary_expression` */
  function Unary(max: nat, ts: Tokens, pos: nat, depth: nat): (r: Outcome)
    requires pos <= |ts|
    ensures r.Parsed? ==> pos < r.pos <= |ts|
    decreases |ts| - pos, 0
  {
    var t := Peek(ts, pos);
    if t.Open? then
      var inner := Expression(max, ts, pos + 1, depth, 0);
      if inner.Failed? then inner
      else if !Peek(ts, inner.pos).Close? then Failed(Unclosed)
      else Parsed(Group(inner.phrase), inner.pos + 1, inner.depth)
    else if t.Minus? then
      var inner := Expression(max, ts, pos + 1, depth, 7);
      if inner.Failed? then inner else Parsed(Minused(inner.phrase), inner.pos, inner.depth)
    else if !IsOperand(t) then Failed(NoOperand)
    else if t.Name? && Peek(ts, pos + 1).Open? then Failed(NeedsFunction)
    else Parsed(Atom(t), pos + 1, depth)
  }

  /** `parse_expression` */
  function Expression(max: nat, ts: Tokens, pos: nat, depth: nat, limit: nat): (r: Outcome)
    requires pos <= |ts|
    ensures r.Parsed? ==> pos < r.pos <= |ts|
    decreases |ts| - pos, 1
  {
    if depth + 1 > max then Failed(TooDeep)
    else
      var r := Climbed(max, ts, Unary(max, ts, pos, depth + 1), limit);
      if r.Failed? then r else r.(depth := depth)
  }

  /** The climber, started from a successful operand. */
  function Climbed(max: nat, ts: Tokens, start: Outcome, limit: nat): (r: Outcome)
    requires start.Parsed? ==> start.pos <= |ts|
    ensures start.Parsed? && r.Parsed? ==> start.pos <= r.pos <= |ts|
    ensures start.Failed? ==> r == start
    decreases if start.Parsed? then |ts| - start.pos else 0, if start.Parsed? then 1 else 0
  {
    if start.Parsed? then Climb(max, ts, start.phrase, start.pos, start.depth, limit) else start
  }

  /** `parse_expression_rec`: the outer loop, one turn at a time */
  function Climb(max: nat, ts: Tokens, lhs: Phrase, pos: nat, depth: nat, limit: nat): (r: Outcome)
    requires pos <= |ts|
    ensures r.Parsed? ==> pos <= r.pos <= |ts|
    ensures r.Parsed? && Continues(Peek(ts, pos), limit) ==> pos < r.pos
    decreases |ts| - pos, 0
  {
    var t := Peek(ts, pos);
    if !Continues(t, limit) then Parsed(lhs, pos, depth)
    else if depth + 1 > max then Failed(TooDeep)
    else
      var rhs := Absorbed(max, ts, Unary(max, ts, pos + 1, depth + 1), Rank(t));
      if rhs.Failed? then rhs
      else
        var op := BinaryOp(t).value;
        if op == Union && !(IsSet(Stripped(lhs)) && IsSet(Stripped(rhs.phrase))) then Failed(NotSets)
        else Climb(max, ts, Infix(op, lhs, rhs.phrase), rhs.pos, rhs.depth, limit)
  }

  /** The inner loop, started from a successful operand. */
  function Absorbed(max: nat, ts: Tokens, start: Outcome, rank: nat): (r: Outcome)
    requires start.Parsed? ==> start.pos <= |ts|
    ensures start.Parsed? && r.Parsed? ==> start.pos <= r.pos <= |ts|
    ensures start.Failed? ==> r == start
    decreases if start.Parsed? then |ts| - start.pos else 0, if start.Parsed? then 3 else 0
  {
    if start.Parsed? then Absorb(max, ts, start.phrase, start.pos, start.depth, rank) else start
  }

  /** The inner loop of `parse_expression_rec`: the right operand takes the tighter operators behind it */
  function Absorb(max: nat, ts: Tokens, rhs: Phrase, pos: nat, depth: nat, rank: nat): (r: Outcome)
    requires pos <= |ts|
    ensures r.Parsed? ==> pos <= r.pos <= |ts|
    decreases |ts| - pos, 2
  {
    var t := Peek(ts, pos);
    if BinaryOp(t).Some? && rank < Rank(t) then
      Absorbed(max, ts, Climb(max, ts, rhs, pos, depth, Rank(t)), rank)
    else Parsed(rhs, pos, depth)
  }

  /** `parse` */
  function Parse(max: nat, ts: Tokens): Outcome {
    var r := Expression(max, ts, 0, 0, 0);
    if r.Parsed? && !Peek(ts, r.pos).Eof? then Failed(Leftover) else r
  }

  lemma ExpressionTurn(max: nat, ts: Tokens, pos: nat, depth: nat, limit: nat)
    requires pos <= |ts|
    ensures depth + 1 > max ==> Expression(max, ts, pos, depth, limit) == Failed(TooDeep)
    ensures depth + 1 <= max ==>
              var u := Unary(max, ts, pos, depth + 1);
              if u.Failed? then Expression(max, ts, pos, depth, limit) == u
              else
                var r := Climb(max, ts, u.phrase, u.pos, u.depth, limit);
                Expression(max, ts, pos, depth, limit) == if r.Failed? then r else Parsed(r.phrase, r.pos, depth)
  {
    hide Unary, Climb;
  }

  /** A turn of the outer loop */
  lemma ClimbTurn(max: nat, ts: Tokens, lhs: Phrase, pos: nat, depth: nat, limit: nat, op: Op)
    requires pos <= |ts| && BinaryOp(Peek(ts, pos)) == Some(op) && limit <= Precedence(op)
    ensures pos < |ts|
    ensures depth + 1 > max ==> Climb(max, ts, lhs, pos, depth, limit) == Failed(TooDeep)
    ensures depth + 1 <= max ==>
              var u := Unary(max, ts, pos + 1, depth + 1);
              if u.Failed? then Climb(max, ts, lhs, pos, depth, limit) == u
              else
                var rhs := Absorb(max, ts, u.phrase, u.pos, u.depth, Precedence(op));
                Climb(max, ts, lhs, pos, depth, limit) ==
                if rhs.Failed? then rhs
                else if op == Union && !(IsSet(Stripped(lhs)) && IsSet(Stripped(rhs.phrase))) then Failed(NotSets)
                else Climb(max, ts, Infix(op, lhs, rhs.phrase), rhs.pos, rhs.depth, limit)
  {
    hide Unary, Absorb, IsSet, Stripped;
  }

  /** The outer loop at its end */
  lemma ClimbEnds(max: nat, ts: Tokens, lhs: Phrase, pos: nat, depth: nat, limit: nat, op: Option<Op>)
    requires pos <= |ts| && BinaryOp(Peek(ts, pos)) == op && (op.Some? ==> Precedence(op.value) < limit)
    ensures Climb(max, ts, lhs, pos, depth, limit) == Parsed(lhs, pos, depth)
  {}

  /** The inner loop: a turn, or its end */
  lemma AbsorbTurn(max: nat, ts: Tokens, rhs: Phrase, pos: nat, depth: nat, rank: nat, op: Option<Op>)
    requires pos <= |ts| && BinaryOp(Peek(ts, pos)) == op
    ensures if op.Some? && rank < Precedence(op.value) then
              var c := Climb(max, ts, rhs, pos, depth, Precedence(op.value));
              && Absorb(max, ts, rhs, pos, depth, rank)
                == (if c.Parsed? then Absorb(max, ts, c.phrase, c.pos, c.depth, rank) else c)
              && (c.Parsed? ==> pos < c.pos)
            else Absorb(max, ts, rhs, pos, depth, rank) == Parsed(rhs, pos, depth)
  {
    hide Climb;
  }

  /** `xpath_parser`, with the lexer's cursor and the depth counter updated in place. */
  class Parser {
    const ts: Tokens
    var pos: nat
    var depth: nat
    var error: Option<Error>

    constructor (query: Tokens)
      ensures ts == query && pos == 0 && depth == 0 && error == None
    {
      ts, pos, depth, error := query, 0, 0, None;
    }

    /** The parser returned what `r` says: the tree of its phrase, with the cursor behind it, or its error. */
    ghost predicate Gives(n: Option<Tree>, r: Outcome)
      reads this
    {
      match r
      case Parsed(c, p, d) => n == Some(Stripped(c)) && pos == p && depth == d
      case Failed(e) => n == None && error == Some(e)
    }

    method Next()
      requires pos < |ts|
      modifies this`pos
      ensures pos == old(pos) + 1
    {
      pos := pos + 1;
    }

    method Fail(e: Error) returns (n: Option<Tree>)
      modifies this`error
      ensures n == None && error == Some(e)
    {
      error := Some(e);
      n := None;
    }

    method ParsePathOrUnaryExpression() returns (n: Option<Tree>)
      requires pos <= |ts|
      modifies this
      ensures Gives(n, Unary(DEPTH_LIMIT, ts, old(pos), old(depth)))
      decreases |ts| - pos, 0
    {
      var t := Peek(ts, pos);
      if t.Open? {
        Next();
        n := ParseExpression(0);
        if n == None { return; }
        if !Peek(ts, pos).Close? {
          n := Fail(Unclosed);
        } else {
          Next();
        }
      } else if t.Minus? {
        Next();
        n := ParseExpression(7);
        if n == None { return; }
        n := Some(Negate(n.value));
      } else if !IsOperand(t) {
        n := Fail(NoOperand);
      } else if t.Name? && Peek(ts, pos + 1).Open? {
        n := Fail(NeedsFunction);
      } else {
        Next();
        n := Some(Leaf(t));
      }
    }

    method ParseExpression(limit: nat) returns (n: Option<Tree>)
      requires pos <= |ts|
      modifies this
      ensures Gives(n, Expression(DEPTH_LIMIT, ts, old(pos), old(depth), limit))
      decreases |ts| - pos, 1
    {
      hide Unary, Expression, Climb;
      ExpressionTurn(DEPTH_LIMIT, ts, pos, depth, limit);
      var oldDepth := depth;
      depth := depth + 1;
      if depth > DEPTH_LIMIT {
        n := Fail(TooDeep);
        return;
      }
      ghost var r := Unary(DEPTH_LIMIT, ts, pos, depth);
      n := ParsePathOrUnaryExpression();
      if n == None { return; }
      n := ParseExpressionRec(n.value, r.phrase, limit);
      depth := oldDepth;
    }

    method ParseExpressionRec(lhs0: Tree, ghost phrase: Phrase, limit: nat) returns (n: Option<Tree>)
      requires pos <= |ts| && lhs0 == Stripped(phrase)
      modifies this
      ensures Gives(n, Climb(DEPTH_LIMIT, ts, phrase, old(pos), old(depth), limit))
      decreases |ts| - pos, 0
    {
      hide Unary, Expression, IsSet, Absorbed, Climb, Absorb, BinaryOp, Rank, Climbed;
      ghost var goal := Climb(DEPTH_LIMIT, ts, phrase, pos, depth, limit);
      var lhs := lhs0;
      ghost var l := phrase;
      var op := BinaryOp(Peek(ts, pos));
      while op.Some? && Precedence(op.value) >= limit
        invariant old(pos) <= pos <= |ts| && op == BinaryOp(Peek(ts, pos)) && lhs == Stripped(l)
        invariant Climb(DEPTH_LIMIT, ts, l, pos, depth, limit) == goal
        decreases |ts| - pos
      {
        ClimbTurn(DEPTH_LIMIT, ts, l, pos, depth, limit, op.value);
        Next();
        depth := depth + 1;
        if depth > DEPTH_LIMIT {
          n := Fail(TooDeep);
          return;
        }
        ghost var u := Unary(DEPTH_LIMIT, ts, pos, depth);
        n := ParsePathOrUnaryExpression();
        if n == None { return; }
        var rhs := n.value;
        ghost var r := u.phrase;
        ghost var absorbed := Absorb(DEPTH_LIMIT, ts, r, pos, depth, Precedence(op.value));
        var nextop := BinaryOp(Peek(ts, pos));
        while nextop.Some? && Precedence(nextop.value) > Precedence(op.value)
          invariant old(pos) < pos <= |ts| && nextop == BinaryOp(Peek(ts, pos)) && rhs == Stripped(r)
          invariant Absorb(DEPTH_LIMIT, ts, r, pos, depth, Precedence(op.value)) == absorbed
          decreases |ts| - pos
        {
          AbsorbTurn(DEPTH_LIMIT, ts, r, pos, depth, Precedence(op.value), nextop);
          ghost var c := Climb(DEPTH_LIMIT, ts, r, pos, depth, Precedence(nextop.value));
          n := ParseExpressionRec(rhs, r, Precedence(nextop.value));
          if n == None { return; }
          rhs, r := n.value, c.phrase;
          nextop := BinaryOp(Peek(ts, pos));
        }
        AbsorbTurn(DEPTH_LIMIT, ts, r, pos, depth, Precedence(op.value), nextop);
        if op.value == Union && (!IsSet(lhs) || !IsSet(rhs)) {
          n := Fail(NotSets);
          return;
        }
        lhs, l := Binary(op.value, lhs, rhs), Infix(op.value, l, r);
        op := BinaryOp(Peek(ts, pos));
      }
      ClimbEnds(DEPTH_LIMIT, ts, l, pos, depth, limit, op);
      n := Some(lhs);
    }

    /** The tree of the query, or the error the pure parser has. */
    method ParseQuery() returns (n: Option<Tree>)
      requires pos == 0 && depth == 0
      modifies this
      ensures Gives(n, Parse(DEPTH_LIMIT, ts))
    {
      n := ParseExpression(0);
      if n == None { return; }
      if !Peek(ts, pos).Eof? {
        n := Fail(Leftover);
      }
    }
  }
}
