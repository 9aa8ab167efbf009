/** The climber parses exactly the grammar: a phrase is found from its text unless it exceeds the depth limit, and what
    is found has that text. */
module XPathPrecedence {
  import opened XPathGrammar
  import opened XPathParser

  /** Operators standing outside every bracket and minus of a phrase */
  function Operators(c: Phrase): nat {
    match c
    case Infix(_, l, r) => Operators(l) + 1 + Operators(r)
    case _ => 0
  }

  /** The phrase stays within the depth limit `max` when its first operand is read at `depth`: every bracket and minus
      goes one deeper while it lasts, every operator one deeper for good. */
  predicate Fits(max: nat, c: Phrase, depth: nat) {
    match c
    case Atom(_) => true
    case Group(b) => depth + 1 <= max && Fits(max, b, depth + 1)
    case Minused(a) => depth + 1 <= max && Fits(max, a, depth + 1)
    case Infix(_, l, r) =>
      && Fits(max, l, depth)
      && depth + Operators(l) + 1 <= max
      && Fits(max, r, depth + Operators(l) + 1)
  }

  predicate At(ts: Tokens, pos: nat, s: Tokens) {
    pos + |s| <= |ts| && ts[pos..pos + |s|] == s
  }

  /** What may follow an operand */
  predicate Follows(t: Token) {
    BinaryOp(t).Some? || t.Close? || t.Eof?
  }

  /** `c` stands at `pos`, and what follows does not belong to it. */
  predicate Stands(c: Phrase, ts: Tokens, pos: nat) {
    && Grammatical(c)
    && At(ts, pos, Text(c))
    && Follows(Peek(ts, pos + |Text(c)|))
    && Rank(Peek(ts, pos + |Text(c)|)) <= Cap(c)
  }

  lemma AtParts(ts: Tokens, pos: nat, a: Tokens, b: Tokens)
    requires At(ts, pos, a + b)
    ensures At(ts, pos, a) && At(ts, pos + |a|, b)
  {
    var s := ts[pos..pos + |a| + |b|];
    assert ts[pos..pos + |a|] == s[..|a|] == a;
    assert ts[pos + |a|..pos + |a| + |b|] == s[|a|..] == b;
  }

  lemma AtJoined(ts: Tokens, pos: nat, a: Tokens, b: Tokens)
    requires At(ts, pos, a) && At(ts, pos + |a|, b)
    ensures At(ts, pos, a + b)
  {
    assert ts[pos..pos + |a| + |b|] == ts[pos..pos + |a|] + ts[pos + |a|..pos + |a| + |b|];
  }

  lemma AtOne(ts: Tokens, pos: nat, t: Token)
    ensures At(ts, pos, [t]) <==> pos < |ts| && ts[pos] == t
  {}

  /** The parts of a standing phrase stand. */
  lemma InfixStands(c: Phrase, ts: Tokens, pos: nat)
    requires c.Infix? && Stands(c, ts, pos)
    ensures Stands(c.left, ts, pos)
    ensures Peek(ts, pos + |Text(c.left)|) == Spelling(c.op)
    ensures Stands(c.right, ts, pos + |Text(c.left)| + 1)
    ensures pos + |Text(c.left)| + 1 + |Text(c.right)| == pos + |Text(c)|
    ensures Rank(Spelling(c.op)) == Precedence(c.op) && BinaryOp(Spelling(c.op)) == Some(c.op)
  {
    hide *;
    InfixParts(c, ts, pos);
    AtParts(ts, pos, Text(c.left), [Spelling(c.op)] + Text(c.right));
    AtParts(ts, pos + |Text(c.left)|, [Spelling(c.op)], Text(c.right));
    AtOne(ts, pos + |Text(c.left)|, Spelling(c.op));
    PeekAt(ts, pos + |Text(c.left)|);
    LeftStands(c, ts, pos);
    RightStands(c, ts, pos, pos + |Text(c.left)| + 1);
  }

  lemma PeekAt(ts: Tokens, pos: nat)
    requires pos < |ts|
    ensures Peek(ts, pos) == ts[pos]
  {}

  lemma InfixParts(c: Phrase, ts: Tokens, pos: nat)
    requires c.Infix? && Stands(c, ts, pos)
    ensures At(ts, pos, Text(c.left) + ([Spelling(c.op)] + Text(c.right)))
    ensures |Text(c)| == |Text(c.left)| + 1 + |Text(c.right)|
    ensures Rank(Spelling(c.op)) == Precedence(c.op) && BinaryOp(Spelling(c.op)) == Some(c.op)
  {
    hide At, Grammatical, Follows;
  }

  lemma LeftStands(c: Phrase, ts: Tokens, pos: nat)
    requires c.Infix? && Stands(c, ts, pos) && At(ts, pos, Text(c.left))
    requires Peek(ts, pos + |Text(c.left)|) == Spelling(c.op)
    requires Rank(Spelling(c.op)) == Precedence(c.op) && BinaryOp(Spelling(c.op)) == Some(c.op)
    ensures Stands(c.left, ts, pos)
  {
    hide At, Text, Peek, Spelling, BinaryOp, Rank;
  }

  lemma RightStands(c: Phrase, ts: Tokens, pos: nat, at: nat)
    requires c.Infix? && Stands(c, ts, pos) && At(ts, at, Text(c.right)) && at + |Text(c.right)| == pos + |Text(c)|
    ensures Stands(c.right, ts, at)
  {
    hide At, Text, Peek, Spelling, BinaryOp, Rank;
  }

  lemma GroupStands(c: Phrase, ts: Tokens, pos: nat)
    requires c.Group? && Stands(c, ts, pos)
    ensures Peek(ts, pos) == Open && Stands(c.body, ts, pos + 1)
    ensures Peek(ts, pos + 1 + |Text(c.body)|) == Close
    ensures pos + 1 + |Text(c.body)| + 1 == pos + |Text(c)|
  {
    AtParts(ts, pos, [Open] + Text(c.body), [Close]);
    AtParts(ts, pos, [Open], Text(c.body));
    AtOne(ts, pos, Open);
    AtOne(ts, pos + 1 + |Text(c.body)|, Close);
  }

  lemma MinusedStands(c: Phrase, ts: Tokens, pos: nat)
    requires c.Minused? && Stands(c, ts, pos)
    ensures Peek(ts, pos) == Minus && Stands(c.arg, ts, pos + 1)
    ensures 7 <= Level(c.arg) && !Continues(Peek(ts, pos + 1 + |Text(c.arg)|), 7)
    ensures pos + 1 + |Text(c.arg)| == pos + |Text(c)|
  {
    AtParts(ts, pos, [Minus], Text(c.arg));
    AtOne(ts, pos, Minus);
  }

  /** An operand is found whole. */
  lemma {:induction false} UnaryFinds(max: nat, c: Phrase, ts: Tokens, pos: nat, depth: nat)
    requires !c.Infix? && Stands(c, ts, pos)
    ensures pos + |Text(c)| <= |ts|
    ensures Unary(max, ts, pos, depth) == if Fits(max, c, depth) then Parsed(c, pos + |Text(c)|, depth)
      else Failed(TooDeep)
    decreases c, 0
  {
    hide *;
    StandingEnds(c, ts, pos);
    match c
    case Atom(o) =>
      AtomRead(max, o, ts, pos, depth);
    case Group(b) =>
      GroupStands(c, ts, pos);
      BracketEnds(ts, pos + 1 + |Text(b)|);
      ExpressionFinds(max, b, ts, pos + 1, depth, 0);
      UnaryGroup(max, b, ts, pos, depth);
    case Minused(a) =>
      MinusedStands(c, ts, pos);
      ExpressionFinds(max, a, ts, pos + 1, depth, 7);
      UnaryMinus(max, a, ts, pos, depth);
  }

  lemma AtomRead(max: nat, o: Token, ts: Tokens, pos: nat, depth: nat)
    requires Stands(Atom(o), ts, pos)
    ensures Fits(max, Atom(o), depth) && |Text(Atom(o))| == 1
    ensures Unary(max, ts, pos, depth) == Parsed(Atom(o), pos + 1, depth)
  {
    AtOne(ts, pos, o);
  }

  lemma BracketEnds(ts: Tokens, pos: nat)
    requires Peek(ts, pos) == Close
    ensures !Continues(Peek(ts, pos), 0)
  {}

  lemma UnaryGroup(max: nat, b: Phrase, ts: Tokens, pos: nat, depth: nat)
    requires pos + 1 + |Text(b)| < |ts| && Peek(ts, pos) == Open && Peek(ts, pos + 1 + |Text(b)|) == Close
    requires Expression(max, ts, pos + 1, depth, 0) ==
             if depth + 1 <= max && Fits(max, b, depth + 1) then Parsed(b, pos + 1 + |Text(b)|, depth)
               else Failed(TooDeep)
    ensures Unary(max, ts, pos, depth) ==
            if Fits(max, Group(b), depth) then Parsed(Group(b), pos + |Text(Group(b))|, depth) else Failed(TooDeep)
  {
    hide Expression;
  }

  lemma UnaryMinus(max: nat, a: Phrase, ts: Tokens, pos: nat, depth: nat)
    requires pos + 1 + |Text(a)| <= |ts| && Peek(ts, pos) == Minus
    requires Expression(max, ts, pos + 1, depth, 7) ==
             if depth + 1 <= max && Fits(max, a, depth + 1) then Parsed(a, pos + 1 + |Text(a)|, depth)
               else Failed(TooDeep)
    ensures Unary(max, ts, pos, depth) ==
            if Fits(max, Minused(a), depth) then Parsed(Minused(a), pos + |Text(Minused(a))|, depth)
              else Failed(TooDeep)
  {
    hide Expression;
  }

  /** An expression is found whole when its level is high enough and what follows is looser than the limit. */
  lemma {:induction false} ExpressionFinds(max: nat, c: Phrase, ts: Tokens, pos: nat, depth: nat, limit: nat)
    requires Stands(c, ts, pos) && limit <= Level(c)
    requires !Continues(Peek(ts, pos + |Text(c)|), limit)
    ensures pos <= |ts|
    ensures Expression(max, ts, pos, depth, limit) ==
            if depth + 1 <= max && Fits(max, c, depth + 1) then Parsed(c, pos + |Text(c)|, depth) else Failed(TooDeep)
    decreases c, 2
  {
    hide *;
    StandingEnds(c, ts, pos);
    if depth + 1 <= max {
      ClimbFinds(max, c, ts, pos, depth + 1, limit);
      ClimbStops(max, ts, c, pos + |Text(c)|, depth + 1 + Operators(c), limit);
    }
    ExpressionUnfolds(max, ts, pos, depth, limit);
  }

  lemma StandingEnds(c: Phrase, ts: Tokens, pos: nat)
    requires Stands(c, ts, pos)
    ensures pos + |Text(c)| <= |ts|
  {}

  lemma ExpressionUnfolds(max: nat, ts: Tokens, pos: nat, depth: nat, limit: nat)
    requires pos <= |ts|
    ensures depth + 1 > max ==> Expression(max, ts, pos, depth, limit) == Failed(TooDeep)
    ensures depth + 1 <= max ==>
              var r := Climbed(max, ts, Unary(max, ts, pos, depth + 1), limit);
              Expression(max, ts, pos, depth, limit) == if r.Parsed? then Parsed(r.phrase, r.pos, depth) else r
  {
    hide Climbed, Unary;
  }

  lemma ClimbStops(max: nat, ts: Tokens, lhs: Phrase, pos: nat, depth: nat, limit: nat)
    requires pos <= |ts| && !Continues(Peek(ts, pos), limit)
    ensures Climb(max, ts, lhs, pos, depth, limit) == Parsed(lhs, pos, depth)
  {}

  /** The climber, started behind the first operand of a phrase, comes to the state where the phrase is its left
      operand. */
  lemma {:induction false} ClimbFinds(max: nat, c: Phrase, ts: Tokens, pos: nat, depth: nat, limit: nat)
    requires Stands(c, ts, pos) && limit <= Level(c)
    ensures pos + |Text(c)| <= |ts|
    ensures Climbed(max, ts, Unary(max, ts, pos, depth), limit) ==
            if Fits(max, c, depth) then Climb(max, ts, c, pos + |Text(c)|, depth + Operators(c), limit)
              else Failed(TooDeep)
    decreases c, 1
  {
    hide *;
    if c.Infix? {
      InfixStands(c, ts, pos);
      InfixShape(c, ts, pos);
      FitsInfix(max, c, depth);
      ClimbFinds(max, c.left, ts, pos, depth, limit);
      if Fits(max, c.left, depth) {
        OneOperator(max, c, ts, pos, depth, limit);
      }
    } else {
      UnaryFinds(max, c, ts, pos, depth);
      ClimbOperand(max, c, ts, pos, depth, limit);
    }
  }

  lemma ClimbOperand(max: nat, c: Phrase, ts: Tokens, pos: nat, depth: nat, limit: nat)
    requires !c.Infix? && pos + |Text(c)| <= |ts|
    requires Unary(max, ts, pos, depth) == if Fits(max, c, depth) then Parsed(c, pos + |Text(c)|, depth)
      else Failed(TooDeep)
    ensures Climbed(max, ts, Unary(max, ts, pos, depth), limit) ==
            if Fits(max, c, depth) then Climb(max, ts, c, pos + |Text(c)|, depth + Operators(c), limit)
              else Failed(TooDeep)
  {
    hide Unary, Climb, Fits, Text;
  }

  /** One turn of the climber's loop at an operator */
  lemma ClimbTurns(max: nat, ts: Tokens, lhs: Phrase, op: Op, pos: nat, depth: nat, limit: nat)
    requires pos < |ts| && Peek(ts, pos) == Spelling(op) && limit <= Precedence(op)
    ensures depth + 1 > max ==> Climb(max, ts, lhs, pos, depth, limit) == Failed(TooDeep)
    ensures depth + 1 <= max ==>
              var rhs := Absorbed(max, ts, Unary(max, ts, pos + 1, depth + 1), Precedence(op));
              && (rhs.Failed? ==> Climb(max, ts, lhs, pos, depth, limit) == rhs)
              && (rhs.Parsed? && (op == Union ==> IsSet(Stripped(lhs)) && IsSet(Stripped(rhs.phrase))) ==>
                    Climb(max, ts, lhs, pos, depth, limit)
                      == Climb(max, ts, Infix(op, lhs, rhs.phrase), rhs.pos, rhs.depth, limit))
  {
    assert BinaryOp(Spelling(op)) == Some(op);
    assert Rank(Spelling(op)) == Precedence(op);
  }

  lemma AbsorbStops(max: nat, ts: Tokens, rhs: Phrase, pos: nat, depth: nat, rank: nat)
    requires pos <= |ts| && Rank(Peek(ts, pos)) <= rank
    ensures Absorb(max, ts, rhs, pos, depth, rank) == Parsed(rhs, pos, depth)
  {}

  lemma FitsInfix(max: nat, c: Phrase, depth: nat)
    requires c.Infix?
    ensures Operators(c) == Operators(c.left) + 1 + Operators(c.right)
    ensures Fits(max, c, depth) <==>
            && Fits(max, c.left, depth)
            && depth + Operators(c.left) + 1 <= max
            && Fits(max, c.right, depth + Operators(c.left) + 1)
  {}

  /** What a standing infix phrase says of its operator and its right operand */
  lemma InfixShape(c: Phrase, ts: Tokens, pos: nat)
    requires c.Infix? && Stands(c, ts, pos)
    ensures Precedence(c.op) < Level(c.right) && Precedence(c.op) <= Level(c.left) && Level(c) == Precedence(c.op)
    ensures c.op == Union ==> IsSet(Stripped(c.left)) && IsSet(Stripped(c.right))
    ensures pos + |Text(c)| <= |ts|
    ensures Rank(Peek(ts, pos + |Text(c)|)) <= Precedence(c.op)
  {}

  /** One turn of the climber's loop takes the operator and the whole right operand. */
  lemma {:induction false} OneOperator(max: nat, c: Phrase, ts: Tokens, pos: nat, depth: nat, limit: nat)
    requires c.Infix? && Stands(c, ts, pos) && limit <= Level(c) && Fits(max, c.left, depth)
    ensures pos + |Text(c)| <= |ts|
    ensures Climb(max, ts, c.left, pos + |Text(c.left)|, depth + Operators(c.left), limit) ==
            if Fits(max, c, depth) then Climb(max, ts, c, pos + |Text(c)|, depth + Operators(c), limit)
              else Failed(TooDeep)
    decreases c, 0
  {
    hide *;
    InfixStands(c, ts, pos);
    InfixShape(c, ts, pos);
    FitsInfix(max, c, depth);
    var at, d := pos + |Text(c.left)| + 1, depth + Operators(c.left) + 1;
    ClimbTurns(max, ts, c.left, c.op, at - 1, d - 1, limit);
    if d <= max {
      AbsorbFinds(max, c.right, ts, at, d, Precedence(c.op));
      AbsorbStops(max, ts, c.right, at + |Text(c.right)|, d + Operators(c.right), Precedence(c.op));
    }
  }

  /** The inner loop, started behind the first operand of a tighter phrase, comes to the state where the phrase is the
      right operand. */
  lemma {:induction false} AbsorbFinds(max: nat, c: Phrase, ts: Tokens, pos: nat, depth: nat, rank: nat)
    requires Stands(c, ts, pos) && rank < Level(c)
    ensures pos + |Text(c)| <= |ts|
    ensures Absorbed(max, ts, Unary(max, ts, pos, depth), rank) ==
            if Fits(max, c, depth) then Absorb(max, ts, c, pos + |Text(c)|, depth + Operators(c), rank)
              else Failed(TooDeep)
    decreases c, 1
  {
    hide *;
    if c.Infix? {
      InfixStands(c, ts, pos);
      InfixShape(c, ts, pos);
      FitsInfix(max, c, depth);
      AbsorbFinds(max, c.left, ts, pos, depth, rank);
      if Fits(max, c.left, depth) {
        var at, d := pos + |Text(c.left)|, depth + Operators(c.left);
        AbsorbTurns(max, ts, c.left, c.op, at, d, rank);
        OneOperator(max, c, ts, pos, depth, Precedence(c.op));
        if Fits(max, c, depth) {
          AbsorbAgain(max, c, ts, pos + |Text(c)|, depth + Operators(c), rank);
        } else {
          AbsorbFails(max, ts, TooDeep, rank);
        }
      }
    } else {
      UnaryFinds(max, c, ts, pos, depth);
      AbsorbOperand(max, c, ts, pos, depth, rank);
    }
  }

  lemma AbsorbOperand(max: nat, c: Phrase, ts: Tokens, pos: nat, depth: nat, rank: nat)
    requires !c.Infix? && pos + |Text(c)| <= |ts|
    requires Unary(max, ts, pos, depth) == if Fits(max, c, depth) then Parsed(c, pos + |Text(c)|, depth)
      else Failed(TooDeep)
    ensures Absorbed(max, ts, Unary(max, ts, pos, depth), rank) ==
            if Fits(max, c, depth) then Absorb(max, ts, c, pos + |Text(c)|, depth + Operators(c), rank)
              else Failed(TooDeep)
  {
    hide Unary, Absorb, Fits, Text;
  }

  lemma AbsorbFails(max: nat, ts: Tokens, e: Error, rank: nat)
    ensures Absorbed(max, ts, Failed(e), rank) == Failed(e)
  {}

  lemma AbsorbTurns(max: nat, ts: Tokens, rhs: Phrase, op: Op, pos: nat, depth: nat, rank: nat)
    requires pos < |ts| && Peek(ts, pos) == Spelling(op) && rank < Precedence(op)
    ensures Absorb(max, ts, rhs, pos, depth, rank)
      == Absorbed(max, ts, Climb(max, ts, rhs, pos, depth, Precedence(op)), rank)
  {
    hide Absorbed, Climb;
    assert BinaryOp(Spelling(op)) == Some(op);
  }

  /** Climbing at a phrase's own precedence first and absorbing then is absorbing at once. */
  lemma AbsorbAgain(max: nat, c: Phrase, ts: Tokens, pos: nat, depth: nat, rank: nat)
    requires c.Infix? && rank < Precedence(c.op) && pos <= |ts| && Rank(Peek(ts, pos)) <= Precedence(c.op)
    ensures Absorbed(max, ts, Climb(max, ts, c, pos, depth, Precedence(c.op)), rank)
      == Absorb(max, ts, c, pos, depth, rank)
  {}

  /** `c` was read from `start` to `pos`, the depth going from `from` to `depth`. */
  predicate Read(max: nat, c: Phrase, ts: Tokens, start: nat, pos: nat, from: nat, depth: nat) {
    && Grammatical(c)
    && At(ts, start, Text(c)) && pos == start + |Text(c)|
    && Fits(max, c, from) && depth == from + Operators(c)
    && Rank(Peek(ts, pos)) <= Cap(c)
  }

  lemma ReadInfix(max: nat, op: Op, l: Phrase, r: Phrase, ts: Tokens, start: nat, at: nat, pos: nat, from: nat,
                  depth: nat, after: nat)
    requires Read(max, l, ts, start, at, from, depth) && depth + 1 <= max
    requires at < |ts| && ts[at] == Spelling(op) && Read(max, r, ts, at + 1, pos, depth + 1, after)
    requires Precedence(op) <= Level(l) && Precedence(op) < Level(r) && Rank(Peek(ts, pos)) <= Precedence(op)
    requires op == Union ==> IsSet(Stripped(l)) && IsSet(Stripped(r))
    ensures Read(max, Infix(op, l, r), ts, start, pos, from, after)
  {
    hide BinaryOp, Rank, Peek, At, Text, Precedence, Spelling;
    JoinedText(op, l, r, ts, start, at);
  }

  lemma JoinedText(op: Op, l: Phrase, r: Phrase, ts: Tokens, start: nat, at: nat)
    requires At(ts, start, Text(l)) && at == start + |Text(l)|
    requires at < |ts| && ts[at] == Spelling(op) && At(ts, at + 1, Text(r))
    ensures At(ts, start, Text(Infix(op, l, r)))
    ensures |Text(Infix(op, l, r))| == |Text(l)| + 1 + |Text(r)|
  {
    hide At, Spelling;
    AtOne(ts, at, Spelling(op));
    AtJoined(ts, at, [Spelling(op)], Text(r));
    AtJoined(ts, start, Text(l), [Spelling(op)] + Text(r));
  }

  /** What the operand parser returns was read. */
  lemma {:induction false} UnarySound(max: nat, ts: Tokens, pos: nat, depth: nat)
    requires pos <= |ts| && Unary(max, ts, pos, depth).Parsed?
    ensures var r := Unary(max, ts, pos, depth);
            Read(max, r.phrase, ts, pos, r.pos, depth, r.depth) && 7 <= Level(r.phrase)
    decreases |ts| - pos, 0
  {
    var t := Peek(ts, pos);
    AtOne(ts, pos, t);
    if t.Open? {
      ExpressionSound(max, ts, pos + 1, depth, 0);
      var inner := Expression(max, ts, pos + 1, depth, 0);
      AtOne(ts, inner.pos, Close);
      AtJoined(ts, pos, [Open], Text(inner.phrase));
      AtJoined(ts, pos, [Open] + Text(inner.phrase), [Close]);
    } else if t.Minus? {
      ExpressionSound(max, ts, pos + 1, depth, 7);
      var inner := Expression(max, ts, pos + 1, depth, 7);
      AtJoined(ts, pos, [Minus], Text(inner.phrase));
    }
  }

  /** What the expression parser returns was read, one level deeper, and the next lexeme would not have continued it. */
  lemma {:induction false} ExpressionSound(max: nat, ts: Tokens, pos: nat, depth: nat, limit: nat)
    requires pos <= |ts| && limit <= 7 && Expression(max, ts, pos, depth, limit).Parsed?
    ensures var r := Expression(max, ts, pos, depth, limit);
            && depth + 1 <= max && r.depth == depth
            && Read(max, r.phrase, ts, pos, r.pos, depth + 1, depth + 1 + Operators(r.phrase))
            && limit <= Level(r.phrase) && !Continues(Peek(ts, r.pos), limit)
    decreases |ts| - pos, 1
  {
    hide *;
    ExpressionUnfolds(max, ts, pos, depth, limit);
    var u := Unary(max, ts, pos, depth + 1);
    ClimbedUnfolds(max, ts, u, limit);
    UnarySound(max, ts, pos, depth + 1);
    ClimbSound(max, ts, u.phrase, pos, u.pos, depth + 1, u.depth, limit);
    ReadDepth(max, Climbed(max, ts, u, limit).phrase, ts, pos, Climbed(max, ts, u, limit).pos, depth + 1,
              Climbed(max, ts, u, limit).depth);
  }

  lemma ReadDepth(max: nat, c: Phrase, ts: Tokens, start: nat, pos: nat, from: nat, depth: nat)
    requires Read(max, c, ts, start, pos, from, depth)
    ensures depth == from + Operators(c)
  {}

  lemma ClimbedUnfolds(max: nat, ts: Tokens, start: Outcome, limit: nat)
    requires start.Parsed? ==> start.pos <= |ts|
    ensures start.Failed? ==> Climbed(max, ts, start, limit) == start
    ensures start.Parsed?
      ==> Climbed(max, ts, start, limit) == Climb(max, ts, start.phrase, start.pos, start.depth, limit)
  {
    hide Climb;
  }

  /** The climber lengthens what was read by phrases of its level and stops where the next lexeme is looser. */
  lemma {:induction false} ClimbSound(max: nat, ts: Tokens, lhs: Phrase, start: nat, pos: nat, from: nat, depth: nat,
                                      limit: nat)
    requires pos <= |ts| && Climb(max, ts, lhs, pos, depth, limit).Parsed?
    requires Read(max, lhs, ts, start, pos, from, depth) && limit <= 7
    ensures var r := Climb(max, ts, lhs, pos, depth, limit);
            && Read(max, r.phrase, ts, start, r.pos, from, r.depth)
            && (r.phrase == lhs || limit <= Level(r.phrase))
            && (7 <= Level(lhs) ==> limit <= Level(r.phrase))
            && !Continues(Peek(ts, r.pos), limit)
    decreases |ts| - pos, 2
  {
    hide *;
    if Continues(Peek(ts, pos), limit) {
      var op, rhs := ClimbGoes(max, ts, lhs, pos, depth, limit);
      RightSound(max, ts, pos + 1, depth + 1, Precedence(op));
      RightIsTighter(op, rhs.phrase);
      LeftIsTight(max, op, lhs, ts, start, pos, from, depth);
      ReadInfix(max, op, lhs, rhs.phrase, ts, start, pos, rhs.pos, from, depth, rhs.depth);
      ClimbSound(max, ts, Infix(op, lhs, rhs.phrase), start, rhs.pos, from, rhs.depth, limit);
    } else {
      ClimbStops(max, ts, lhs, pos, depth, limit);
    }
  }

  /** A turn of the climber that does not fail */
  lemma ClimbGoes(max: nat, ts: Tokens, lhs: Phrase, pos: nat, depth: nat, limit: nat) returns (op: Op, rhs: Outcome)
    requires pos <= |ts| && Climb(max, ts, lhs, pos, depth, limit).Parsed? && Continues(Peek(ts, pos), limit)
    ensures pos < |ts| && ts[pos] == Peek(ts, pos) == Spelling(op) && limit <= Precedence(op) == Rank(Spelling(op))
    ensures rhs == Absorbed(max, ts, Unary(max, ts, pos + 1, depth + 1), Precedence(op)) && rhs.Parsed?
      && depth + 1 <= max
    ensures op == Union ==> IsSet(Stripped(lhs)) && IsSet(Stripped(rhs.phrase))
    ensures rhs.pos <= |ts|
    ensures Climb(max, ts, lhs, pos, depth, limit)
      == Climb(max, ts, Infix(op, lhs, rhs.phrase), rhs.pos, rhs.depth, limit)
    ensures Level(Infix(op, lhs, rhs.phrase)) == Precedence(op)
  {
    hide Absorbed, Unary, Stripped, IsSet;
    op := BinaryOp(Peek(ts, pos)).value;
    rhs := Absorbed(max, ts, Unary(max, ts, pos + 1, depth + 1), Precedence(op));
  }

  lemma RightIsTighter(op: Op, r: Phrase)
    requires Precedence(op) < Level(r) || r.Minused?
    requires op == Union ==> IsSet(Stripped(r))
    ensures Precedence(op) < Level(r)
  {}

  lemma LeftIsTight(max: nat, op: Op, l: Phrase, ts: Tokens, start: nat, pos: nat, from: nat, depth: nat)
    requires Read(max, l, ts, start, pos, from, depth) && Peek(ts, pos) == Spelling(op)
      && Rank(Spelling(op)) == Precedence(op)
    ensures Precedence(op) <= Level(l)
  {
    hide At, Fits, Text, Grammatical;
  }

  /** The right operand of an operator is tighter, unless it is a minus after `|`, and what follows it is not. */
  lemma {:induction false} RightSound(max: nat, ts: Tokens, pos: nat, depth: nat, rank: nat)
    requires pos <= |ts| && 1 <= rank <= 7 && Absorbed(max, ts, Unary(max, ts, pos, depth), rank).Parsed?
    ensures var r := Absorbed(max, ts, Unary(max, ts, pos, depth), rank);
            Read(max, r.phrase, ts, pos, r.pos, depth, r.depth) && (rank < Level(r.phrase) || r.phrase.Minused?)
              && Rank(Peek(ts, r.pos)) <= rank
    decreases |ts| - pos, 3
  {
    UnarySound(max, ts, pos, depth);
    var u := Unary(max, ts, pos, depth);
    AbsorbSound(max, ts, u.phrase, pos, u.pos, depth, u.depth, rank);
  }

  lemma {:induction false} AbsorbSound(max: nat, ts: Tokens, rhs: Phrase, start: nat, pos: nat, from: nat, depth: nat,
                                       rank: nat)
    requires pos <= |ts| && Absorb(max, ts, rhs, pos, depth, rank).Parsed?
    requires Read(max, rhs, ts, start, pos, from, depth) && (rank < Level(rhs) || rhs.Minused?)
    ensures var r := Absorb(max, ts, rhs, pos, depth, rank);
            Read(max, r.phrase, ts, start, r.pos, from, r.depth) && (rank < Level(r.phrase) || r.phrase.Minused?)
              && Rank(Peek(ts, r.pos)) <= rank
    decreases |ts| - pos, 3
  {
    var t := Peek(ts, pos);
    if BinaryOp(t).Some? && rank < Rank(t) {
      ClimbSound(max, ts, rhs, start, pos, from, depth, Rank(t));
      var r := Climb(max, ts, rhs, pos, depth, Rank(t));
      AbsorbSound(max, ts, r.phrase, start, r.pos, from, r.depth, rank);
    }
  }

  /** The parser accepts exactly the token sequences of the grammar that stay within the depth limit, and returns the
      phrase that was written: its grouping, and nothing left over. */
  lemma ParseIsExact(max: nat, ts: Tokens, c: Phrase)
    requires Eof !in ts && max > 0
    ensures Parse(max, ts) == Parsed(c, |ts|, 0) <==> Grammatical(c) && Text(c) == ts && Fits(max, c, 1)
    ensures Parse(max, ts).Parsed? ==> Parse(max, ts).pos == |ts| && Parse(max, ts).depth == 0
    ensures Grammatical(c) && Text(c) == ts && !Fits(max, c, 1) ==> Parse(max, ts) == Failed(TooDeep)
  {
    hide *;
    if Grammatical(c) && Text(c) == ts {
      WholeStands(c, ts);
      ExpressionFinds(max, c, ts, 0, 0, 0);
    }
    if Parse(max, ts).Parsed? {
      ParseUnfolds(max, ts);
      ExpressionSound(max, ts, 0, 0, 0);
      WholeRead(max, ts);
    }
    ParseUnfolds(max, ts);
  }

  lemma WholeStands(c: Phrase, ts: Tokens)
    requires Grammatical(c) && Text(c) == ts
    ensures Stands(c, ts, 0) && Peek(ts, |ts|) == Eof && !Continues(Eof, 0)
  {
    hide Grammatical, Text;
    assert ts[0..0 + |ts|] == ts;
  }

  lemma ParseUnfolds(max: nat, ts: Tokens)
    requires Eof !in ts
    ensures Expression(max, ts, 0, 0, 0).Failed? ==> Parse(max, ts) == Expression(max, ts, 0, 0, 0)
    ensures Expression(max, ts, 0, 0, 0).Parsed? ==>
              Parse(max, ts) == if Expression(max, ts, 0, 0, 0).pos == |ts| then Expression(max, ts, 0, 0, 0)
                else Failed(Leftover)
  {
    hide Expression;
  }

  lemma WholeRead(max: nat, ts: Tokens)
    requires Expression(max, ts, 0, 0, 0).Parsed? && Expression(max, ts, 0, 0, 0).pos == |ts|
    requires var r := Expression(max, ts, 0, 0, 0); Read(max, r.phrase, ts, 0, |ts|, 1, 1 + Operators(r.phrase))
    ensures var c := Expression(max, ts, 0, 0, 0).phrase; Grammatical(c) && Text(c) == ts && Fits(max, c, 1)
  {
    hide Expression, Grammatical, Text, Fits;
  }

  lemma {:induction false} NoEnd(c: Phrase)
    requires Grammatical(c)
    ensures Eof !in Text(c)
  {
    match c
    case Atom(_) =>
    case Group(b) => NoEnd(b);
    case Minused(a) => NoEnd(a);
    case Infix(_, l, r) =>
      NoEnd(l);
      NoEnd(r);
  }

  /** No two phrases of the grammar have the same text: some limit admits one of them, and the parser then finds
      both. */
  lemma {:induction false} GrammarIsUnambiguous(a: Phrase, b: Phrase)
    requires Grammatical(a) && Grammatical(b) && Text(a) == Text(b)
    ensures a == b
  {
    var max := |Text(a)|;
    ShortTextsFit(max, a, 1);
    NoEnd(a);
    ParseIsExact(max, Text(a), a);
    ParseIsExact(max, Text(a), b);
  }

  /** A tree printed with the fewest parentheses parses back to it, unless it is refused as too deep, which happens
      exactly when it does not fit. */
  lemma PrintedTreeParses(max: nat, t: Tree)
    requires Typed(t) && max > 0
    ensures var c := Minimal(t, 0);
            && Stripped(c) == t
            && Parse(max, Text(c)) == if Fits(max, c, 1) then Parsed(c, |Text(c)|, 0) else Failed(TooDeep)
  {
    MinimalIsGrammatical(t, 0);
    NoEnd(Minimal(t, 0));
    ParseIsExact(max, Text(Minimal(t, 0)), Minimal(t, 0));
  }

  /** Queries of up to as many lexemes as the limit says, 1024, are never refused as too deep. */
  lemma {:induction false} ShortTextsFit(max: nat, c: Phrase, depth: nat)
    requires depth + |Text(c)| <= max + 1
    ensures Fits(max, c, depth) && Operators(c) < |Text(c)|
  {
    match c
    case Atom(_) =>
    case Group(b) => ShortTextsFit(max, b, depth + 1);
    case Minused(a) => ShortTextsFit(max, a, depth + 1);
    case Infix(_, l, r) =>
      ShortTextsFit(max, l, depth);
      ShortTextsFit(max, r, depth + Operators(l) + 1);
  }
}
