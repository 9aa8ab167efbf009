/** The productions of section 3 of XPath 1.0 as predicates on a phrase and its text, and that the parser accepts
    exactly what they derive. */
module XPathProductions {
  import opened XPathGrammar
  import opened XPathParser
  import opened XPathPrecedence

  // ----- the productions -----

  predicate OrExpr(c: Phrase, ts: Tokens)
    decreases c, 8
  {
    || AndExpr(c, ts)
    || (c.Infix? && c.op == Or
        && exists i :: 0 <= i < |ts| && OrExpr(c.left, ts[..i]) && ts[i] == Name("or") && AndExpr(c.right, ts[i + 1..]))
  }

  predicate AndExpr(c: Phrase, ts: Tokens)
    decreases c, 7
  {
    || EqualityExpr(c, ts)
    || (c.Infix? && c.op == And
        && exists i ::
          0 <= i < |ts| && AndExpr(c.left, ts[..i]) && ts[i] == Name("and") && EqualityExpr(c.right, ts[i + 1..]))
  }

  predicate EqualityExpr(c: Phrase, ts: Tokens)
    decreases c, 6
  {
    || RelationalExpr(c, ts)
    || (c.Infix? && c.op == Equal
        && exists i ::
          0 <= i < |ts| && EqualityExpr(c.left, ts[..i]) && ts[i] == Equals && RelationalExpr(c.right, ts[i + 1..]))
    || (c.Infix? && c.op == NotEqual
        && exists i ::
          0 <= i < |ts| && EqualityExpr(c.left, ts[..i]) && ts[i] == Differs && RelationalExpr(c.right, ts[i + 1..]))
  }

  predicate RelationalExpr(c: Phrase, ts: Tokens)
    decreases c, 5
  {
    || AdditiveExpr(c, ts)
    || (c.Infix? && c.op == Less
        && exists i ::
          0 <= i < |ts| && RelationalExpr(c.left, ts[..i]) && ts[i] == Below && AdditiveExpr(c.right, ts[i + 1..]))
    || (c.Infix? && c.op == Greater
        && exists i ::
          0 <= i < |ts| && RelationalExpr(c.left, ts[..i]) && ts[i] == Above && AdditiveExpr(c.right, ts[i + 1..]))
    || (c.Infix? && c.op == LessOrEqual
        && exists i ::
          0 <= i < |ts| && RelationalExpr(c.left, ts[..i]) && ts[i] == AtMost && AdditiveExpr(c.right, ts[i + 1..]))
    || (c.Infix? && c.op == GreaterOrEqual
        && exists i ::
          0 <= i < |ts| && RelationalExpr(c.left, ts[..i]) && ts[i] == AtLeast && AdditiveExpr(c.right, ts[i + 1..]))
  }

  predicate AdditiveExpr(c: Phrase, ts: Tokens)
    decreases c, 4
  {
    || MultiplicativeExpr(c, ts)
    || (c.Infix? && c.op == Add
        && exists i ::
          0 <= i < |ts| && AdditiveExpr(c.left, ts[..i]) && ts[i] == Plus && MultiplicativeExpr(c.right, ts[i + 1..]))
    || (c.Infix? && c.op == Subtract
        && exists i ::
          0 <= i < |ts| && AdditiveExpr(c.left, ts[..i]) && ts[i] == Minus && MultiplicativeExpr(c.right, ts[i + 1..]))
  }

  predicate MultiplicativeExpr(c: Phrase, ts: Tokens)
    decreases c, 3
  {
    || UnaryExpr(c, ts)
    || (c.Infix? && c.op == Multiply
        && exists i ::
          0 <= i < |ts| && MultiplicativeExpr(c.left, ts[..i]) && ts[i] == Star && UnaryExpr(c.right, ts[i + 1..]))
    || (c.Infix? && c.op == Divide
        && exists i ::
          0 <= i < |ts| && MultiplicativeExpr(c.left, ts[..i]) && ts[i] == Name("div")
          && UnaryExpr(c.right, ts[i + 1..]))
    || (c.Infix? && c.op == Mod
        && exists i ::
          0 <= i < |ts| && MultiplicativeExpr(c.left, ts[..i]) && ts[i] == Name("mod")
          && UnaryExpr(c.right, ts[i + 1..]))
  }

  predicate UnaryExpr(c: Phrase, ts: Tokens)
    decreases c, 2
  {
    UnionExpr(c, ts) || (c.Minused? && ts != [] && ts[0] == Minus && UnaryExpr(c.arg, ts[1..]))
  }

  /** Only node sets are united, which is checked while parsing. */
  predicate UnionExpr(c: Phrase, ts: Tokens)
    decreases c, 1
  {
    || PathExpr(c, ts)
    || (c.Infix? && c.op == Union && SelectsNodes(c.left) && SelectsNodes(c.right)
        && exists i :: 0 <= i < |ts| && UnionExpr(c.left, ts[..i]) && ts[i] == Bar && PathExpr(c.right, ts[i + 1..]))
  }

  /** An operand, or an expression in parentheses */
  predicate PathExpr(c: Phrase, ts: Tokens)
    decreases c, 0
  {
    match c
    case Atom(o) => ts == [o] && (o.Operand? || o.Name? || o.Star?)
    case Group(b) => |ts| > 1 && ts[0] == Open && OrExpr(b, ts[1..|ts| - 1]) && ts[|ts| - 1] == Close
    case _ => false
  }

  /** Location steps, unions, and operands that are node sets, in any number of parentheses */
  predicate SelectsNodes(c: Phrase) {
    match c
    case Atom(o) => o.Name? || o.Star? || (o.Operand? && o.set_)
    case Group(b) => SelectsNodes(b)
    case Minused(_) => false
    case Infix(op, _, _) => op == Union
  }

  // ----- the same as the grammar by precedence -----

  /** A sentence of the grammar by precedence that is at least as tight as `least` */
  predicate Sentence(c: Phrase, ts: Tokens, least: nat) {
    Grammatical(c) && least <= Level(c) && Text(c) == ts
  }

  lemma InfixSplits(c: Phrase, ts: Tokens)
    requires c.Infix?
    ensures Text(c) == ts <==>
      exists i :: 0 <= i < |ts| && ts[..i] == Text(c.left) && ts[i] == Spelling(c.op) && ts[i + 1..] == Text(c.right)
  {
    hide Spelling;
    var a, b, t := Text(c.left), Text(c.right), Spelling(c.op);
    if Text(c) == ts {
      assert ts[..|a|] == a && ts[|a|] == t && ts[|a| + 1..] == b;
    }
    if i :| 0 <= i < |ts| && ts[..i] == a && ts[i] == t && ts[i + 1..] == b {
      assert ts == ts[..i] + ([ts[i]] + ts[i + 1..]);
    }
  }

  lemma {:induction false} NodesAreSets(c: Phrase)
    ensures SelectsNodes(c) <==> IsSet(Stripped(c))
  {
    match c
    case Group(b) => NodesAreSets(b);
    case _ =>
  }

  /** A phrase is derived from OrExpr if and only if it is a sentence of the grammar by precedence. */
  lemma {:induction false} OrExprIff(c: Phrase, ts: Tokens)
    ensures OrExpr(c, ts) <==> Grammatical(c) && Text(c) == ts
    decreases c, 8
  {
    hide AndExpr, Grammatical, Text, Stripped;
    AndExprIff(c, ts);
    if c.Infix? && c.op == Or {
      forall i | 0 <= i < |ts|
        ensures OrExpr(c.left, ts[..i]) <==> Sentence(c.left, ts[..i], 1)
        ensures AndExpr(c.right, ts[i + 1..]) <==> Sentence(c.right, ts[i + 1..], 2)
      {
        OrExprIff(c.left, ts[..i]);
        AndExprIff(c.right, ts[i + 1..]);
      }
      InfixSplits(c, ts);
      InfixSentence(c);
    }
    SomeLevel(c);
  }

  lemma {:induction false} AndExprIff(c: Phrase, ts: Tokens)
    ensures AndExpr(c, ts) <==> Sentence(c, ts, 2)
    decreases c, 7
  {
    hide EqualityExpr, Grammatical, Text, Stripped;
    EqualityExprIff(c, ts);
    if c.Infix? && c.op == And {
      forall i | 0 <= i < |ts|
        ensures AndExpr(c.left, ts[..i]) <==> Sentence(c.left, ts[..i], 2)
        ensures EqualityExpr(c.right, ts[i + 1..]) <==> Sentence(c.right, ts[i + 1..], 3)
      {
        AndExprIff(c.left, ts[..i]);
        EqualityExprIff(c.right, ts[i + 1..]);
      }
      InfixSplits(c, ts);
      InfixSentence(c);
    }
    SomeLevel(c);
  }

  lemma {:induction false} EqualityExprIff(c: Phrase, ts: Tokens)
    ensures EqualityExpr(c, ts) <==> Sentence(c, ts, 3)
    decreases c, 6
  {
    hide RelationalExpr, Grammatical, Text, Stripped;
    RelationalExprIff(c, ts);
    if c.Infix? && c.op in {Equal, NotEqual} {
      forall i | 0 <= i < |ts|
        ensures EqualityExpr(c.left, ts[..i]) <==> Sentence(c.left, ts[..i], 3)
        ensures RelationalExpr(c.right, ts[i + 1..]) <==> Sentence(c.right, ts[i + 1..], 4)
      {
        EqualityExprIff(c.left, ts[..i]);
        RelationalExprIff(c.right, ts[i + 1..]);
      }
      InfixSplits(c, ts);
      InfixSentence(c);
    }
    SomeLevel(c);
  }

  lemma {:induction false} RelationalExprIff(c: Phrase, ts: Tokens)
    ensures RelationalExpr(c, ts) <==> Sentence(c, ts, 4)
    decreases c, 5
  {
    hide AdditiveExpr, Grammatical, Text, Stripped;
    AdditiveExprIff(c, ts);
    if c.Infix? && c.op in {Less, Greater, LessOrEqual, GreaterOrEqual} {
      forall i | 0 <= i < |ts|
        ensures RelationalExpr(c.left, ts[..i]) <==> Sentence(c.left, ts[..i], 4)
        ensures AdditiveExpr(c.right, ts[i + 1..]) <==> Sentence(c.right, ts[i + 1..], 5)
      {
        RelationalExprIff(c.left, ts[..i]);
        AdditiveExprIff(c.right, ts[i + 1..]);
      }
      InfixSplits(c, ts);
      InfixSentence(c);
    }
    SomeLevel(c);
  }

  lemma {:induction false} AdditiveExprIff(c: Phrase, ts: Tokens)
    ensures AdditiveExpr(c, ts) <==> Sentence(c, ts, 5)
    decreases c, 4
  {
    hide MultiplicativeExpr, Grammatical, Text, Stripped;
    MultiplicativeExprIff(c, ts);
    if c.Infix? && c.op in {Add, Subtract} {
      forall i | 0 <= i < |ts|
        ensures AdditiveExpr(c.left, ts[..i]) <==> Sentence(c.left, ts[..i], 5)
        ensures MultiplicativeExpr(c.right, ts[i + 1..]) <==> Sentence(c.right, ts[i + 1..], 6)
      {
        AdditiveExprIff(c.left, ts[..i]);
        MultiplicativeExprIff(c.right, ts[i + 1..]);
      }
      InfixSplits(c, ts);
      InfixSentence(c);
    }
    SomeLevel(c);
  }

  lemma {:induction false} MultiplicativeExprIff(c: Phrase, ts: Tokens)
    ensures MultiplicativeExpr(c, ts) <==> Sentence(c, ts, 6)
    decreases c, 3
  {
    hide UnaryExpr, Grammatical, Text, Stripped;
    UnaryExprIff(c, ts);
    if c.Infix? && c.op in {Multiply, Divide, Mod} {
      forall i | 0 <= i < |ts|
        ensures MultiplicativeExpr(c.left, ts[..i]) <==> Sentence(c.left, ts[..i], 6)
        ensures UnaryExpr(c.right, ts[i + 1..]) <==> Sentence(c.right, ts[i + 1..], 7)
      {
        MultiplicativeExprIff(c.left, ts[..i]);
        UnaryExprIff(c.right, ts[i + 1..]);
      }
      InfixSplits(c, ts);
      InfixSentence(c);
    }
    SomeLevel(c);
  }

  lemma {:induction false} UnaryExprIff(c: Phrase, ts: Tokens)
    ensures UnaryExpr(c, ts) <==> Sentence(c, ts, 7)
    decreases c, 2
  {
    hide UnionExpr;
    UnionExprIff(c, ts);
    if c.Minused? && ts != [] {
      UnaryExprIff(c.arg, ts[1..]);
      assert ts == [ts[0]] + ts[1..];
    }
  }

  /** Of the phrases that are as tight as a union only a minus is no union expression. */
  lemma {:induction false} UnionExprIff(c: Phrase, ts: Tokens)
    ensures UnionExpr(c, ts) <==> Sentence(c, ts, 7) && !c.Minused?
    decreases c, 1
  {
    hide PathExpr, Grammatical, Text, Stripped;
    PathExprIff(c, ts);
    if c.Infix? && c.op == Union {
      forall i | 0 <= i < |ts|
        ensures UnionExpr(c.left, ts[..i]) <==> Sentence(c.left, ts[..i], 7) && !c.left.Minused?
        ensures PathExpr(c.right, ts[i + 1..]) <==> Sentence(c.right, ts[i + 1..], 8)
      {
        UnionExprIff(c.left, ts[..i]);
        PathExprIff(c.right, ts[i + 1..]);
      }
      InfixSplits(c, ts);
      InfixSentence(c);
      NodesAreSets(c.left);
      NodesAreSets(c.right);
    }
  }

  lemma {:induction false} PathExprIff(c: Phrase, ts: Tokens)
    ensures PathExpr(c, ts) <==> Sentence(c, ts, 8)
    decreases c, 0
  {
    hide OrExpr;
    if c.Group? {
      if |ts| > 1 {
        OrExprIff(c.body, ts[1..|ts| - 1]);
        assert ts == [ts[0]] + ts[1..|ts| - 1] + [ts[|ts| - 1]];
      }
      assert ([Open] + Text(c.body) + [Close])[1..|Text(c.body)| + 1] == Text(c.body);
    }
  }

  lemma InfixSentence(c: Phrase)
    requires c.Infix?
    ensures Grammatical(c)
      <==>
        && Grammatical(c.left) && Grammatical(c.right)
        && Precedence(c.op) <= Level(c.left) && Precedence(c.op) < Level(c.right)
        && (c.op == Union ==> IsSet(Stripped(c.left)) && IsSet(Stripped(c.right)))
  {
  }

  lemma SomeLevel(c: Phrase)
    ensures Level(c) >= 1
  {
  }

  // ----- the parser -----

  /** The parser accepts exactly what OrExpr derives within the depth limit, and groups it as the productions do. */
  lemma ParserAcceptsOrExpr(max: nat, ts: Tokens, c: Phrase)
    requires Eof !in ts && max > 0
    ensures Parse(max, ts) == Parsed(c, |ts|, 0) <==> OrExpr(c, ts) && Fits(max, c, 1)
    ensures OrExpr(c, ts) && !Fits(max, c, 1) ==> Parse(max, ts) == Failed(TooDeep)
    ensures (forall d :: !OrExpr(d, ts)) ==> Parse(max, ts).Failed?
  {
    hide *;
    OrExprIff(c, ts);
    ParseIsExact(max, ts, c);
    var r := Parse(max, ts);
    if r.Parsed? {
      ParseIsExact(max, ts, r.phrase);
      OrExprIff(r.phrase, ts);
    }
  }

  /** No text is derived from OrExpr in two ways. */
  lemma OrExprIsUnambiguous(ts: Tokens, c: Phrase, d: Phrase)
    requires OrExpr(c, ts) && OrExpr(d, ts)
    ensures c == d
  {
    hide *;
    OrExprIff(c, ts);
    OrExprIff(d, ts);
    GrammarIsUnambiguous(c, d);
  }
}
