/** The operator grammar of XPath over whole operands: phrases, which remember where parentheses were written, the trees
    they stand for, and the phrase with the fewest parentheses for a given tree. */
module XPathGrammar {
  import opened Bytes

  /** Lexemes. `Operand` stands for a variable, a literal or a number. A name and `*` are operands or operators
      depending on where they stand. */
  datatype Token =
    | Operand(id: nat, set_: bool)
    | Name(text: bytes)
    | Star | Minus | Plus | Bar
    | Equals | Differs | Below | Above | AtMost | AtLeast
    | Open | Close | Eof

  datatype Op = Or | And | Equal | NotEqual | Less | Greater | LessOrEqual | GreaterOrEqual
              | Add | Subtract | Multiply | Divide | Mod | Union

  datatype Option<T> = None | Some(value: T)

  /** `binary_op_t::parse`: the operator a lexeme is, where an operator may stand */
  function BinaryOp(t: Token): (r: Option<Op>)
    ensures forall op :: r == Some(op) <==> t == Spelling(op)
  {
    match t
    case Name(s) =>
      if s == "or" then Some(Or) else if s == "and" then Some(And)
      else if s == "div" then Some(Divide) else if s == "mod" then Some(Mod) else None
    case Equals => Some(Equal)
    case Differs => Some(NotEqual)
    case Below => Some(Less)
    case Above => Some(Greater)
    case AtMost => Some(LessOrEqual)
    case AtLeast => Some(GreaterOrEqual)
    case Plus => Some(Add)
    case Minus => Some(Subtract)
    case Star => Some(Multiply)
    case Bar => Some(Union)
    case _ => None
  }

  function Spelling(op: Op): Token {
    match op
    case Or => Name("or")
    case And => Name("and")
    case Equal => Equals
    case NotEqual => Differs
    case Less => Below
    case Greater => Above
    case LessOrEqual => AtMost
    case GreaterOrEqual => AtLeast
    case Add => Plus
    case Subtract => Minus
    case Multiply => Star
    case Divide => Name("div")
    case Mod => Name("mod")
    case Union => Bar
  }

  function Precedence(op: Op): (p: nat)
    ensures 1 <= p <= 7
    ensures p == 7 <==> op == Union
  {
    match op
    case Or => 1
    case And => 2
    case Equal | NotEqual => 3
    case Less | Greater | LessOrEqual | GreaterOrEqual => 4
    case Add | Subtract => 5
    case Multiply | Divide | Mod => 6
    case Union => 7
  }

  /** The precedence of a lexeme as an operator, 0 when it is none. */
  function Rank(t: Token): (p: nat)
    ensures p <= 7
  {
    match BinaryOp(t) case Some(op) => Precedence(op) case None => 0
  }

  datatype Tree = Leaf(operand: Token) | Negate(arg: Tree) | Binary(op: Op, left: Tree, right: Tree)

  datatype Phrase =
    | Atom(operand: Token) | Group(body: Phrase) | Minused(arg: Phrase) | Infix(op: Op, left: Phrase, right: Phrase)

  predicate IsOperand(t: Token) {
    t.Operand? || t.Name? || t.Star?
  }

  /** `rettype() == xpath_type_node_set`; a name and `*` are location steps */
  predicate IsSet(t: Tree) {
    match t
    case Leaf(o) => o.Name? || o.Star? || (o.Operand? && o.set_)
    case Negate(_) => false
    case Binary(op, _, _) => op == Union
  }

  /** Trees the parser is allowed to build: only node sets are united. */
  predicate Typed(t: Tree) {
    match t
    case Leaf(o) => IsOperand(o)
    case Negate(a) => Typed(a)
    case Binary(op, l, r) => Typed(l) && Typed(r) && (op == Union ==> IsSet(l) && IsSet(r))
  }

  function Stripped(c: Phrase): Tree {
    match c
    case Atom(o) => Leaf(o)
    case Group(b) => Stripped(b)
    case Minused(a) => Negate(Stripped(a))
    case Infix(op, l, r) => Binary(op, Stripped(l), Stripped(r))
  }

  function Text(c: Phrase): (s: seq<Token>)
    ensures |s| > 0
  {
    match c
    case Atom(o) => [o]
    case Group(b) => [Open] + Text(b) + [Close]
    case Minused(a) => [Minus] + Text(a)
    case Infix(op, l, r) => Text(l) + ([Spelling(op)] + Text(r))
  }

  /** How tightly a phrase holds together: the precedence of its operator, 7 for a minus, 8 for operands and
      parentheses. */
  function Level(c: Phrase): nat {
    match c
    case Atom(_) | Group(_) => 8
    case Minused(_) => 7
    case Infix(op, _, _) => Precedence(op)
  }

  /** The grammar: left operands at least as tight as their operator, right operands tighter, and a minus before union
      expressions and further minuses only. */
  predicate Grammatical(c: Phrase) {
    match c
    case Atom(o) => IsOperand(o)
    case Group(b) => Grammatical(b)
    case Minused(a) => Grammatical(a) && 7 <= Level(a)
    case Infix(op, l, r) =>
      && Grammatical(l) && Grammatical(r)
      && Precedence(op) <= Level(l) && Precedence(op) < Level(r)
      && (op == Union ==> IsSet(Stripped(l)) && IsSet(Stripped(r)))
  }

  /** The loosest operator that may follow a phrase without being drawn into it. */
  function Cap(c: Phrase): nat {
    match c
    case Atom(_) | Group(_) => 7
    case Minused(_) => 6
    case Infix(op, _, _) => Precedence(op)
  }

  /** The phrase for `t` where something of level `least` is wanted, with parentheses only where they are needed. */
  function Minimal(t: Tree, least: nat): (c: Phrase)
    decreases t, 1
  {
    var c := Bare(t);
    if Level(c) < least then Group(c) else c
  }

  function Bare(t: Tree): Phrase
    decreases t, 0
  {
    match t
    case Leaf(o) => Atom(o)
    case Negate(a) => Minused(Minimal(a, 7))
    case Binary(op, l, r) => Infix(op, Minimal(l, Precedence(op)), Minimal(r, Precedence(op) + 1))
  }

  /** The printed phrase is one of the grammar's, and stands for the tree. */
  lemma {:induction false} MinimalIsGrammatical(t: Tree, least: nat)
    requires Typed(t) && least <= 8
    ensures Grammatical(Minimal(t, least)) && least <= Level(Minimal(t, least))
    ensures Stripped(Minimal(t, least)) == t
  {
    match t
    case Leaf(_) =>
    case Negate(a) => MinimalIsGrammatical(a, 7);
    case Binary(op, l, r) =>
      MinimalIsGrammatical(l, Precedence(op));
      MinimalIsGrammatical(r, Precedence(op) + 1);
  }

  /** Every phrase of the grammar for the same tree is at least as long. */
  lemma {:induction false} MinimalIsShortest(c: Phrase, least: nat)
    requires Grammatical(c) && least <= Level(c)
    ensures |Text(Minimal(Stripped(c), least))| <= |Text(c)|
  {
    match c
    case Atom(_) =>
    case Group(b) => MinimalIsShortest(b, 0);
    case Minused(a) => MinimalIsShortest(a, 7);
    case Infix(op, l, r) =>
      MinimalIsShortest(l, Precedence(op));
      MinimalIsShortest(r, Precedence(op) + 1);
  }
}
