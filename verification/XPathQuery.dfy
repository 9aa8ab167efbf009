/** Compiled queries: an expression is optimized once and then evaluated in any context. */
module XPathQuery {
  import opened Bytes
  import opened XPathTree
  import opened XPathPositions
  import opened XPathOrder
  import opened XPathAxes
  import opened XPathAst
  import opened XPathMeaning
  import opened XPathOptimize
  import opened XPathNodeSet
  import opened XPathEval

  /** `xpath_query::evaluate_node_set`: exactly the nodes the expression selects, as it was written. */
  method EvaluateNodeSet(env: Env, e: Expr, n: XNode) returns (ns: NodeSet)
    requires GoodEnv(env) && n.In(env.docs) && WellTyped(e) && IsSet(e)
    ensures GoodSet(env.docs, ns) && Members(ns.nodes) == Meaning(env, e, Context(n, 1, 1))
  {
    hide GoodEnv, Answers, GoodSet, WellTyped, WellTagged, Meaning;
    var c := Context(n, 1, 1);
    OptimizedTyping(e);
    OptimizedType(e);
    OptimizePreserves(env, e, c);
    ns := EvalNodeSet(env, Optimize(e), c, EvalAll);
    AnswersGood(env.docs, Meaning(env, e, c), EvalAll, ns);
    EmptyAnswers(env.docs, Meaning(env, e, c), EvalAll, ns);
  }

  /** `xpath_query::evaluate_node`: the first of them in document order, found by the evaluation that may stop early. */
  method EvaluateNode(env: Env, e: Expr, n: XNode) returns (node: Option<XNode>)
    requires GoodEnv(env) && n.In(env.docs) && WellTyped(e) && IsSet(e)
    ensures node == FirstOf(Meaning(env, e, Context(n, 1, 1)))
  {
    hide GoodEnv, Answers, GoodSet, WellTyped, WellTagged, Meaning, Faithful, InDocs, WeaklyTrue;
    var c := Context(n, 1, 1);
    OptimizedTyping(e);
    OptimizedType(e);
    OptimizePreserves(env, e, c);
    var ns := EvalNodeSet(env, Optimize(e), c, EvalFirst);
    AnswersGood(env.docs, Meaning(env, e, c), EvalFirst, ns);
    AnswersOrdered(env, Meaning(env, e, c), EvalFirst, ns);
    node := FirstNode(env.docs, env.layout, ns);
    FirstAnswers(env.docs, Meaning(env, e, c), ns, node);
  }

  /** A query for a scalar: its value is the value of the expression that was written. */
  method EvaluateScalar(env: Env, e: Expr, n: XNode) returns (v: Value)
    requires GoodEnv(env) && n.In(env.docs) && WellTyped(e) && !IsSet(e)
    ensures v == Val(env, e, Context(n, 1, 1))
  {
    hide GoodEnv, WellTyped, WellTagged, Val;
    OptimizedTyping(e);
    OptimizedType(e);
    OptimizePreserves(env, e, Context(n, 1, 1));
    v := EvalScalar(env, Optimize(e), Context(n, 1, 1));
  }

  // ----- why positional steps are not merged -----

  const LEAF := Node(Element, "a", [], [])
  const BRANCH := Node(Element, "b", [], [LEAF])
  /** A document with two branches and a leaf in each. */
  const TWO_BRANCHES := Node(Document, "", [], [BRANCH, BRANCH])

  const DOCS: forest := [TWO_BRANCHES]

  lemma Branch(i: nat)
    requires i < 2
    ensures Valid(DOCS, [0]) && Valid(DOCS, [0, i]) && Valid(DOCS, [0, i, 0])
    ensures Subtree(DOCS, [0, i]) == BRANCH && Subtree(DOCS, [0, i, 0]) == LEAF
  {
    assert [0, i][1..] == [i] && [0, i, 0][1..] == [i, 0] && [i, 0][1..] == [0] && [i][1..] == [] && [0][1..] == [];
    assert TWO_BRANCHES.children[i] == BRANCH && BRANCH.children[0] == LEAF;
    assert Inside(LEAF, []) && Below(LEAF, []) == LEAF;
    assert Inside(BRANCH, [0]) && Below(BRANCH, [0]) == LEAF;
    assert Inside(BRANCH, []) && Below(BRANCH, []) == BRANCH;
    assert Inside(TWO_BRANCHES, [i]) && Below(TWO_BRANCHES, [i]) == BRANCH;
    assert Inside(TWO_BRANCHES, [i, 0]) && Below(TWO_BRANCHES, [i, 0]) == LEAF;
  }

  /** The second leaf is the first leaf of its branch. */
  lemma OnlyLeaf(m: XNode)
    ensures Selected(DOCS, Child, Name("a"), Elem([0, 1]), m) <==> m == Elem([0, 1, 0])
  {
    Branch(1);
    if Selected(DOCS, Child, Name("a"), Elem([0, 1]), m) {
      var q := m.node;
      assert q == [0, 1] + [q[2]];
      ChildValid(DOCS, [0, 1], q[2]);
    }
    assert IsPrefix([0, 1], [0, 1, 0]);
  }

  /** But it is not the first leaf of the document. */
  lemma NotFirstLeaf(s: seq<XNode>)
    requires s == Enumeration(DOCS, Descendant, Name("a"), Elem([0]))
    requires Elem([0]).In(DOCS)
    ensures Elem([0, 1, 0]) !in Take(true, s)
  {
    hide Enumeration;
    Branch(0);
    EnumerationIsExact(DOCS, Descendant, Name("a"), Elem([0]));
    var a, b := Elem([0, 0, 0]), Elem([0, 1, 0]);
    assert IsPrefix([0], [0, 0, 0]);
    assert Selected(DOCS, Descendant, Name("a"), Elem([0]), a);
    assert a in s;
    var i :| 0 <= i < |s| && s[i] == a;
    assert [0, 0, 0][..1] == [0] == [0, 1, 0][..1];
    BeforeAt([0, 0, 0], [0, 1, 0], 1);
    BeforeXIsStrictTotal(s[0], a, s[0]);
    BeforeXIsStrictTotal(a, s[0], a);
  }

  /** `//a[1]` keeps the second leaf, `/descendant::a[1]` does not: the rewrite needs predicates that do not depend on
      the position. */
  lemma PositionalStepsDoNotMerge(env: Env)
    requires env.docs == DOCS
    ensures var first, c := [Pred(Number(1.0), ConstantOne)], Context(Elem([0]), 1, 1);
      && Elem([0, 1, 0]) in Meaning(env, Step(Some(Step(None, DescendantOrSelf, TypeNode, [])), Child, Name("a"),
                                              first), c)
      && Elem([0, 1, 0]) !in Meaning(env, Step(None, Merged(Child), Name("a"), first), c)
  {
    hide FromOne, Meaning;
    var first, c := [Pred(Number(1.0), ConstantOne)], Context(Elem([0]), 1, 1);
    var inner := Step(None, DescendantOrSelf, TypeNode, []);
    var long, short := Step(Some(inner), Child, Name("a"), first), Step(None, Descendant, Name("a"), first);
    var x, y, m := Elem([0]), Elem([0, 1]), Elem([0, 1, 0]);
    Branch(1);
    InStep(env, inner, c, y);
    NoPreds(env, DescendantOrSelf, TypeNode, x, y);
    assert IsPrefix([0], [0, 1]);
    assert y in Meaning(env, inner, c);
    InStep(env, long, c, m);
    FirstOnAxis(env, Child, y);
    EnumerationMember(DOCS, Child, Name("a"), y, m);
    OnlyLeaf(m);
    SoleMember(Enumeration(DOCS, Child, Name("a"), y), m);
    InStep(env, short, c, m);
    FirstOnAxis(env, Descendant, x);
    NotFirstLeaf(Enumeration(DOCS, Descendant, Name("a"), x));
  }

  lemma SoleMember(s: seq<XNode>, m: XNode)
    requires Elem([0, 1]).In(DOCS) && s == Enumeration(DOCS, Child, Name("a"), Elem([0, 1]))
    requires m == Elem([0, 1, 0]) && m in s
    ensures m in Take(true, s)
  {
    hide Enumeration, Selected;
    assert s[0] in s;
    EnumerationMember(DOCS, Child, Name("a"), Elem([0, 1]), s[0]);
    OnlyLeaf(s[0]);
  }

  lemma FirstOnAxis(env: Env, axis: Axis, x: XNode)
    requires x.In(env.docs)
    ensures FromOne(env, axis, Name("a"), [Pred(Number(1.0), ConstantOne)], x)
      == Take(true, Enumeration(env.docs, axis, Name("a"), x))
  {
    hide Enumeration, KeptAll;
    KeptFirst(env, [Pred(Number(1.0), ConstantOne)], Enumeration(env.docs, axis, Name("a"), x));
  }
}
