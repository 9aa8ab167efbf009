/** The evaluator of the XPath engine. It may stop early when only the first node, or only the existence of a node, is
    asked for, and it tags its results with their order; what it returns always answers the question. */
module XPathEval {
  import opened Bytes
  import opened XPathTree
  import opened XPathOrder
  import opened XPathAxes
  import opened XPathWalks
  import opened XPathAst
  import opened XPathMeaning
  import opened XPathPositions
  import opened XPathNodeSet

  /** `nodeset_eval_t` */
  datatype Mode = EvalAll | EvalFirst | EvalAny

  /** `eval_once` */
  predicate EvalOnce(order: SetOrder, mode: Mode) {
    if order == SortedOrder then mode != EvalAll else mode == EvalAny
  }

  /** A result answers a question about the node set `m`: all of it; a part with its first node; or a part that is empty
      only if `m` is. It is always duplicate-free and its tag is true. */
  ghost predicate Answers(f: forest, m: set<XNode>, mode: Mode, ns: NodeSet) {
    && GoodSet(f, ns) && Members(ns.nodes) <= m
    && (mode == EvalAll ==> Members(ns.nodes) == m)
    && (mode == EvalFirst && m != {} ==> exists x :: x in ns.nodes && IsFirst(m, x))
    && (m != {} ==> ns.nodes != [])
  }

  lemma EmptyAnswers(f: forest, m: set<XNode>, mode: Mode, ns: NodeSet)
    requires Answers(f, m, mode, ns)
    ensures ns.nodes == [] <==> m == {}
    ensures mode == EvalAll ==> Members(ns.nodes) == m
  {
    if ns.nodes != [] {
      assert ns.nodes[0] in Members(ns.nodes);
    }
  }

  // ----- predicates, in place -----

  /** The write position of a `remove_if` over `ns[first..]`: `it - first` elements have been tested, those that passed
      stand behind `first`. */
  ghost predicate Sifting(env: Env, e: Expr, ns: seq<XNode>, first: nat, nodes: seq<XNode>, last: nat, it: nat) {
    && first <= last <= it <= |ns| && |nodes| == |ns| && nodes[it..] == ns[it..]
    && nodes[..last] == ns[..first] + Kept(env, e, ns[first..], it - first)
  }

  lemma SiftStart(env: Env, e: Expr, ns: seq<XNode>, first: nat)
    requires first <= |ns|
    ensures Sifting(env, e, ns, first, ns, first, first)
  {
    assert ns[..first] + [] == ns[..first];
  }

  lemma SiftStep(env: Env, e: Expr, ns: seq<XNode>, first: nat, nodes: seq<XNode>, last: nat, it: nat)
    requires Sifting(env, e, ns, first, nodes, last, it) && it < |ns|
    ensures nodes[it] == ns[it]
    ensures var c := Context(ns[it], it - first + 1, |ns| - first);
      if Holds(env, e, c) then
        && Sifting(env, e, ns, first, nodes[last := nodes[it]], last + 1, it + 1)
        && Kept(env, e, ns[first..], it + 1 - first) == Kept(env, e, ns[first..], it - first) + [ns[it]]
      else
        && Sifting(env, e, ns, first, nodes, last, it + 1)
        && Kept(env, e, ns[first..], it + 1 - first) == Kept(env, e, ns[first..], it - first)
  {
    hide Holds;
    var list, n := ns[first..], it - first;
    assert nodes[it] == nodes[it..][0] == ns[it..][0];
    assert list[n] == ns[it] && |list| == |ns| - first;
    assert nodes[it + 1..] == nodes[it..][1..] == ns[it + 1..];
    assert Kept(env, e, list, n + 1)
      == Kept(env, e, list, n) + (if Holds(env, e, Context(list[n], n + 1, |list|)) then [list[n]] else []);
    var after := nodes[last := nodes[it]];
    assert after[..last + 1] == nodes[..last] + [ns[it]];
    assert after[it + 1..] == nodes[it + 1..];
    assert ns[..first] + (Kept(env, e, list, n) + [ns[it]]) == ns[..first] + Kept(env, e, list, n) + [ns[it]];
    assert Kept(env, e, list, n) + [] == Kept(env, e, list, n);
  }

  lemma {:induction false} KeptPrefix(env: Env, e: Expr, s: seq<XNode>, m: nat, n: nat)
    requires m <= n <= |s|
    ensures Kept(env, e, s, m) <= Kept(env, e, s, n)
    decreases n
  {
    hide Holds;
    if m < n {
      KeptPrefix(env, e, s, m, n - 1);
    }
  }

  /** What is left when the loop ends or breaks. */
  lemma SiftEnd(env: Env, e: Expr, ns: seq<XNode>, first: nat, nodes: seq<XNode>, last: nat, it: nat, once: bool)
    requires Sifting(env, e, ns, first, nodes, last, it)
    requires var kept := Kept(env, e, ns[first..], it - first);
      (it == |ns| && (once ==> kept == [])) || (once && |kept| == 1)
    ensures nodes[..last] == ns[..first] + Take(once, Kept(env, e, ns[first..], |ns| - first))
  {
    hide Kept;
    KeptPrefix(env, e, ns[first..], it - first, |ns| - first);
  }

  /** A constant predicate has one value at every node and position. */
  lemma ConstantValue(env: Env, e: Expr, c: Context, d: Context)
    requires e.Number? || e.ScalarVariable? || e.Last?
    requires c.size == d.size
    ensures Val(env, e, c) == Val(env, e, d)
  {
  }

  /** It keeps the node at the place it names, if there is one. */
  lemma {:induction false} KeptConstant(env: Env, e: Expr, s: seq<XNode>, n: nat, v: Value)
    requires n <= |s| && TypeOf(e) == NumberType && (e.Number? || e.ScalarVariable? || e.Last?)
    requires s != [] ==> v == Val(env, e, Context(s[0], 1, |s|))
    ensures Kept(env, e, s, n)
      == if v.Num? && 1.0 <= v.number <= n as real && v.number == v.number.Floor as real then [s[v.number.Floor - 1]]
        else []
    decreases n
  {
    if n > 0 {
      KeptConstant(env, e, s, n - 1, v);
      ConstantHolds(env, e, s, n, v);
      hide Holds, Val;
      if v.Num? {
        FloorOf(v.number, n);
      }
    }
  }

  lemma ConstantHolds(env: Env, e: Expr, s: seq<XNode>, n: nat, v: Value)
    requires 0 < n <= |s| && TypeOf(e) == NumberType && (e.Number? || e.ScalarVariable? || e.Last?)
    requires v == Val(env, e, Context(s[0], 1, |s|))
    ensures Holds(env, e, Context(s[n - 1], n, |s|)) <==> v.Num? && v.number == n as real
  {
    ConstantValue(env, e, Context(s[n - 1], n, |s|), Context(s[0], 1, |s|));
  }

  /** A whole number up to `n` is `n` or a whole number up to `n - 1`. */
  lemma FloorOf(x: real, n: nat)
    requires n > 0
    ensures x == n as real ==> x.Floor == n
    ensures x == x.Floor as real && x <= n as real && x != n as real ==> x <= (n - 1) as real
  {
    var k := x.Floor;
    RealOrder(k, n);
    if x == n as real {
      assert (n as real).Floor == n;
    }
  }

  lemma RealOrder(k: int, n: int)
    ensures k as real <= n as real && k as real != n as real ==> k as real <= (n - 1) as real
  {
    if k as real <= n as real && k as real != n as real {
      assert k < n;
      assert (n - 1) as real - k as real == (n - 1 - k) as real;
    }
  }

  // ----- evaluation -----

  /** `apply_predicate_boolean` */
  method ApplyPredicateBoolean(env: Env, e: Expr, ns: seq<XNode>, first: nat, once: bool) returns (r: seq<XNode>)
    requires GoodEnv(env) && WellTyped(e) && WellTagged(e) && InDocs(env.docs, ns) && first <= |ns|
    requires TypeOf(e) != NumberType
    ensures r == ns[..first] + Take(once, Kept(env, e, ns[first..], |ns| - first))
    decreases e, 3
  {
    hide GoodEnv, WellTyped, WellTagged, Sifting, Kept, Holds;
    var nodes, last, it, size := ns, first, first, |ns| - first;
    SiftStart(env, e, ns, first);
    NothingKept(env, e, ns[first..]);
    while it < |ns|
      invariant first <= last <= it <= |ns| && Sifting(env, e, ns, first, nodes, last, it)
      invariant last <= |nodes| && (once ==> Kept(env, e, ns[first..], it - first) == [])
    {
      SiftStep(env, e, ns, first, nodes, last, it);
      SiftBounds(env, e, ns, first, nodes, last, it);
      assert ns[it] in ns;
      var b := EvalBoolean(env, e, Context(nodes[it], it - first + 1, size));
      it := it + 1;
      if b {
        nodes := nodes[last := nodes[it - 1]];
        last := last + 1;
        if once { break; }
      }
    }
    SiftEnd(env, e, ns, first, nodes, last, it, once);
    SiftBounds(env, e, ns, first, nodes, last, it);
    r := nodes[..last];
  }

  lemma NothingKept(env: Env, e: Expr, s: seq<XNode>)
    ensures Kept(env, e, s, 0) == []
  {
  }

  lemma SiftBounds(env: Env, e: Expr, ns: seq<XNode>, first: nat, nodes: seq<XNode>, last: nat, it: nat)
    requires Sifting(env, e, ns, first, nodes, last, it)
    ensures first <= last <= it <= |ns| == |nodes|
  {
  }

  /** `apply_predicate_number` */
  method ApplyPredicateNumber(env: Env, e: Expr, ns: seq<XNode>, first: nat, once: bool) returns (r: seq<XNode>)
    requires GoodEnv(env) && WellTyped(e) && WellTagged(e) && InDocs(env.docs, ns) && first <= |ns|
    requires TypeOf(e) == NumberType
    ensures r == ns[..first] + Take(once, Kept(env, e, ns[first..], |ns| - first))
    decreases e, 3
  {
    hide GoodEnv, WellTyped, WellTagged, Sifting, Kept, Val;
    var nodes, last, it, size := ns, first, first, |ns| - first;
    SiftStart(env, e, ns, first);
    NothingKept(env, e, ns[first..]);
    while it < |ns|
      invariant first <= last <= it <= |ns| && Sifting(env, e, ns, first, nodes, last, it)
      invariant last <= |nodes| && (once ==> Kept(env, e, ns[first..], it - first) == [])
    {
      SiftStep(env, e, ns, first, nodes, last, it);
      SiftBounds(env, e, ns, first, nodes, last, it);
      assert ns[it] in ns;
      var i := it - first + 1;
      var v := EvalScalar(env, e, Context(nodes[it], i, size));
      it := it + 1;
      if NumbersEqual(v, Num(i as real)) {
        nodes := nodes[last := nodes[it - 1]];
        last := last + 1;
        if once { break; }
      }
    }
    SiftEnd(env, e, ns, first, nodes, last, it, once);
    SiftBounds(env, e, ns, first, nodes, last, it);
    r := nodes[..last];
  }

  /** `apply_predicate_number_const`: one evaluation and one look. */
  method ApplyPredicateNumberConst(env: Env, e: Expr, ns: seq<XNode>, first: nat) returns (r: seq<XNode>)
    requires GoodEnv(env) && WellTyped(e) && WellTagged(e) && InDocs(env.docs, ns) && first < |ns|
    requires TypeOf(e) == NumberType && (e.Number? || e.ScalarVariable? || e.Last?)
    ensures r == ns[..first] + Kept(env, e, ns[first..], |ns| - first)
    decreases e, 3
  {
    hide GoodEnv, Kept;
    var size := |ns| - first;
    assert ns[first] in ns;
    var er := EvalScalar(env, e, Context(ns[first], 1, size));
    KeptConstant(env, e, ns[first..], size, er);
    var nodes, last := ns, first;
    if er.Num? && 1.0 <= er.number <= size as real {
      var eri := er.number.Floor;
      if er.number == eri as real {
        nodes := nodes[last := nodes[first + eri - 1]];
        last := last + 1;
      }
    }
    r := nodes[..last];
  }

  /** `apply_predicate` */
  method ApplyPredicate(env: Env, p: Pred, ns: seq<XNode>, first: nat, once: bool) returns (r: seq<XNode>)
    requires GoodEnv(env) && WellTyped(p.expr) && WellTagged(p.expr) && TagOk(p) && InDocs(env.docs, ns)
      && first <= |ns|
    ensures r == ns[..first] + KeptOne(env, p, ns[first..])
      || (once && r == ns[..first] + Take(true, KeptOne(env, p, ns[first..])))
    ensures InDocs(env.docs, r) && first <= |r| && r[..first] == ns[..first]
    decreases p
  {
    hide GoodEnv, Kept, WellTyped, WellTagged;
    KeptSubset(env, p.expr, ns[first..], |ns| - first);
    if |ns| == first {
      NothingKept(env, p.expr, ns[first..]);
      r := ns;
    } else if p.tag == Constant || p.tag == ConstantOne {
      r := ApplyPredicateNumberConst(env, p.expr, ns, first);
    } else if TypeOf(p.expr) == NumberType {
      r := ApplyPredicateNumber(env, p.expr, ns, first, once);
    } else {
      r := ApplyPredicateBoolean(env, p.expr, ns, first, once);
    }
    ghost var list := ns[first..];
    assert list[..|list|] == list;
    forall x | x in r ensures x.In(env.docs) {
      assert x in ns[..first] || x in list;
      assert x in ns;
    }
  }

  /** `eval_boolean` */
  method EvalBoolean(env: Env, e: Expr, c: Context) returns (b: bool)
    requires GoodEnv(env) && c.n.In(env.docs) && WellTyped(e) && WellTagged(e) && TypeOf(e) != NumberType
    ensures b <==> Holds(env, e, c)
    decreases e, 2
  {
    if IsSet(e) {
      var ns := EvalNodeSet(env, e, c, EvalAny);
      EmptyAnswers(env.docs, Meaning(env, e, c), EvalAny, ns);
      b := ns.nodes != [];
    } else {
      var v := EvalScalar(env, e, c);
      b := ToBool(v);
    }
  }

  /** The value of a scalar expression. */
  method EvalScalar(env: Env, e: Expr, c: Context) returns (v: Value)
    requires GoodEnv(env) && c.n.In(env.docs) && WellTyped(e) && WellTagged(e) && !IsSet(e)
    ensures v == Val(env, e, c)
    decreases e, 0
  {
    hide GoodEnv;
    match e
    case Position => v := Num(c.position as real);
    case Last => v := Num(c.size as real);
    case Number(x) => v := Num(x);
    case Text(t) => v := Str(t);
    case ScalarVariable(name, _) => v := env.scalars(name);
    case Equal(l, r) =>
      var a := EvalArgument(env, AsSet, l, c);
      var b := EvalArgument(env, AsSet, r, c);
      if TypeOf(l) == NumberType && TypeOf(r) == NumberType {
        v := Bool(NumbersEqual(a, b));
      } else {
        v := env.apply(0, [a, b], c.n);
      }
    case Op(op, _, args) =>
      var values := EvalArguments(env, args, c);
      v := env.apply(op + 1, values, c.n);
    case _ =>
  }

  method EvalArguments(env: Env, args: seq<Arg>, c: Context) returns (values: seq<Value>)
    requires GoodEnv(env) && c.n.In(env.docs) && forall a :: a in args ==> WellTyped(a.expr) && WellTagged(a.expr)
    ensures values == Arguments(env, args, |args|, c)
    decreases args
  {
    hide GoodEnv, WellTyped, WellTagged, Argument;
    values := [];
    for k := 0 to |args|
      invariant values == Arguments(env, args, k, c)
    {
      assert args[k] in args;
      var v := EvalArg(env, args[k], c);
      values := values + [v];
    }
  }

  method EvalArg(env: Env, a: Arg, c: Context) returns (v: Value)
    requires GoodEnv(env) && c.n.In(env.docs) && WellTyped(a.expr) && WellTagged(a.expr)
    ensures v == ArgumentOf(env, a, c)
    decreases a
  {
    v := EvalArgument(env, a.use, a.expr, c);
  }

  /** One argument, asking no more of a node set than the operation needs. */
  method EvalArgument(env: Env, use: Use, e: Expr, c: Context) returns (v: Value)
    requires GoodEnv(env) && c.n.In(env.docs) && WellTyped(e) && WellTagged(e)
    ensures v == Argument(env, use, e, c)
    decreases e, 2
  {
    hide GoodEnv, WellTyped, WellTagged, Faithful, InDocs, WeaklyTrue;
    if !IsSet(e) {
      v := EvalScalar(env, e, c);
      return;
    }
    match use
    case AsBoolean =>
      var ns := EvalNodeSet(env, e, c, EvalAny);
      EmptyAnswers(env.docs, Meaning(env, e, c), EvalAny, ns);
      v := Bool(ns.nodes != []);
    case AsFirst =>
      var ns := EvalNodeSet(env, e, c, EvalFirst);
      AnswersOrdered(env, Meaning(env, e, c), EvalFirst, ns);
      var node := FirstNode(env.docs, env.layout, ns);
      FirstAnswers(env.docs, Meaning(env, e, c), ns, node);
      v := First(node);
    case AsSet =>
      var ns := EvalNodeSet(env, e, c, EvalAll);
      EmptyAnswers(env.docs, Meaning(env, e, c), EvalAll, ns);
      v := Nodes(Members(ns.nodes));
  }

  /** The comparator may be used on an answer. */
  lemma AnswersOrdered(env: Env, m: set<XNode>, mode: Mode, ns: NodeSet)
    requires GoodEnv(env) && Answers(env.docs, m, mode, ns)
    ensures Faithful(env.docs, env.layout) && InDocs(env.docs, ns.nodes) && WeaklyTrue(ns)
  {
    hide Faithful, InDocs, Truthful, WeaklyTrue;
    TrueWeakly(ns);
  }

  /** The first node of an early answer is the first node of the set. */
  lemma FirstAnswers(f: forest, m: set<XNode>, ns: NodeSet, node: Option<XNode>)
    requires Answers(f, m, EvalFirst, ns)
    requires node.None? <==> ns.nodes == []
    requires node.Some? ==> IsFirst(Members(ns.nodes), node.value)
    ensures FirstOf(m) == node
  {
    if m != {} {
      FirstExists(m);
      var x :| x in ns.nodes && IsFirst(m, x);
      var y := FirstOf(m).value;
      FirstIsUnique(m, x, y);
      assert node.value in Members(ns.nodes) && x in Members(ns.nodes);
      BeforeXIsStrictTotal(x, node.value, x);
    }
    EmptyAnswers(f, m, EvalFirst, ns);
  }

  /** `eval_node_set` */
  method EvalNodeSet(env: Env, e: Expr, c: Context, mode: Mode) returns (ns: NodeSet)
    requires GoodEnv(env) && c.n.In(env.docs) && WellTyped(e) && WellTagged(e) && IsSet(e)
    ensures Answers(env.docs, Meaning(env, e, c), mode, ns)
    decreases e, 1
  {
    ns := NodeSet([], Unsorted);
    match e
    case Union(l, r) =>
      var ls := EvalNodeSet(env, l, c, mode);
      var rs := EvalNodeSet(env, r, c, mode);
      var all := ls.nodes + rs.nodes;
      ns := RemoveDuplicates(NodeSet(all, Unsorted), env.pointer);
      SameDocs(env.docs, all, ns.nodes);
      UnionAnswers(env.docs, Meaning(env, l, c), Meaning(env, r, c), mode, ls, rs, ns);
    case Filter(l, p) =>
      ns := EvalFilter(env, l, p, c, mode);
    case Id(_) =>
    case Step(ctx, axis, nodeTest, preds) =>
      ns := StepDo(env, ctx, axis, nodeTest, preds, c, mode);
    case Root =>
      var root := c.n.Home()[..1];
      ns := NodeSet([Elem(root)], SortedOrder);
      PrefixValid(env.docs, c.n.Home(), 1);
      assert root == [c.n.Home()[0]];
      assert IsFirst({Elem(root)}, Elem(root));
    case SetVariable(name) =>
      ns := env.sets(name);
      assert GoodSet(env.docs, ns);
      WholeAnswers(env.docs, Members(ns.nodes), mode, ns);
    case _ =>
  }

  /** All of the set answers every question. */
  lemma WholeAnswers(f: forest, m: set<XNode>, mode: Mode, ns: NodeSet)
    requires GoodSet(f, ns) && Members(ns.nodes) == m
    ensures Answers(f, m, mode, ns)
  {
    hide GoodSet;
    if m != {} {
      FirstExists(m);
      var x :| IsFirst(m, x);
      assert x in Members(ns.nodes);
    }
  }

  lemma UnionAnswers(f: forest, a: set<XNode>, b: set<XNode>, mode: Mode, ls: NodeSet, rs: NodeSet, ns: NodeSet)
    requires Answers(f, a, mode, ls) && Answers(f, b, mode, rs) && GoodSet(f, ns)
    requires Members(ns.nodes) == Members(ls.nodes + rs.nodes)
    ensures Answers(f, a + b, mode, ns)
  {
    hide GoodSet, BeforeX;
    var m := a + b;
    assert Members(ns.nodes) == Members(ls.nodes) + Members(rs.nodes);
    if m != {} {
      FirstExists(m);
      var x :| IsFirst(m, x);
      if mode == EvalFirst {
        if x in a {
          var y :| y in ls.nodes && IsFirst(a, y);
          assert IsFirst(a, x);
          FirstIsUnique(a, x, y);
          assert x in Members(ns.nodes);
        } else {
          var y :| y in rs.nodes && IsFirst(b, y);
          assert IsFirst(b, x);
          FirstIsUnique(b, x, y);
          assert x in Members(ns.nodes);
        }
      }
      if a != {} {
        assert ls.nodes[0] in Members(ns.nodes);
      } else {
        assert rs.nodes[0] in Members(ns.nodes);
      }
    }
  }

  /** `ast_filter` */
  method EvalFilter(env: Env, l: Expr, p: Pred, c: Context, mode: Mode) returns (ns: NodeSet)
    requires GoodEnv(env) && c.n.In(env.docs)
    requires WellTyped(Filter(l, p)) && WellTagged(Filter(l, p))
    ensures Answers(env.docs, Meaning(env, Filter(l, p), c), mode, ns)
    decreases Filter(l, p), 0
  {
    hide GoodEnv, Answers, GoodSet, Meaning, TagOk, Kept, Faithful, InDocs, WeaklyTrue;
    var s := EvalNodeSet(env, l, c, if p.tag == ConstantOne then EvalFirst else EvalAll);
    EmptyAnswers(env.docs, Meaning(env, l, c), if p.tag == ConstantOne then EvalFirst else EvalAll, s);
    AnswersGood(env.docs, Meaning(env, l, c), if p.tag == ConstantOne then EvalFirst else EvalAll, s);
    ghost var given := s;
    if p.tag != Posinv {
      AnswersOrdered(env, Meaning(env, l, c), if p.tag == ConstantOne then EvalFirst else EvalAll, s);
      s := SortDo(env.docs, env.layout, s);
    }
    var once := EvalOnce(s.order, mode);
    GoodInDocs(env.docs, s);
    var nodes := ApplyPredicate(env, p, s.nodes, 0, once);
    assert s.nodes[0..] == s.nodes && s.nodes[..0] == [];
    ns := NodeSet(nodes, s.order);
    FilteredGood(env, p, s, nodes, once);
    if p.tag == ConstantOne {
      FirstOnly(env, l, p, c, given, s, nodes, mode);
    } else if p.tag == Posinv {
      PosinvFilter(env, l, p, c, s, nodes, mode);
    } else {
      SortedFilter(env, l, p, c, s, nodes, mode);
    }
  }

  lemma AnswersGood(f: forest, m: set<XNode>, mode: Mode, ns: NodeSet)
    requires Answers(f, m, mode, ns)
    ensures GoodSet(f, ns) && Members(ns.nodes) <= m
    ensures mode == EvalFirst && m != {} ==> exists x :: x in ns.nodes && IsFirst(m, x)
  {
  }

  lemma GoodInDocs(f: forest, ns: NodeSet)
    requires GoodSet(f, ns)
    ensures InDocs(f, ns.nodes) && Distinct(ns.nodes)
    ensures ns.order == SortedOrder ==> Ordered(false, ns.nodes)
  {
  }

  /** What a predicate leaves, or the first of it. */
  ghost predicate Left(env: Env, p: Pred, s: seq<XNode>, nodes: seq<XNode>, once: bool) {
    nodes == KeptOne(env, p, s) || (once && nodes == Take(true, KeptOne(env, p, s)))
  }

  /** A part of a good set is good. */
  lemma FilteredGood(env: Env, p: Pred, s: NodeSet, nodes: seq<XNode>, once: bool)
    requires GoodSet(env.docs, s) && Left(env, p, s.nodes, nodes, once)
    ensures GoodSet(env.docs, NodeSet(nodes, s.order))
  {
    hide Kept, BeforeX;
    var list := s.nodes;
    KeptSubset(env, p.expr, list, |list|);
    KeptDistinct(env, p.expr, list, |list|);
    assert list[..|list|] == list;
    if s.order == SortedOrder {
      KeptOrdered(env, p.expr, list, |list|, false);
    } else if s.order == SortedReverse {
      KeptOrdered(env, p.expr, list, |list|, true);
    }
  }

  /** The whole of the filtered set in a good list, or the first of it in a list in document order. */
  lemma PartAnswers(f: forest, m: set<XNode>, mode: Mode, whole: seq<XNode>, ns: NodeSet)
    requires GoodSet(f, ns) && Members(whole) == m
    requires ns.nodes == whole
      || (ns.nodes == Take(true, whole) && (mode == EvalAny || (mode == EvalFirst && Ordered(false, whole))))
    ensures Answers(f, m, mode, ns)
  {
    hide GoodSet, BeforeX;
    if m != {} {
      FirstExists(m);
      var x :| IsFirst(m, x);
      assert x in whole;
      if ns.nodes != whole && mode == EvalFirst {
        OrderedFirst(whole, x);
      }
    }
    forall y | y in Members(ns.nodes) ensures y in m {
      assert y in whole;
    }
  }

  lemma OrderedFirst(s: seq<XNode>, x: XNode)
    requires Ordered(false, s) && IsFirst(Members(s), x)
    ensures s != [] && s[0] == x
  {
    var i :| 0 <= i < |s| && s[i] == x;
    assert s[0] in Members(s);
    BeforeXIsStrictTotal(s[0], x, s[0]);
    BeforeXIsStrictTotal(x, s[0], x);
  }

  lemma SortedFilter(env: Env, l: Expr, p: Pred, c: Context, s: NodeSet, nodes: seq<XNode>, mode: Mode)
    requires GoodSet(env.docs, s) && s.order == SortedOrder && Members(s.nodes) == Meaning(env, l, c)
    requires Left(env, p, s.nodes, nodes, EvalOnce(s.order, mode)) && GoodSet(env.docs, NodeSet(nodes, s.order))
    ensures Answers(env.docs, Meaning(env, Filter(l, p), c), mode, NodeSet(nodes, s.order))
  {
    hide GoodSet, Kept, Meaning, BeforeX;
    GoodInDocs(env.docs, s);
    FilterByList(env, l, p, c, s.nodes);
    KeptOrdered(env, p.expr, s.nodes, |s.nodes|, false);
    PartAnswers(env.docs, Meaning(env, Filter(l, p), c), mode, KeptOne(env, p, s.nodes), NodeSet(nodes, s.order));
  }

  /** A positionally invariant predicate may be applied in any order. */
  lemma PosinvMember(env: Env, l: Expr, p: Pred, c: Context, s: seq<XNode>, x: XNode)
    requires WellTyped(p.expr) && IsPosinvExpr(p.expr) && TypeOf(p.expr) != NumberType
      && Members(s) == Meaning(env, l, c)
    ensures x in KeptOne(env, p, s) <==> x in Meaning(env, Filter(l, p), c)
  {
    hide Kept, Holds, Rank, WellTyped, IsPosinvExpr;
    var m := Meaning(env, l, c);
    KeptMember(env, p.expr, s, |s|, x);
    forall i | 0 <= i < |s| && s[i] == x
      ensures Holds(env, p.expr, Context(x, i + 1, |s|)) == Holds(env, p.expr, Context(x, Rank(m, x), |m|))
    {
      ConditionIsInvariant(env, p.expr, Context(x, i + 1, |s|), Context(x, Rank(m, x), |m|));
    }
    assert x in Meaning(env, Filter(l, p), c) <==> x in m && Holds(env, p.expr, Context(x, Rank(m, x), |m|));
    if x in s {
      var i :| 0 <= i < |s| && s[i] == x;
      assert Holds(env, p.expr, Context(s[i], i + 1, |s|)) == Holds(env, p.expr, Context(x, Rank(m, x), |m|));
    }
    assert x in s <==> x in m;
  }

  lemma PosinvFilter(env: Env, l: Expr, p: Pred, c: Context, s: NodeSet, nodes: seq<XNode>, mode: Mode)
    requires WellTyped(p.expr) && TagOk(p) && p.tag == Posinv
    requires GoodSet(env.docs, s) && Members(s.nodes) == Meaning(env, l, c)
    requires Left(env, p, s.nodes, nodes, EvalOnce(s.order, mode)) && GoodSet(env.docs, NodeSet(nodes, s.order))
    ensures Answers(env.docs, Meaning(env, Filter(l, p), c), mode, NodeSet(nodes, s.order))
  {
    hide GoodSet, Kept, Meaning, BeforeX, WellTyped, IsPosinvExpr;
    GoodInDocs(env.docs, s);
    forall x ensures x in KeptOne(env, p, s.nodes) <==> x in Meaning(env, Filter(l, p), c) {
      PosinvMember(env, l, p, c, s.nodes, x);
    }
    if s.order == SortedOrder {
      KeptOrdered(env, p.expr, s.nodes, |s.nodes|, false);
    }
    PartAnswers(env.docs, Meaning(env, Filter(l, p), c), mode, KeptOne(env, p, s.nodes), NodeSet(nodes, s.order));
  }

  /** `[1]` needs no more than the first node of the set it filters. */
  lemma FirstOnly(env: Env, l: Expr, p: Pred, c: Context, given: NodeSet, s: NodeSet, nodes: seq<XNode>, mode: Mode)
    requires TagOk(p) && p.tag == ConstantOne
    requires Members(given.nodes) <= Meaning(env, l, c) && Members(s.nodes) == Members(given.nodes)
    requires Meaning(env, l, c) != {} ==> exists x :: x in given.nodes && IsFirst(Meaning(env, l, c), x)
    requires GoodSet(env.docs, s) && s.order == SortedOrder
    requires Left(env, p, s.nodes, nodes, EvalOnce(s.order, mode)) && GoodSet(env.docs, NodeSet(nodes, s.order))
    ensures Answers(env.docs, Meaning(env, Filter(l, p), c), mode, NodeSet(nodes, s.order))
  {
    hide GoodSet, Kept, BeforeX, Meaning, Rank;
    var m, list := Meaning(env, l, c), s.nodes;
    GoodInDocs(env.docs, s);
    KeptConstant(env, p.expr, list, |list|, Num(1.0));
    assert KeptOne(env, p, list) == Take(true, list);
    if m != {} {
      var x :| x in given.nodes && IsFirst(m, x);
      assert x in Members(given.nodes);
      FirstOfPart(m, list, x);
      OnlyFirst(env, l, p, c, x);
      assert IsFirst({x}, x);
    } else {
      FilterOfNothing(env, l, p, c);
      NoMembers(list);
    }
    assert Members(nodes) == Meaning(env, Filter(l, p), c);
    WholeAnswers(env.docs, Meaning(env, Filter(l, p), c), mode, NodeSet(nodes, s.order));
  }

  lemma NoMembers(s: seq<XNode>)
    ensures Members(s) == {} <==> s == []
  {
    if s != [] {
      assert s[0] in Members(s);
    }
  }

  lemma FirstOfPart(m: set<XNode>, list: seq<XNode>, x: XNode)
    requires Ordered(false, list) && Members(list) <= m && IsFirst(m, x) && x in list
    ensures list != [] && list[0] == x
  {
    hide BeforeX;
    assert IsFirst(Members(list), x);
    OrderedFirst(list, x);
  }

  lemma FilterOfNothing(env: Env, l: Expr, p: Pred, c: Context)
    requires Meaning(env, l, c) == {}
    ensures Meaning(env, Filter(l, p), c) == {}
  {
  }

  lemma OnlyFirst(env: Env, l: Expr, p: Pred, c: Context, x: XNode)
    requires p.expr == Number(1.0) && IsFirst(Meaning(env, l, c), x)
    ensures Meaning(env, Filter(l, p), c) == {x}
  {
    var m := Meaning(env, l, c);
    forall y ensures y in Meaning(env, Filter(l, p), c) <==> y == x {
      if y in m {
        var before := set z | z in m && BeforeX(z, y);
        BeforeXIsStrictTotal(x, y, x);
        BeforeXIsStrictTotal(y, y, y);
        if y == x {
          forall z | z in m ensures !BeforeX(z, x) {
            BeforeXIsStrictTotal(x, z, x);
            BeforeXIsStrictTotal(z, x, z);
          }
          assert before == {};
        } else {
          assert x in before;
        }
      }
    }
  }

  // ----- steps -----

  /** What one context node adds: everything the step selects from it, or the first node only, where that is enough. */
  ghost predicate Contribution(axis: Axis, mode: Mode, whole: seq<XNode>, part: seq<XNode>) {
    part == whole
    || (part == Take(true, whole) && (mode == EvalAny || (mode == EvalFirst && !Reverse(axis))))
  }

  /** `apply_predicates` */
  method ApplyPredicates(env: Env, preds: seq<Pred>, ns: seq<XNode>, first: nat, order: SetOrder, mode: Mode)
    returns (r: seq<XNode>)
    requires GoodEnv(env) && InDocs(env.docs, ns) && first <= |ns| && preds != []
    requires forall p :: p in preds ==> WellTyped(p.expr) && WellTagged(p.expr) && TagOk(p)
    ensures r == ns[..first] + KeptAll(env, preds, |preds|, ns[first..])
      || (EvalOnce(order, mode) && r == ns[..first] + Take(true, KeptAll(env, preds, |preds|, ns[first..])))
    decreases preds, 0
  {
    hide GoodEnv, WellTyped, WellTagged, TagOk, KeptOne;
    ghost var list := ns[first..];
    if |ns| == first {
      NothingKeptAll(env, preds, |preds|);
      assert list == [] && ns[..first] + [] == ns;
      return ns;
    }
    var lastOnce := EvalOnce(order, mode);
    r := ns;
    assert ns == ns[..first] + list;
    for k := 0 to |preds|
      invariant InDocs(env.docs, r) && first <= |r|
      invariant r == ns[..first] + KeptAll(env, preds, k, list)
        || (k == |preds| && lastOnce && r == ns[..first] + Take(true, KeptAll(env, preds, k, list)))
    {
      assert preds[k] in preds;
      ghost var before := KeptAll(env, preds, k, list);
      assert r[first..] == before && r[..first] == ns[..first];
      r := ApplyPredicate(env, preds[k], r, first, k == |preds| - 1 && lastOnce);
    }
  }

  lemma {:induction false} NothingKeptAll(env: Env, preds: seq<Pred>, k: nat)
    requires k <= |preds|
    ensures KeptAll(env, preds, k, []) == []
    decreases k
  {
    if k > 0 {
      NothingKeptAll(env, preds, k - 1);
      NothingKept(env, preds[k - 1].expr, []);
    }
  }

  lemma OneAttribute(env: Env, nodeTest: NodeTest, x: XNode)
    requires GoodEnv(env) && x.In(env.docs) && nodeTest.Name?
    ensures |Enumeration(env.docs, Attribute, nodeTest, x)| <= 1
  {
    hide Enumeration, Ordered;
    var s := Enumeration(env.docs, Attribute, nodeTest, x);
    EnumerationIsExact(env.docs, Attribute, nodeTest, x);
    OrderedDistinct(false, s);
    if |s| > 1 {
      SameName(env, nodeTest, x, s[0], s[1]);
    }
  }

  lemma SameName(env: Env, nodeTest: NodeTest, x: XNode, a: XNode, b: XNode)
    requires GoodEnv(env) && nodeTest.Name?
    requires Selected(env.docs, Attribute, nodeTest, x, a) && Selected(env.docs, Attribute, nodeTest, x, b)
    ensures a == b
  {
    assert a.Attr? && b.Attr? && a.parent == b.parent == x.node;
    var names := Subtree(env.docs, x.node).attributes;
    assert names[a.index] == names[b.index];
  }

  /** The nodes one context node adds to `ns`. */
  method FillOne(env: Env, axis: Axis, nodeTest: NodeTest, preds: seq<Pred>, x: XNode, ns: seq<XNode>, order: SetOrder,
                 once: bool, mode: Mode)
    returns (r: seq<XNode>, ghost part: seq<XNode>)
    requires GoodEnv(env) && x.In(env.docs) && InDocs(env.docs, ns) && axis != Namespace
    requires forall p :: p in preds ==> WellTyped(p.expr) && WellTagged(p.expr) && TagOk(p)
    requires once <==> StepOnce(axis, nodeTest, preds, mode)
    requires order == SortedOrder ==> !Reverse(axis)
    ensures r == ns + part && Contribution(axis, mode, FromOne(env, axis, nodeTest, preds, x), part)
    ensures InDocs(env.docs, r)
    decreases preds, 1
  {
    hide GoodEnv, WellTyped, WellTagged, TagOk, KeptAll, Enumeration;
    var got := StepFill(env.docs, axis, nodeTest, x, once);
    r := ns + got;
    part := got;
    GotInDocs(env, axis, nodeTest, x, once, got);
    if preds != [] {
      assert r[|ns|..] == got && r[..|ns|] == ns;
      r := ApplyPredicates(env, preds, r, |ns|, order, mode);
      part := r[|ns|..];
      assert part == KeptAll(env, preds, |preds|, got)
        || (EvalOnce(order, mode) && part == Take(true, KeptAll(env, preds, |preds|, got)));
      WithPreds(env, axis, nodeTest, preds, x, order, once, mode, got, part);
    } else {
      WithoutPreds(env, axis, nodeTest, x, once, mode, got);
    }
    PartInDocs(env, axis, nodeTest, preds, x, mode, part);
    forall y | y in r ensures y.In(env.docs) {
      assert y in ns || y in part;
    }
  }

  predicate StepOnce(axis: Axis, nodeTest: NodeTest, preds: seq<Pred>, mode: Mode) {
    (axis == Attribute && nodeTest.Name?)
    || (preds == [] && EvalOnce(AxisOrder(axis), mode))
    || (|preds| == 1 && preds[0].tag == ConstantOne)
  }

  function AxisOrder(axis: Axis): SetOrder {
    if Reverse(axis) then SortedReverse else SortedOrder
  }

  lemma GotInDocs(env: Env, axis: Axis, nodeTest: NodeTest, x: XNode, once: bool, got: seq<XNode>)
    requires x.In(env.docs) && got == Take(once, Enumeration(env.docs, axis, nodeTest, x))
    ensures InDocs(env.docs, got)
  {
    hide Enumeration;
    EnumerationIsExact(env.docs, axis, nodeTest, x);
    forall y | y in got ensures y.In(env.docs) {
      assert y in Enumeration(env.docs, axis, nodeTest, x);
    }
  }

  lemma PartInDocs(env: Env, axis: Axis, nodeTest: NodeTest, preds: seq<Pred>, x: XNode, mode: Mode, part: seq<XNode>)
    requires x.In(env.docs) && Contribution(axis, mode, FromOne(env, axis, nodeTest, preds, x), part)
    ensures InDocs(env.docs, part) && Distinct(part) && Ordered(Reverse(axis), part)
    ensures forall m ::
      m in part ==> m in FromOne(env, axis, nodeTest, preds, x) && Selected(env.docs, axis, nodeTest, x, m)
  {
    hide FromOne;
    FromOneProperties(env, axis, nodeTest, preds, x);
  }

  lemma WithoutPreds(env: Env, axis: Axis, nodeTest: NodeTest, x: XNode, once: bool, mode: Mode, got: seq<XNode>)
    requires GoodEnv(env) && x.In(env.docs) && (once <==> StepOnce(axis, nodeTest, [], mode))
    requires got == Take(once, Enumeration(env.docs, axis, nodeTest, x))
    ensures Contribution(axis, mode, FromOne(env, axis, nodeTest, [], x), got)
  {
    hide Enumeration, GoodEnv;
    if axis == Attribute && nodeTest.Name? {
      OneAttribute(env, nodeTest, x);
    }
  }

  lemma WithPreds(env: Env, axis: Axis, nodeTest: NodeTest, preds: seq<Pred>, x: XNode, order: SetOrder, once: bool,
                  mode: Mode, got: seq<XNode>, part: seq<XNode>)
    requires GoodEnv(env) && x.In(env.docs) && (once <==> StepOnce(axis, nodeTest, preds, mode)) && preds != []
    requires forall p :: p in preds ==> TagOk(p)
    requires got == Take(once, Enumeration(env.docs, axis, nodeTest, x))
    requires order == SortedOrder ==> !Reverse(axis)
    requires part == KeptAll(env, preds, |preds|, got)
      || (EvalOnce(order, mode) && part == Take(true, KeptAll(env, preds, |preds|, got)))
    ensures Contribution(axis, mode, FromOne(env, axis, nodeTest, preds, x), part)
  {
    hide Enumeration, GoodEnv, KeptAll;
    var all := Enumeration(env.docs, axis, nodeTest, x);
    if axis == Attribute && nodeTest.Name? {
      OneAttribute(env, nodeTest, x);
      assert got == all;
    } else if once {
      assert preds[0] in preds;
      KeptFirst(env, preds, all);
      KeptFirst(env, preds, got);
      assert part == got;
    }
  }

  lemma KeptFirst(env: Env, preds: seq<Pred>, s: seq<XNode>)
    requires |preds| == 1 && TagOk(preds[0]) && preds[0].tag == ConstantOne
    ensures KeptAll(env, preds, 1, s) == Take(true, s)
  {
    hide Kept;
    KeptConstant(env, preds[0].expr, s, |s|, Num(1.0));
    assert KeptAll(env, preds, 0, s) == s;
  }

  // ----- many context nodes -----

  function Flat(parts: seq<seq<XNode>>): seq<XNode> {
    if parts == [] then [] else Flat(parts[..|parts| - 1]) + parts[|parts| - 1]
  }

  lemma {:induction false} InFlat(parts: seq<seq<XNode>>, x: XNode)
    ensures x in Flat(parts) <==> exists j :: 0 <= j < |parts| && x in parts[j]
    decreases |parts|
  {
    if parts != [] {
      var front, last := parts[..|parts| - 1], parts[|parts| - 1];
      InFlat(front, x);
      if x in last {
        assert x in parts[|parts| - 1];
      }
      if j :| 0 <= j < |front| && x in front[j] {
        assert x in parts[j];
      }
      if j :| 0 <= j < |parts| && x in parts[j] {
        assert j < |front| ==> x in front[j];
      }
    }
  }

  lemma {:induction false} FlatOfLast(parts: seq<seq<XNode>>)
    requires parts != [] && forall j :: 0 <= j < |parts| - 1 ==> parts[j] == []
    ensures Flat(parts) == parts[|parts| - 1]
  {
    FlatOfNone(parts[..|parts| - 1]);
  }

  lemma {:induction false} FlatOfNone(parts: seq<seq<XNode>>)
    ensures Flat(parts) == [] <==> forall j :: 0 <= j < |parts| ==> parts[j] == []
    decreases |parts|
  {
    if parts != [] {
      var front := parts[..|parts| - 1];
      FlatOfNone(front);
      assert forall j :: 0 <= j < |front| ==> front[j] == parts[j];
      if Flat(parts) == [] {
        assert parts[|parts| - 1] == [];
      }
    }
  }

  lemma {:induction false} FlatDistinct(parts: seq<seq<XNode>>)
    requires forall j :: 0 <= j < |parts| ==> Distinct(parts[j])
    requires forall i, j :: 0 <= i < j < |parts| ==> forall x :: x in parts[i] ==> x !in parts[j]
    ensures Distinct(Flat(parts))
    decreases |parts|
  {
    if parts != [] {
      var front, last := parts[..|parts| - 1], parts[|parts| - 1];
      FlatDistinct(front);
      forall x | x in Flat(front) ensures x !in last {
        InFlat(front, x);
        var j :| 0 <= j < |front| && x in front[j];
        assert x in parts[j];
      }
      DistinctJoin(Flat(front), last);
    }
  }

  lemma DistinctJoin(a: seq<XNode>, b: seq<XNode>)
    requires Distinct(a) && Distinct(b) && forall x :: x in a ==> x !in b
    ensures Distinct(a + b)
  {
    var s := a + b;
    forall i, j | 0 <= i < j < |s| ensures s[i] != s[j] {
      if i < |a| <= j {
        assert s[i] in a && s[j] in b;
      }
    }
  }

  /** The contributions of the context nodes `s`, one by one. */
  ghost predicate Collected(env: Env, axis: Axis, nodeTest: NodeTest, preds: seq<Pred>, mode: Mode, s: seq<XNode>,
                            parts: seq<seq<XNode>>)
  {
    |parts| <= |s| && InDocs(env.docs, s)
    && forall j :: 0 <= j < |parts| ==> Contribution(axis, mode, FromOne(env, axis, nodeTest, preds, s[j]), parts[j])
  }

  /** The tag while the contributions are collected. */
  ghost predicate Tagging(axis: Axis, given: SetOrder, parts: seq<seq<XNode>>, order: SetOrder) {
    if axis == Self then order == given
    else order == Unsorted || (order == AxisOrder(axis) && forall j :: 0 <= j < |parts| - 1 ==> parts[j] == [])
  }

  lemma CollectOne(env: Env, axis: Axis, nodeTest: NodeTest, preds: seq<Pred>, mode: Mode, s: seq<XNode>,
                   parts: seq<seq<XNode>>, part: seq<XNode>)
    requires Collected(env, axis, nodeTest, preds, mode, s, parts) && |parts| < |s|
    requires Contribution(axis, mode, FromOne(env, axis, nodeTest, preds, s[|parts|]), part)
    ensures Collected(env, axis, nodeTest, preds, mode, s, parts + [part]) && Flat(parts + [part]) == Flat(parts) + part
  {
    hide Contribution, FromOne;
    assert (parts + [part])[..|parts|] == parts;
  }

  lemma TagOne(axis: Axis, given: SetOrder, parts: seq<seq<XNode>>, order: SetOrder, part: seq<XNode>)
    requires Tagging(axis, given, parts, order) && (axis != Self && Flat(parts) != [] ==> order == Unsorted)
    ensures Tagging(axis, given, parts + [part], order)
  {
    FlatOfNone(parts);
  }

  /** Whatever has been collected answers the question. */
  lemma CollectedMembers(env: Env, axis: Axis, nodeTest: NodeTest, preds: seq<Pred>, mode: Mode, s: seq<XNode>,
                         parts: seq<seq<XNode>>, m: set<XNode>)
    requires Collected(env, axis, nodeTest, preds, mode, s, parts) && |parts| == |s|
    requires forall x :: x in m <==> exists j :: 0 <= j < |s| && x in FromOne(env, axis, nodeTest, preds, s[j])
    ensures forall x :: x in Flat(parts) ==> x in m
    ensures mode == EvalAll ==> forall x :: x in m ==> x in Flat(parts)
    ensures forall x :: IsFirst(m, x) && mode == EvalFirst ==> x in Flat(parts)
    ensures m != {} ==> Flat(parts) != []
  {
    hide FromOne, BeforeX;
    forall x ensures x in Flat(parts) ==> x in m {
      InFlat(parts, x);
      if x in Flat(parts) {
        var j :| 0 <= j < |parts| && x in parts[j];
        PartInDocs(env, axis, nodeTest, preds, s[j], mode, parts[j]);
      }
    }
    forall x | x in m
      ensures (mode == EvalAll ==> x in Flat(parts)) && (IsFirst(m, x) && mode == EvalFirst ==> x in Flat(parts))
      ensures Flat(parts) != []
    {
      var j :| 0 <= j < |s| && x in FromOne(env, axis, nodeTest, preds, s[j]);
      var whole := FromOne(env, axis, nodeTest, preds, s[j]);
      FromOneProperties(env, axis, nodeTest, preds, s[j]);
      InFlat(parts, x);
      FlatOfNone(parts);
      assert parts[j] != [];
      if parts[j] != whole && mode == EvalFirst && IsFirst(m, x) {
        assert Members(whole) <= m;
        FirstOfPart(m, whole, x);
        assert x in parts[j];
      }
    }
  }

  /** On these axes a node is reached from one context node only. */
  lemma ReachedOnce(f: forest, axis: Axis, nodeTest: NodeTest, x: XNode, y: XNode, m: XNode)
    requires axis == Child || axis == Attribute
    requires Selected(f, axis, nodeTest, x, m) && Selected(f, axis, nodeTest, y, m)
    ensures x == y
  {
    hide Passes, Valid;
  }

  lemma DisjointParts(env: Env, axis: Axis, nodeTest: NodeTest, preds: seq<Pred>, mode: Mode, s: seq<XNode>,
                      parts: seq<seq<XNode>>)
    requires Collected(env, axis, nodeTest, preds, mode, s, parts) && Distinct(s)
      && (axis == Child || axis == Attribute)
    ensures Distinct(Flat(parts))
  {
    hide FromOne, Selected;
    forall j | 0 <= j < |parts|
      ensures Distinct(parts[j]) && forall m :: m in parts[j] ==> Selected(env.docs, axis, nodeTest, s[j], m)
    {
      assert s[j] in s;
      PartInDocs(env, axis, nodeTest, preds, s[j], mode, parts[j]);
    }
    forall i, j, x | 0 <= i < j < |parts| && x in parts[i] ensures x !in parts[j] {
      if x in parts[j] {
        ReachedOnce(env.docs, axis, nodeTest, s[i], s[j], x);
      }
    }
    FlatDistinct(parts);
  }

  /** The self axis leaves the nodes in their order. */
  lemma {:induction false} SelfParts(env: Env, nodeTest: NodeTest, preds: seq<Pred>, mode: Mode, s: seq<XNode>,
                                     parts: seq<seq<XNode>>, reverse: bool)
    requires Collected(env, Self, nodeTest, preds, mode, s, parts)
    ensures forall x :: x in Flat(parts) ==> x in s[..|parts|]
    ensures Ordered(reverse, s) ==> Ordered(reverse, Flat(parts))
    ensures Distinct(s) ==> Distinct(Flat(parts))
    decreases |parts|
  {
    hide FromOne, BeforeX, Contribution, Ordered, Distinct;
    if parts != [] {
      var n := |parts| - 1;
      var front, last := parts[..n], parts[n];
      assert Collected(env, Self, nodeTest, preds, mode, s, front);
      SelfParts(env, nodeTest, preds, mode, s, front, reverse);
      assert s[n] in s;
      SelfPart(env, nodeTest, preds, mode, s[n], last);
      SelfStep(s, n, Flat(front), last, reverse);
      assert Flat(parts) == Flat(front) + last;
    } else {
      NothingInOrder(reverse);
    }
  }

  lemma NothingInOrder(reverse: bool)
    ensures Ordered(reverse, []) && Distinct([])
  {}

  /** One more node of the list, or none */
  lemma SelfStep(s: seq<XNode>, n: nat, xs: seq<XNode>, last: seq<XNode>, reverse: bool)
    requires n < |s| && (last == [] || last == [s[n]]) && forall x :: x in xs ==> x in s[..n]
    requires Ordered(reverse, s) ==> Ordered(reverse, xs)
    requires Distinct(s) ==> Distinct(xs)
    ensures forall x :: x in xs + last ==> x in s[..n + 1]
    ensures Ordered(reverse, s) ==> Ordered(reverse, xs + last)
    ensures Distinct(s) ==> Distinct(xs + last)
  {
    hide BeforeX;
    assert s[..n + 1] == s[..n] + [s[n]];
    if last == [] {
      assert xs + last == xs;
    } else {
      if Ordered(reverse, s) {
        BehindAll(s, n, xs, reverse);
        OrderedAppend(reverse, xs, s[n]);
      }
      if Distinct(s) {
        assert s[n] !in s[..n];
      }
    }
  }

  lemma BehindAll(s: seq<XNode>, n: nat, xs: seq<XNode>, reverse: bool)
    requires n < |s| && Ordered(reverse, s) && forall y :: y in xs ==> y in s[..n]
    ensures forall y :: y in xs ==> if reverse then BeforeX(s[n], y) else BeforeX(y, s[n])
  {
    hide BeforeX;
    forall y | y in xs ensures if reverse then BeforeX(s[n], y) else BeforeX(y, s[n]) {
      var i :| 0 <= i < n && s[..n][i] == y;
    }
  }

  lemma SelfPart(env: Env, nodeTest: NodeTest, preds: seq<Pred>, mode: Mode, x: XNode, part: seq<XNode>)
    requires x.In(env.docs) && Contribution(Self, mode, FromOne(env, Self, nodeTest, preds, x), part)
    ensures part == [] || part == [x]
  {
    hide FromOne, Contribution;
    PartInDocs(env, Self, nodeTest, preds, x, mode, part);
    assert forall m :: m in part ==> m == x;
    if |part| > 1 {
      TwoMembers(part, x);
    }
    assert |part| > 0 ==> part[0] in part;
  }

  lemma TwoMembers(s: seq<XNode>, x: XNode)
    requires |s| > 1 && Distinct(s)
    ensures exists y :: y in s && y != x
  {
    assert s[0] in s && s[1] in s && s[0] != s[1];
  }

  /** The tag of the collected nodes is true, and they are duplicate-free wherever duplicates are not removed. */
  lemma CollectedGood(env: Env, axis: Axis, nodeTest: NodeTest, preds: seq<Pred>, mode: Mode, s: NodeSet,
                      parts: seq<seq<XNode>>, order: SetOrder)
    requires Collected(env, axis, nodeTest, preds, mode, s.nodes, parts) && |parts| == |s.nodes| && GoodSet(env.docs, s)
    requires Tagging(axis, s.order, parts, order)
    requires order != Unsorted || axis in {Child, Attribute, Self}
    ensures Truthful(NodeSet(Flat(parts), order)) && Distinct(Flat(parts))
  {
    hide FromOne, BeforeX, Contribution, Flat;
    if axis == Self {
      SelfParts(env, nodeTest, preds, mode, s.nodes, parts, order == SortedReverse);
    } else if order == Unsorted {
      DisjointParts(env, axis, nodeTest, preds, mode, s.nodes, parts);
    } else if parts != [] {
      FlatOfLast(parts);
      var n := |parts| - 1;
      assert s.nodes[n] in s.nodes;
      PartInDocs(env, axis, nodeTest, preds, s.nodes[n], mode, parts[n]);
    } else {
      FlatOfNone(parts);
    }
  }

  lemma CollectedInDocs(env: Env, axis: Axis, nodeTest: NodeTest, preds: seq<Pred>, mode: Mode, s: seq<XNode>,
                        parts: seq<seq<XNode>>)
    requires Collected(env, axis, nodeTest, preds, mode, s, parts)
    ensures InDocs(env.docs, Flat(parts))
  {
    hide FromOne, Contribution;
    forall x | x in Flat(parts) ensures x.In(env.docs) {
      InFlat(parts, x);
      var j :| 0 <= j < |parts| && x in parts[j];
      assert s[j] in s;
      PartInDocs(env, axis, nodeTest, preds, s[j], mode, parts[j]);
    }
  }

  /** The context nodes in turn. */
  method FillAll(env: Env, axis: Axis, nodeTest: NodeTest, preds: seq<Pred>, s: NodeSet, mode: Mode)
    returns (nodes: seq<XNode>, order: SetOrder, ghost parts: seq<seq<XNode>>)
    requires GoodEnv(env) && GoodSet(env.docs, s) && axis != Namespace
    requires forall p :: p in preds ==> WellTyped(p.expr) && WellTagged(p.expr) && TagOk(p)
    ensures Collected(env, axis, nodeTest, preds, mode, s.nodes, parts) && |parts| == |s.nodes|
    ensures nodes == Flat(parts) && Tagging(axis, s.order, parts, order)
    decreases preds, 2
  {
    hide GoodEnv, WellTyped, WellTagged, TagOk, FromOne, Contribution, StepOnce, Flat;
    var once := StepOnce(axis, nodeTest, preds, mode);
    nodes, order, parts := [], if axis == Self then s.order else AxisOrder(axis), [];
    FlatOfNone([]);
    GoodInDocs(env.docs, s);
    for it := 0 to |s.nodes|
      invariant Collected(env, axis, nodeTest, preds, mode, s.nodes, parts) && |parts| == it
      invariant nodes == Flat(parts) && Tagging(axis, s.order, parts, order) && InDocs(env.docs, nodes)
    {
      var size := |nodes|;
      if axis != Self && size != 0 {
        order := Unsorted;
      }
      assert s.nodes[it] in s.nodes;
      ghost var part;
      nodes, part := FillOne(env, axis, nodeTest, preds, s.nodes[it], nodes, order, once, mode);
      CollectOne(env, axis, nodeTest, preds, mode, s.nodes, parts, part);
      TagOne(axis, s.order, parts, order, part);
      parts := parts + [part];
    }
  }

  /** `step_do` */
  method StepDo(env: Env, ctx: Option<Expr>, axis: Axis, nodeTest: NodeTest, preds: seq<Pred>, c: Context, mode: Mode)
    returns (ns: NodeSet)
    requires GoodEnv(env) && c.n.In(env.docs)
    requires WellTyped(Step(ctx, axis, nodeTest, preds)) && WellTagged(Step(ctx, axis, nodeTest, preds))
    ensures Answers(env.docs, Meaning(env, Step(ctx, axis, nodeTest, preds), c), mode, ns)
    decreases Step(ctx, axis, nodeTest, preds), 0
  {
    hide GoodEnv, Answers, GoodSet, Meaning, FromOne, Collected, Tagging;
    var e := Step(ctx, axis, nodeTest, preds);
    if axis == Namespace {
      NoNamespaces(env, e, c);
      ns := NodeSet([], Unsorted);
      NothingAnswers(env.docs, mode);
      return;
    }
    var s := NodeSet([c.n], SortedOrder);
    OneGood(env.docs, c.n);
    if ctx.Some? {
      s := EvalNodeSet(env, ctx.value, c, EvalAll);
      AnswersGood(env.docs, Meaning(env, ctx.value, c), EvalAll, s);
      EmptyAnswers(env.docs, Meaning(env, ctx.value, c), EvalAll, s);
    }
    var nodes, order;
    ghost var parts;
    nodes, order, parts := FillAll(env, axis, nodeTest, preds, s, mode);
    CollectedInDocs(env, axis, nodeTest, preds, mode, s.nodes, parts);
    StepMembers(env, e, c, s.nodes);
    CollectedMembers(env, axis, nodeTest, preds, mode, s.nodes, parts, Meaning(env, e, c));
    if axis != Child && axis != Attribute && axis != Self && order == Unsorted {
      var unique := RemoveDuplicates(NodeSet(nodes, order), env.pointer);
      SameDocs(env.docs, nodes, unique.nodes);
      nodes := unique.nodes;
    } else {
      CollectedGood(env, axis, nodeTest, preds, mode, s, parts, order);
    }
    ns := NodeSet(nodes, order);
    StepAnswers(env.docs, Meaning(env, e, c), mode, Flat(parts), ns);
  }

  lemma NothingAnswers(f: forest, mode: Mode)
    ensures Answers(f, {}, mode, NodeSet([], Unsorted))
  {
  }

  lemma OneGood(f: forest, x: XNode)
    requires x.In(f)
    ensures GoodSet(f, NodeSet([x], SortedOrder))
  {
  }

  lemma NoNamespaces(env: Env, e: Expr, c: Context)
    requires e.Step? && e.axis == Namespace
    ensures Meaning(env, e, c) == {}
  {
    hide FromOne;
    forall m ensures m !in Meaning(env, e, c) {
      InStep(env, e, c, m);
      forall x ensures m !in FromOne(env, Namespace, e.nodeTest, e.preds, x) {
        NothingFromNamespace(env, e.nodeTest, e.preds, x);
      }
    }
  }

  lemma NothingFromNamespace(env: Env, nodeTest: NodeTest, preds: seq<Pred>, x: XNode)
    ensures FromOne(env, Namespace, nodeTest, preds, x) == []
  {
    if x.In(env.docs) {
      var s := FromOne(env, Namespace, nodeTest, preds, x);
      FromOneProperties(env, Namespace, nodeTest, preds, x);
      assert |s| > 0 ==> s[0] in s && Selected(env.docs, Namespace, nodeTest, x, s[0]);
    }
  }

  /** The meaning of a step, by the list of its context nodes. */
  lemma StepMembers(env: Env, e: Expr, c: Context, s: seq<XNode>)
    requires e.Step? && Members(s) == Contexts(env, e.context, c)
    ensures forall x ::
      x in Meaning(env, e, c) <==> exists j :: 0 <= j < |s| && x in FromOne(env, e.axis, e.nodeTest, e.preds, s[j])
  {
    hide FromOne, Meaning, Contexts;
    forall m ensures m in Meaning(env, e, c)
      <==> exists j :: 0 <= j < |s| && m in FromOne(env, e.axis, e.nodeTest, e.preds, s[j])
    {
      InStep(env, e, c, m);
      if x :| x in Contexts(env, e.context, c) && m in FromOne(env, e.axis, e.nodeTest, e.preds, x) {
        assert x in Members(s);
        var j :| 0 <= j < |s| && s[j] == x;
        assert m in FromOne(env, e.axis, e.nodeTest, e.preds, s[j]);
      }
      if j :| 0 <= j < |s| && m in FromOne(env, e.axis, e.nodeTest, e.preds, s[j]) {
        assert s[j] in Members(s);
      }
    }
  }

  lemma StepAnswers(f: forest, m: set<XNode>, mode: Mode, flat: seq<XNode>, ns: NodeSet)
    requires Members(ns.nodes) == Members(flat) && InDocs(f, flat) && Distinct(ns.nodes) && Truthful(ns)
    requires forall x :: x in flat ==> x in m
    requires mode == EvalAll ==> forall x :: x in m ==> x in flat
    requires forall x :: IsFirst(m, x) && mode == EvalFirst ==> x in flat
    requires m != {} ==> flat != []
    ensures Answers(f, m, mode, ns)
  {
    hide BeforeX, Truthful;
    SameDocs(f, flat, ns.nodes);
    NoMembers(flat);
    NoMembers(ns.nodes);
    forall x ensures x in flat <==> x in ns.nodes {
      assert x in flat <==> x in Members(flat);
      assert x in ns.nodes <==> x in Members(ns.nodes);
    }
    if m != {} {
      FirstExists(m);
    }
  }
}
