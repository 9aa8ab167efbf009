/** What an XPath 1.0 expression means: node sets as sets, predicates by proximity position, and scalar operations over
    any interpretation. */
module XPathMeaning {
  import opened Bytes
  import opened XPathTree
  import opened XPathPositions
  import opened XPathOrder
  import opened XPathAxes
  import opened XPathAst

  /** `xpath_node_set::type_t` */
  datatype SetOrder = Unsorted | SortedOrder | SortedReverse

  /** `xpath_node_set_raw` */
  datatype NodeSet = NodeSet(nodes: seq<XNode>, order: SetOrder)

  /** Documents and where their strings are, variables, the scalar operations and the address of a node. */
  datatype Env = Env(docs: forest, layout: Layout, sets: bytes -> NodeSet, scalars: bytes -> Value,
                     apply: (nat, seq<Value>, XNode) -> Value, pointer: XNode -> bv32)

  /** `xpath_context` */
  datatype Context = Context(n: XNode, position: nat, size: nat)

  predicate Distinct(s: seq<XNode>) {
    forall i, j :: 0 <= i < j < |s| ==> s[i] != s[j]
  }

  predicate InDocs(f: forest, s: seq<XNode>) {
    forall x :: x in s ==> x.In(f)
  }

  /** The tag of a node set says how its nodes are ordered. */
  predicate Truthful(ns: NodeSet) {
    match ns.order
    case Unsorted => true
    case SortedOrder => Ordered(false, ns.nodes)
    case SortedReverse => Ordered(true, ns.nodes)
  }

  predicate GoodSet(f: forest, ns: NodeSet) {
    InDocs(f, ns.nodes) && Distinct(ns.nodes) && Truthful(ns)
  }

  /** Attribute names are unique, the comparator puts different nodes into document order, and node-set variables are
      duplicate-free and truthfully tagged. */
  ghost predicate GoodEnv(env: Env) {
    && (forall p, i, j :: Valid(env.docs, p) && 0 <= i < j < |Subtree(env.docs, p).attributes| ==>
      Subtree(env.docs, p).attributes[i] != Subtree(env.docs, p).attributes[j])
    && Faithful(env.docs, env.layout)
    && (forall name :: GoodSet(env.docs, env.sets(name)))
  }

  function Members(s: seq<XNode>): set<XNode> {
    set x | x in s
  }

  // ----- document positions in a set -----

  /** One more than the number of nodes of the set that come before `x`. */
  function Rank(s: set<XNode>, x: XNode): nat {
    1 + |set y | y in s && BeforeX(y, x)|
  }

  ghost predicate IsFirst(s: set<XNode>, x: XNode) {
    x in s && forall y :: y in s ==> y == x || BeforeX(x, y)
  }

  lemma {:induction false} FirstExists(s: set<XNode>)
    requires s != {}
    ensures exists x :: IsFirst(s, x)
    decreases |s|
  {
    hide BeforeX;
    var y :| y in s;
    var rest := s - {y};
    if rest == {} {
      assert s == {y};
      assert IsFirst(s, y);
    } else {
      FirstExists(rest);
      var x :| IsFirst(rest, x);
      BeforeXIsStrictTotal(x, y, x);
      var first := if BeforeX(x, y) then x else y;
      forall z | z in s ensures z == first || BeforeX(first, z) {
        BeforeXIsStrictTotal(y, x, z);
      }
      assert IsFirst(s, first);
    }
  }

  lemma FirstIsUnique(s: set<XNode>, x: XNode, y: XNode)
    requires IsFirst(s, x) && IsFirst(s, y)
    ensures x == y
  {
    BeforeXIsStrictTotal(x, y, x);
    hide BeforeX;
  }

  /** The first node of a set in document order. */
  ghost function FirstOf(s: set<XNode>): Option<XNode> {
    if s == {} then None else
    FirstExists(s);
    var x :| IsFirst(s, x);
    Some(x)
  }

  // ----- meaning -----

  function NumbersEqual(a: Value, b: Value): bool {
    a.Num? && b.Num? && a.number == b.number
  }

  /** Not-a-number equals nothing, not even itself. */
  lemma EqualNumbers(a: Value, b: Value)
    ensures NumbersEqual(a, b) <==> exists x: real :: a == Num(x) && b == Num(x)
  {
    if NumbersEqual(a, b) { assert a == Num(a.number) && b == Num(a.number); }
  }

  function ToBool(v: Value): bool {
    match v
    case Num(x) => x != 0.0
    case NotANumber => false
    case Str(s) => s != []
    case Bool(b) => b
    case First(n) => n.Some?
    case Nodes(s) => s != {}
  }

  /** Section 4.3 of XPath 1.0: everything is true but zero, not-a-number, the empty string, false and no nodes. */
  lemma FalseValues(v: Value)
    ensures !ToBool(v)
      <==> v == Num(0.0) || v == NotANumber || v == Str("") || v == Bool(false) || v == First(None) || v == Nodes({})
  {
  }

  /** The nodes an expression selects; nothing if it is not a node set. */
  ghost function Meaning(env: Env, e: Expr, c: Context): set<XNode>
    decreases e, 0
  {
    match e
    case Union(l, r) => Meaning(env, l, c) + Meaning(env, r, c)
    case Filter(l, p) =>
      var s := Meaning(env, l, c);
      set x | x in s && Holds(env, p.expr, Context(x, Rank(s, x), |s|))
    case Step(ctx, axis, nodeTest, preds) =>
      set x, m | x in Contexts(env, ctx, c) && m in FromOne(env, axis, nodeTest, preds, x) :: m
    case Root => if c.n.Home() == [] then {} else {Elem([c.n.Home()[0]])}
    case SetVariable(name) => Members(env.sets(name).nodes)
    case _ => {}
  }

  /** The nodes a step starts from. */
  ghost function Contexts(env: Env, ctx: Option<Expr>, c: Context): set<XNode>
    decreases ctx
  {
    if ctx.None? then {c.n} else Meaning(env, ctx.value, c)
  }

  /** What a step selects from one context node: the axis in axis order, each predicate in turn over what is left. */
  ghost function FromOne(env: Env, axis: Axis, nodeTest: NodeTest, preds: seq<Pred>, x: XNode): seq<XNode>
    decreases preds, |preds| + 1
  {
    if !x.In(env.docs) then [] else KeptAll(env, preds, |preds|, Enumeration(env.docs, axis, nodeTest, x))
  }

  /** The list after the first `k` predicates. */
  ghost function KeptAll(env: Env, preds: seq<Pred>, k: nat, s: seq<XNode>): seq<XNode>
    requires k <= |preds|
    decreases preds, k
  {
    if k == 0 then s else
    KeptOne(env, preds[k - 1], KeptAll(env, preds, k - 1, s))
  }

  ghost function KeptOne(env: Env, p: Pred, s: seq<XNode>): seq<XNode>
    decreases p
  {
    Kept(env, p.expr, s, |s|)
  }

  /** The nodes among the first `n` of `s` for which the predicate holds at their position. */
  ghost function Kept(env: Env, e: Expr, s: seq<XNode>, n: nat): seq<XNode>
    requires n <= |s|
    decreases e, 2, n
  {
    if n == 0 then [] else
    Kept(env, e, s, n - 1) + if Holds(env, e, Context(s[n - 1], n, |s|)) then [s[n - 1]] else []
  }

  /** A predicate that is a number is a position; anything else is a condition. */
  ghost predicate Holds(env: Env, e: Expr, c: Context)
    decreases e, 1
  {
    match TypeOf(e)
    case NumberType => NumbersEqual(Val(env, e, c), Num(c.position as real))
    case NodeSetType => Meaning(env, e, c) != {}
    case _ => ToBool(Val(env, e, c))
  }

  /** The value of an expression that is not a node set. */
  ghost function Val(env: Env, e: Expr, c: Context): Value
    decreases e, 0
  {
    match e
    case Position => Num(c.position as real)
    case Last => Num(c.size as real)
    case Number(x) => Num(x)
    case Text(t) => Str(t)
    case ScalarVariable(name, _) => env.scalars(name)
    case Equal(l, r) =>
      if TypeOf(l) == NumberType && TypeOf(r) == NumberType then Bool(NumbersEqual(Val(env, l, c), Val(env, r, c)))
      else env.apply(0, [Argument(env, AsSet, l, c), Argument(env, AsSet, r, c)], c.n)
    case Op(op, _, args) => env.apply(op + 1, Arguments(env, args, |args|, c), c.n)
    case _ => NotANumber
  }

  ghost function Arguments(env: Env, args: seq<Arg>, k: nat, c: Context): seq<Value>
    requires k <= |args|
    decreases args, k
  {
    if k == 0 then [] else Arguments(env, args, k - 1, c) + [ArgumentOf(env, args[k - 1], c)]
  }

  ghost function ArgumentOf(env: Env, a: Arg, c: Context): Value
    decreases a
  {
    Argument(env, a.use, a.expr, c)
  }

  ghost function Argument(env: Env, use: Use, e: Expr, c: Context): Value
    decreases e, 1
  {
    if !IsSet(e) then Val(env, e, c) else
    match use
    case AsBoolean => Bool(Meaning(env, e, c) != {})
    case AsFirst => First(FirstOf(Meaning(env, e, c)))
    case AsSet => Nodes(Meaning(env, e, c))
  }

  // ----- positional invariance -----

  /** Node-set expressions, and expressions that pass `is_posinv_expr`, do not depend on the context position and
      size. */
  lemma {:induction false} PosinvIsInvariant(env: Env, e: Expr, c: Context, d: Context)
    requires WellTyped(e) && c.n == d.n && (IsSet(e) || IsPosinvExpr(e))
    ensures Meaning(env, e, c) == Meaning(env, e, d)
    ensures !IsSet(e) ==> Val(env, e, c) == Val(env, e, d)
    decreases e
  {
    match e
    case Union(l, r) =>
      PosinvIsInvariant(env, l, c, d);
      PosinvIsInvariant(env, r, c, d);
    case Filter(l, p) => PosinvIsInvariant(env, l, c, d);
    case Step(ctx, axis, nodeTest, preds) =>
      if ctx.Some? {
        PosinvIsInvariant(env, ctx.value, c, d);
      }
    case Equal(l, r) =>
      PosinvIsInvariant(env, l, c, d);
      PosinvIsInvariant(env, r, c, d);
    case Op(op, t, args) => ArgumentsAreInvariant(env, args, |args|, c, d);
    case _ =>
  }

  lemma {:induction false} ArgumentsAreInvariant(env: Env, args: seq<Arg>, k: nat, c: Context, d: Context)
    requires c.n == d.n && k <= |args| && forall a :: a in args ==> WellTyped(a.expr) && IsPosinvExpr(a.expr)
    ensures Arguments(env, args, k, c) == Arguments(env, args, k, d)
    decreases args, k
  {
    if k > 0 {
      assert args[k - 1] in args;
      ArgumentsAreInvariant(env, args, k - 1, c, d);
      ArgumentIsInvariant(env, args[k - 1], c, d);
    }
  }

  lemma {:induction false} ArgumentIsInvariant(env: Env, a: Arg, c: Context, d: Context)
    requires c.n == d.n && WellTyped(a.expr) && IsPosinvExpr(a.expr)
    ensures ArgumentOf(env, a, c) == ArgumentOf(env, a, d)
    decreases a
  {
    PosinvIsInvariant(env, a.expr, c, d);
  }

  /** A condition that passes the test holds at every position or at none. */
  lemma ConditionIsInvariant(env: Env, e: Expr, c: Context, d: Context)
    requires WellTyped(e) && c.n == d.n && IsPosinvExpr(e) && TypeOf(e) != NumberType
    ensures Holds(env, e, c) == Holds(env, e, d)
  {
    PosinvIsInvariant(env, e, c, d);
  }

  /** Section 2.4 of XPath 1.0: a predicate that is a number is true at that position, a string if it is not empty, a
      comparison if it is true, and a node set if it holds a node. */
  lemma PredicateHolds(env: Env, e: Expr, c: Context)
    ensures match e
      case Position => Holds(env, e, c)
      case Last => Holds(env, e, c) <==> c.position == c.size
      case Number(x) => Holds(env, e, c) <==> x == c.position as real
      case Text(t) => Holds(env, e, c) <==> t != ""
      case Equal(_, _) => Holds(env, e, c) <==> ToBool(Val(env, e, c))
      case ScalarVariable(_, t) =>
        t == NumberType ==> (Holds(env, e, c) <==> Val(env, e, c) == Num(c.position as real))
      case Op(_, t, _) => t == NumberType ==> (Holds(env, e, c) <==> Val(env, e, c) == Num(c.position as real))
      case _ => Holds(env, e, c) <==> exists m :: m in Meaning(env, e, c)
  {
    hide Meaning;
    assert Meaning(env, e, c) != {} <==> exists m :: m in Meaning(env, e, c);
  }

  // ----- lists under predicates -----

  lemma {:induction false} KeptMember(env: Env, e: Expr, s: seq<XNode>, n: nat, x: XNode)
    requires n <= |s|
    ensures x in Kept(env, e, s, n) <==> exists i :: 0 <= i < n && s[i] == x && Holds(env, e, Context(s[i], i + 1, |s|))
    decreases n
  {
    hide Holds;
    if n > 0 {
      KeptMember(env, e, s, n - 1, x);
      if Holds(env, e, Context(s[n - 1], n, |s|)) && s[n - 1] == x {
        var i := n - 1;
        assert s[i] == x && Holds(env, e, Context(s[i], i + 1, |s|));
      }
    }
  }

  lemma KeptSubset(env: Env, e: Expr, s: seq<XNode>, n: nat)
    requires n <= |s|
    ensures forall x :: x in Kept(env, e, s, n) ==> x in s[..n]
  {
    hide Holds, Kept;
    forall x | x in Kept(env, e, s, n) ensures x in s[..n] {
      KeptMember(env, e, s, n, x);
      var i :| 0 <= i < n && s[i] == x && Holds(env, e, Context(s[i], i + 1, |s|));
      assert s[..n][i] == x;
    }
  }

  lemma {:induction false} KeptOrdered(env: Env, e: Expr, s: seq<XNode>, n: nat, reverse: bool)
    requires n <= |s| && Ordered(reverse, s)
    ensures Ordered(reverse, Kept(env, e, s, n))
    decreases n
  {
    hide Holds, BeforeX;
    if n > 0 {
      KeptOrdered(env, e, s, n - 1, reverse);
      KeptSubset(env, e, s, n - 1);
      var front := Kept(env, e, s, n - 1);
      forall y | y in front ensures if reverse then BeforeX(s[n - 1], y) else BeforeX(y, s[n - 1]) {
        var i :| 0 <= i < n - 1 && s[..n - 1][i] == y;
      }
      if Holds(env, e, Context(s[n - 1], n, |s|)) {
        OrderedAppend(reverse, front, s[n - 1]);
      }
    }
  }

  lemma {:induction false} KeptDistinct(env: Env, e: Expr, s: seq<XNode>, n: nat)
    requires n <= |s| && Distinct(s)
    ensures Distinct(Kept(env, e, s, n))
    decreases n
  {
    hide Holds;
    if n > 0 {
      KeptDistinct(env, e, s, n - 1);
      KeptSubset(env, e, s, n - 1);
      assert s[n - 1] !in s[..n - 1];
    }
  }

  lemma OrderedDistinct(reverse: bool, s: seq<XNode>)
    requires Ordered(reverse, s)
    ensures Distinct(s)
  {
    forall i, j | 0 <= i < j < |s| ensures s[i] != s[j] {
      BeforeXIsStrictTotal(s[i], s[j], s[i]);
      BeforeXIsStrictTotal(s[j], s[i], s[j]);
    }
  }

  lemma {:induction false} KeptAllProperties(env: Env, preds: seq<Pred>, k: nat, s: seq<XNode>, reverse: bool)
    requires k <= |preds| && Ordered(reverse, s)
    ensures Ordered(reverse, KeptAll(env, preds, k, s))
    ensures forall x :: x in KeptAll(env, preds, k, s) ==> x in s
    decreases k
  {
    hide Kept;
    if k > 0 {
      KeptAllProperties(env, preds, k - 1, s, reverse);
      var before := KeptAll(env, preds, k - 1, s);
      KeptOrdered(env, preds[k - 1].expr, before, |before|, reverse);
      KeptSubset(env, preds[k - 1].expr, before, |before|);
      assert before[..|before|] == before;
    }
  }

  /** What one context node contributes is on the axis, in axis order, without repeats. */
  lemma FromOneProperties(env: Env, axis: Axis, nodeTest: NodeTest, preds: seq<Pred>, x: XNode)
    requires x.In(env.docs)
    ensures var s := FromOne(env, axis, nodeTest, preds, x);
      && Ordered(Reverse(axis), s) && Distinct(s) && InDocs(env.docs, s)
      && forall m :: m in s ==> Selected(env.docs, axis, nodeTest, x, m)
  {
    hide Enumeration, KeptAll, Ordered, Distinct;
    EnumerationIsExact(env.docs, axis, nodeTest, x);
    KeptAllProperties(env, preds, |preds|, Enumeration(env.docs, axis, nodeTest, x), Reverse(axis));
    OrderedDistinct(Reverse(axis), FromOne(env, axis, nodeTest, preds, x));
  }

  // ----- ranks and lists -----

  /** In a list in document order the rank of a node is its place. */
  lemma RankIsPlace(s: seq<XNode>, i: nat)
    requires Ordered(false, s) && i < |s|
    ensures Rank(Members(s), s[i]) == i + 1 && |Members(s)| == |s|
  {
    hide BeforeX;
    var before := set y | y in Members(s) && BeforeX(y, s[i]);
    forall y ensures y in before <==> y in Members(s[..i]) {
      PlaceBefore(s, i, y);
    }
    assert before == Members(s[..i]);
    MembersCount(s[..i]);
    MembersCount(s);
  }

  lemma PlaceBefore(s: seq<XNode>, i: nat, y: XNode)
    requires Ordered(false, s) && i < |s|
    ensures y in s && BeforeX(y, s[i]) <==> y in s[..i]
  {
    hide BeforeX;
    if y in s && BeforeX(y, s[i]) {
      var j :| 0 <= j < |s| && s[j] == y;
      BeforeXIsStrictTotal(y, s[i], y);
      BeforeXIsStrictTotal(s[i], y, s[i]);
      assert s[..i][j] == y;
    }
    if y in s[..i] {
      var j :| 0 <= j < i && s[..i][j] == y;
      assert s[j] == y;
    }
  }

  lemma {:induction false} MembersCount(s: seq<XNode>)
    requires Ordered(false, s)
    ensures |Members(s)| == |s|
    decreases |s|
  {
    hide BeforeX;
    if s != [] {
      var front, last := s[..|s| - 1], s[|s| - 1];
      MembersCount(front);
      OrderedDistinct(false, s);
      assert s == front + [last];
      assert Members(s) == Members(front) + {last};
    }
  }

  /** A filter over a node set listed in document order keeps the nodes whose place satisfies the predicate. */
  lemma FilterByList(env: Env, l: Expr, p: Pred, c: Context, s: seq<XNode>)
    requires Ordered(false, s) && Members(s) == Meaning(env, l, c)
    ensures Members(KeptOne(env, p, s)) == Meaning(env, Filter(l, p), c)
  {
    hide Holds, Kept, Rank, Ordered;
    forall x ensures x in KeptOne(env, p, s) <==> x in Meaning(env, Filter(l, p), c) {
      KeptMember(env, p.expr, s, |s|, x);
      if x in s {
        var i :| 0 <= i < |s| && s[i] == x;
        RankIsPlace(s, i);
        OrderedDistinct(false, s);
        assert x in Meaning(env, Filter(l, p), c) <==> Holds(env, p.expr, Context(s[i], i + 1, |s|));
      }
    }
  }

  // ----- steps -----

  /** A node is selected by a step from one of its context nodes. */
  lemma InStep(env: Env, e: Expr, c: Context, m: XNode)
    requires e.Step?
    ensures m in Meaning(env, e, c) <==>
      exists x :: x in Contexts(env, e.context, c) && m in FromOne(env, e.axis, e.nodeTest, e.preds, x)
  {
    hide FromOne, Contexts, Meaning;
    if m in Meaning(env, e, c) {
      var x := StepWitness(env, e, c, m);
    }
    if exists x :: x in Contexts(env, e.context, c) && m in FromOne(env, e.axis, e.nodeTest, e.preds, x) {
      var x :| x in Contexts(env, e.context, c) && m in FromOne(env, e.axis, e.nodeTest, e.preds, x);
      StepFrom(env, e, c, x, m);
    }
  }

  lemma StepWitness(env: Env, e: Expr, c: Context, m: XNode) returns (x: XNode)
    requires e.Step? && m in Meaning(env, e, c)
    ensures x in Contexts(env, e.context, c) && m in FromOne(env, e.axis, e.nodeTest, e.preds, x)
  {
    hide FromOne, Contexts;
    x :| x in Contexts(env, e.context, c) && m in FromOne(env, e.axis, e.nodeTest, e.preds, x);
  }

  lemma StepFrom(env: Env, e: Expr, c: Context, x: XNode, m: XNode)
    requires e.Step? && x in Contexts(env, e.context, c) && m in FromOne(env, e.axis, e.nodeTest, e.preds, x)
    ensures m in Meaning(env, e, c)
  {
    hide FromOne, Contexts;
  }
}
