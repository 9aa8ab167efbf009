/** The query optimizer: it classifies predicates, turns `[position()=expr]` into `[expr]` and shortens `//` steps. The
    optimized expression selects the same nodes and has the same values. */
module XPathOptimize {
  import opened XPathTree
  import opened XPathOrder
  import opened XPathAxes
  import opened XPathAst
  import opened XPathMeaning

  /** `[position()=expr]` becomes `[expr]`. */
  function RewritePosition(e: Expr): Expr {
    if e.Equal? && e.left.Position? && TypeOf(e.right) == NumberType then e.right else e
  }

  /** `is_posinv_step` */
  predicate IsPosinvStep(preds: seq<Pred>) {
    forall p :: p in preds ==> p.tag == Posinv
  }

  /** `descendant-or-self::node()/` before a positionally invariant step is absorbed by the step. */
  function MergeStep(e: Expr): Expr
    requires e.Step?
  {
    if e.axis in {Child, Self, Descendant, DescendantOrSelf} && e.context.Some? && e.context.value.Step?
       && e.context.value.axis == DescendantOrSelf && e.context.value.nodeTest == TypeNode
         && e.context.value.preds == []
       && IsPosinvStep(e.preds)
    then Step(e.context.value.context, Merged(e.axis), e.nodeTest, e.preds)
    else e
  }

  function Merged(axis: Axis): Axis {
    if axis == Child || axis == Descendant then Descendant else DescendantOrSelf
  }

  /** `optimize`: children first, then the node itself. */
  function Optimize(e: Expr): Expr
    decreases e
  {
    match e
    case Union(l, r) => Union(Optimize(l), Optimize(r))
    case Filter(l, p) => Filter(Optimize(l), OptimizePred(p))
    case Id(a) => Id(Optimize(a))
    case Step(c, axis, nodeTest, preds) =>
      MergeStep(Step(if c.None? then None else Some(Optimize(c.value)), axis, nodeTest, OptimizePreds(preds, |preds|)))
    case Equal(l, r) => Equal(Optimize(l), Optimize(r))
    case Op(op, t, args) => Op(op, t, OptimizeArgs(args, |args|))
    case _ => e
  }

  function OptimizePred(p: Pred): Pred
    decreases p
  {
    var e := RewritePosition(Optimize(p.expr));
    Pred(e, Classify(e))
  }

  function OptimizePreds(preds: seq<Pred>, k: nat): (r: seq<Pred>)
    requires k <= |preds|
    ensures |r| == k
    decreases preds, k
  {
    if k == 0 then [] else OptimizePreds(preds, k - 1) + [OptimizePred(preds[k - 1])]
  }

  function OptimizeArg(a: Arg): Arg
    decreases a
  {
    Arg(a.use, Optimize(a.expr))
  }

  function OptimizeArgs(args: seq<Arg>, k: nat): (r: seq<Arg>)
    requires k <= |args|
    ensures |r| == k
    decreases args, k
  {
    if k == 0 then [] else OptimizeArgs(args, k - 1) + [OptimizeArg(args[k - 1])]
  }

  // ----- the merged step -----

  /** The condition of a positionally invariant step, which only looks at the node. */
  ghost predicate AllHold(env: Env, preds: seq<Pred>, k: nat, m: XNode)
    requires k <= |preds|
  {
    forall i :: 0 <= i < k ==> Holds(env, preds[i].expr, Context(m, 1, 1))
  }

  ghost predicate Invariant(preds: seq<Pred>) {
    forall p :: p in preds ==> WellTyped(p.expr) && IsPosinvExpr(p.expr) && TypeOf(p.expr) != NumberType
  }

  lemma {:induction false} KeptAllMember(env: Env, preds: seq<Pred>, k: nat, s: seq<XNode>, m: XNode)
    requires k <= |preds| && Invariant(preds)
    ensures m in KeptAll(env, preds, k, s) <==> m in s && AllHold(env, preds, k, m)
    decreases k
  {
    hide Holds, Kept, WellTyped, IsPosinvExpr;
    if k > 0 {
      KeptAllMember(env, preds, k - 1, s, m);
      var before, p := KeptAll(env, preds, k - 1, s), preds[k - 1];
      assert p in preds;
      KeptMember(env, p.expr, before, |before|, m);
      forall i | 0 <= i < |before| && before[i] == m
        ensures Holds(env, p.expr, Context(m, i + 1, |before|)) == Holds(env, p.expr, Context(m, 1, 1))
      {
        ConditionIsInvariant(env, p.expr, Context(m, i + 1, |before|), Context(m, 1, 1));
      }
    }
  }

  lemma FromOneMember(env: Env, axis: Axis, nodeTest: NodeTest, preds: seq<Pred>, x: XNode, m: XNode)
    requires Invariant(preds)
    ensures m in FromOne(env, axis, nodeTest, preds, x)
      <==> Selected(env.docs, axis, nodeTest, x, m) && AllHold(env, preds, |preds|, m)
  {
    hide AllHold, Enumeration, KeptAll, Invariant;
    if x.In(env.docs) {
      KeptAllMember(env, preds, |preds|, Enumeration(env.docs, axis, nodeTest, x), m);
      EnumerationMember(env.docs, axis, nodeTest, x, m);
    }
  }

  /** Two steps through a node of the document. */
  ghost predicate Through(f: forest, axis: Axis, nodeTest: NodeTest, x: XNode, m: XNode) {
    exists y :: Selected(f, DescendantOrSelf, TypeNode, x, y) && Selected(f, axis, nodeTest, y, m)
  }

  /** From an attribute the first step leads nowhere else. */
  lemma ThroughAttribute(f: forest, axis: Axis, nodeTest: NodeTest, x: XNode, m: XNode)
    requires x.In(f) && x.Attr? && axis in {Child, Self, Descendant, DescendantOrSelf}
    ensures Through(f, axis, nodeTest, x, m) <==> Selected(f, Merged(axis), nodeTest, x, m)
  {
    hide PassesNode, Valid;
    if Selected(f, Merged(axis), nodeTest, x, m) {
      assert Selected(f, DescendantOrSelf, TypeNode, x, x) && Selected(f, axis, nodeTest, x, m);
    }
  }

  lemma ThroughNode(f: forest, axis: Axis, nodeTest: NodeTest, x: XNode, m: XNode)
    requires x.In(f) && x.Elem? && axis in {Child, Self, Descendant, DescendantOrSelf}
    ensures Through(f, axis, nodeTest, x, m) <==> Selected(f, Merged(axis), nodeTest, x, m)
  {
    if Through(f, axis, nodeTest, x, m) {
      var y :| Selected(f, DescendantOrSelf, TypeNode, x, y) && Selected(f, axis, nodeTest, y, m);
      DownTwice(f, axis, nodeTest, x, y, m);
    }
    if Selected(f, Merged(axis), nodeTest, x, m) {
      SplitStep(f, axis, nodeTest, x, m);
    }
  }

  lemma DownTwice(f: forest, axis: Axis, nodeTest: NodeTest, x: XNode, y: XNode, m: XNode)
    requires x.Elem? && axis in {Child, Self, Descendant, DescendantOrSelf}
    requires Selected(f, DescendantOrSelf, TypeNode, x, y) && Selected(f, axis, nodeTest, y, m)
    ensures Selected(f, Merged(axis), nodeTest, x, m)
  {
    hide Passes, Valid;
    if m.Elem? {
      PrefixTransitive(x.node, y.node, m.node);
    }
  }

  lemma SplitStep(f: forest, axis: Axis, nodeTest: NodeTest, x: XNode, m: XNode)
    requires x.In(f) && x.Elem? && axis in {Child, Self, Descendant, DescendantOrSelf}
    requires Selected(f, Merged(axis), nodeTest, x, m)
    ensures Through(f, axis, nodeTest, x, m)
  {
    hide Before;
    var p, q := x.node, m.node;
    assert p[..|p|] == p;
    if axis == Child {
      if |p| == |q| {
        SameWhole(p, q);
      }
      var r := q[..|q| - 1];
      PrefixValid(f, q, |r|);
      assert r[..|p|] == q[..|p|];
      assert r[0] == q[0];
      assert Selected(f, DescendantOrSelf, TypeNode, x, Elem(r)) && Selected(f, axis, nodeTest, Elem(r), m);
    } else if axis == Self {
      assert Selected(f, DescendantOrSelf, TypeNode, x, m) && Selected(f, axis, nodeTest, m, m);
    } else {
      assert Selected(f, DescendantOrSelf, TypeNode, x, x) && Selected(f, axis, nodeTest, x, m);
    }
  }

  /** The merged step selects what the two steps select, from nodes and from attributes. */
  lemma MergedSelects(f: forest, axis: Axis, nodeTest: NodeTest, x: XNode, m: XNode)
    requires axis in {Child, Self, Descendant, DescendantOrSelf}
    ensures Through(f, axis, nodeTest, x, m) <==> Selected(f, Merged(axis), nodeTest, x, m)
  {
    if x.In(f) {
      hide Through, Selected;
      if x.Elem? {
        ThroughNode(f, axis, nodeTest, x, m);
      } else {
        ThroughAttribute(f, axis, nodeTest, x, m);
      }
    }
  }

  /** Replacing `descendant-or-self::node()/axis::T[P]` by the merged step keeps the node set, for every tree and
      context, if the predicates are positionally invariant. */
  lemma MergeKeepsMeaning(env: Env, ctx: Option<Expr>, axis: Axis, nodeTest: NodeTest, preds: seq<Pred>, c: Context)
    requires axis in {Child, Self, Descendant, DescendantOrSelf} && Invariant(preds)
    ensures Meaning(env, Step(Some(Step(ctx, DescendantOrSelf, TypeNode, [])), axis, nodeTest, preds), c)
      == Meaning(env, Step(ctx, Merged(axis), nodeTest, preds), c)
  {
    hide FromOne, Invariant, Selected, AllHold, Through;
    var inner := Step(ctx, DescendantOrSelf, TypeNode, []);
    var long, short := Step(Some(inner), axis, nodeTest, preds), Step(ctx, Merged(axis), nodeTest, preds);
    var s := Contexts(env, ctx, c);
    forall m ensures m in Meaning(env, long, c) <==> m in Meaning(env, short, c) {
      InStep(env, long, c, m);
      InStep(env, short, c, m);
      forall x, y ensures y in FromOne(env, DescendantOrSelf, TypeNode, [], x)
        <==> Selected(env.docs, DescendantOrSelf, TypeNode, x, y)
      {
        NoPreds(env, DescendantOrSelf, TypeNode, x, y);
      }
      forall y ensures y in Meaning(env, inner, c)
        <==> exists x :: x in s && Selected(env.docs, DescendantOrSelf, TypeNode, x, y)
      {
        InStep(env, inner, c, y);
      }
      forall x ensures m in FromOne(env, axis, nodeTest, preds, x)
        <==> Selected(env.docs, axis, nodeTest, x, m) && AllHold(env, preds, |preds|, m)
      {
        FromOneMember(env, axis, nodeTest, preds, x, m);
      }
      forall x ensures m in FromOne(env, Merged(axis), nodeTest, preds, x)
        <==> Through(env.docs, axis, nodeTest, x, m) && AllHold(env, preds, |preds|, m)
      {
        FromOneMember(env, Merged(axis), nodeTest, preds, x, m);
        MergedSelects(env.docs, axis, nodeTest, x, m);
      }
      ThroughSome(env.docs, axis, nodeTest, s, Meaning(env, inner, c), m);
    }
  }

  lemma ThroughSome(f: forest, axis: Axis, nodeTest: NodeTest, s: set<XNode>, t: set<XNode>, m: XNode)
    requires forall y :: y in t <==> exists x :: x in s && Selected(f, DescendantOrSelf, TypeNode, x, y)
    ensures (exists y :: y in t && Selected(f, axis, nodeTest, y, m))
      <==> (exists x :: x in s && Through(f, axis, nodeTest, x, m))
  {
    hide Selected, Through;
    if y :| y in t && Selected(f, axis, nodeTest, y, m) {
      var x :| x in s && Selected(f, DescendantOrSelf, TypeNode, x, y);
      GoesThrough(f, axis, nodeTest, x, y, m);
    }
    if x :| x in s && Through(f, axis, nodeTest, x, m) {
      var y := Middle(f, axis, nodeTest, x, m);
    }
  }

  lemma GoesThrough(f: forest, axis: Axis, nodeTest: NodeTest, x: XNode, y: XNode, m: XNode)
    requires Selected(f, DescendantOrSelf, TypeNode, x, y) && Selected(f, axis, nodeTest, y, m)
    ensures Through(f, axis, nodeTest, x, m)
  {
    hide Selected;
  }

  lemma Middle(f: forest, axis: Axis, nodeTest: NodeTest, x: XNode, m: XNode) returns (y: XNode)
    requires Through(f, axis, nodeTest, x, m)
    ensures Selected(f, DescendantOrSelf, TypeNode, x, y) && Selected(f, axis, nodeTest, y, m)
  {
    hide Selected;
    y :| Selected(f, DescendantOrSelf, TypeNode, x, y) && Selected(f, axis, nodeTest, y, m);
  }

  lemma NoPreds(env: Env, axis: Axis, nodeTest: NodeTest, x: XNode, y: XNode)
    ensures y in FromOne(env, axis, nodeTest, [], x) <==> Selected(env.docs, axis, nodeTest, x, y)
  {
    if x.In(env.docs) {
      EnumerationMember(env.docs, axis, nodeTest, x, y);
    }
  }

  // ----- the whole optimizer -----

  lemma OptimizedType(e: Expr)
    ensures TypeOf(Optimize(e)) == TypeOf(e)
  {
  }

  /** `//test[path]` becomes one descendant step, with any number of such predicates. */
  lemma DoubleSlashMerges(ctx: Option<Expr>, nodeTest: NodeTest, preds: seq<Pred>)
    requires forall p :: p in preds ==> p.expr.Step?
    ensures var inner := Step(ctx, DescendantOrSelf, TypeNode, []);
      && Optimize(inner).Step?
      && Optimize(Step(Some(inner), Child, nodeTest, preds))
         == Step(Optimize(inner).context, Descendant, nodeTest, OptimizePreds(preds, |preds|))
  {
    PathsAreInvariant(preds, |preds|);
  }

  lemma {:induction false} PathsAreInvariant(preds: seq<Pred>, k: nat)
    requires k <= |preds| && forall p :: p in preds ==> p.expr.Step?
    ensures IsPosinvStep(OptimizePreds(preds, k))
    decreases k
  {
    hide OptimizePred;
    if k > 0 {
      PathsAreInvariant(preds, k - 1);
      assert preds[k - 1] in preds;
      PathIsInvariant(preds[k - 1]);
    }
  }

  lemma PathIsInvariant(p: Pred)
    requires p.expr.Step?
    ensures OptimizePred(p).tag == Posinv
  {
    hide OptimizePreds;
    assert Optimize(p.expr).Step?;
  }

  lemma {:induction false} OptimizedTyping(e: Expr)
    requires WellTyped(e)
    ensures WellTyped(Optimize(e)) && WellTagged(Optimize(e))
    decreases e
  {
    match e
    case Union(l, r) =>
      OptimizedTyping(l);
      OptimizedTyping(r);
      OptimizedType(l);
      OptimizedType(r);
    case Filter(l, p) =>
      OptimizedTyping(l);
      OptimizedType(l);
      OptimizedPredTyping(p);
    case Id(a) => OptimizedTyping(a);
    case Step(ctx, axis, nodeTest, preds) =>
      if ctx.Some? {
        OptimizedTyping(ctx.value);
        OptimizedType(ctx.value);
      }
      OptimizedPredsTyping(preds, |preds|);
      var o := if ctx.None? then None else Some(Optimize(ctx.value));
      MergedTyping(Step(o, axis, nodeTest, OptimizePreds(preds, |preds|)));
    case Equal(l, r) =>
      OptimizedTyping(l);
      OptimizedTyping(r);
    case Op(op, t, args) => OptimizedArgsTyping(args, |args|);
    case _ =>
  }

  lemma MergedTyping(e: Expr)
    requires e.Step? && WellTyped(e) && WellTagged(e)
    ensures WellTyped(MergeStep(e)) && WellTagged(MergeStep(e))
  {
  }

  lemma {:induction false} OptimizedPredTyping(p: Pred)
    requires WellTyped(p.expr)
    ensures var q := OptimizePred(p);
      WellTyped(q.expr) && WellTagged(q.expr) && TagOk(q)
        && (q.tag == Posinv ==> IsPosinvExpr(q.expr) && TypeOf(q.expr) != NumberType)
    decreases p
  {
    OptimizedTyping(p.expr);
  }

  lemma {:induction false} OptimizedPredsTyping(preds: seq<Pred>, k: nat)
    requires k <= |preds| && forall p :: p in preds ==> WellTyped(p.expr)
    ensures forall q :: q in OptimizePreds(preds, k) ==>
      WellTyped(q.expr) && WellTagged(q.expr) && TagOk(q)
        && (q.tag == Posinv ==> IsPosinvExpr(q.expr) && TypeOf(q.expr) != NumberType)
    decreases preds, k
  {
    hide WellTyped, WellTagged, TagOk, IsPosinvExpr;
    if k > 0 {
      assert preds[k - 1] in preds;
      OptimizedPredsTyping(preds, k - 1);
      OptimizedPredTyping(preds[k - 1]);
    }
  }

  lemma {:induction false} OptimizedArgsTyping(args: seq<Arg>, k: nat)
    requires k <= |args| && forall a :: a in args ==> WellTyped(a.expr)
    ensures forall b :: b in OptimizeArgs(args, k) ==> WellTyped(b.expr) && WellTagged(b.expr)
    decreases args, k
  {
    hide WellTyped, WellTagged;
    if k > 0 {
      assert args[k - 1] in args;
      OptimizedArgsTyping(args, k - 1);
      OptimizedArgTyping(args[k - 1]);
    }
  }

  lemma {:induction false} OptimizedArgTyping(a: Arg)
    requires WellTyped(a.expr)
    ensures WellTyped(OptimizeArg(a).expr) && WellTagged(OptimizeArg(a).expr)
    decreases a
  {
    OptimizedTyping(a.expr);
  }

  /** The optimizer preserves meaning: the same node set and the same value in every context. */
  lemma {:induction false} OptimizePreserves(env: Env, e: Expr, c: Context)
    requires WellTyped(e)
    ensures Meaning(env, Optimize(e), c) == Meaning(env, e, c)
    ensures !IsSet(e) ==> Val(env, Optimize(e), c) == Val(env, e, c)
    decreases e
  {
    OptimizedType(e);
    match e
    case Union(l, r) =>
      OptimizePreserves(env, l, c);
      OptimizePreserves(env, r, c);
    case Filter(l, p) =>
      OptimizePreserves(env, l, c);
      var s := Meaning(env, l, c);
      forall x | x in s
        ensures Holds(env, OptimizePred(p).expr, Context(x, Rank(s, x), |s|))
          == Holds(env, p.expr, Context(x, Rank(s, x), |s|))
      {
        PredPreserves(env, p, Context(x, Rank(s, x), |s|));
      }
    case Step(ctx, axis, nodeTest, preds) => StepPreserves(env, ctx, axis, nodeTest, preds, c);
    case Equal(l, r) =>
      OptimizePreserves(env, l, c);
      OptimizePreserves(env, r, c);
      OptimizedType(l);
      OptimizedType(r);
    case Op(op, t, args) => ArgumentsPreserved(env, args, |args|, c);
    case _ =>
  }

  /** A predicate holds at the same positions. */
  lemma {:induction false} PredPreserves(env: Env, p: Pred, c: Context)
    requires WellTyped(p.expr)
    ensures Holds(env, OptimizePred(p).expr, c) == Holds(env, p.expr, c)
    decreases p, 0
  {
    OptimizePreserves(env, p.expr, c);
    OptimizedType(p.expr);
    RewriteKeeps(env, Optimize(p.expr), c);
  }

  lemma RewriteKeeps(env: Env, e: Expr, c: Context)
    ensures Holds(env, RewritePosition(e), c) == Holds(env, e, c)
  {
    if e.Equal? && e.left.Position? && TypeOf(e.right) == NumberType {
      assert Val(env, e, c) == Bool(NumbersEqual(Val(env, e.left, c), Val(env, e.right, c)));
      assert Val(env, e.left, c) == Num(c.position as real);
    }
  }

  lemma {:induction false} KeptPreserved(env: Env, p: Pred, s: seq<XNode>, n: nat)
    requires n <= |s| && WellTyped(p.expr)
    ensures Kept(env, OptimizePred(p).expr, s, n) == Kept(env, p.expr, s, n)
    decreases p, n + 1
  {
    hide Holds, OptimizePred;
    if n > 0 {
      KeptPreserved(env, p, s, n - 1);
      PredPreserves(env, p, Context(s[n - 1], n, |s|));
    }
  }

  lemma {:induction false} KeptAllPreserved(env: Env, preds: seq<Pred>, k: nat, s: seq<XNode>)
    requires k <= |preds| && forall p :: p in preds ==> WellTyped(p.expr)
    ensures k <= |OptimizePreds(preds, |preds|)|
    ensures KeptAll(env, OptimizePreds(preds, |preds|), k, s) == KeptAll(env, preds, k, s)
    decreases preds, k
  {
    hide Kept, OptimizePred, WellTyped;
    if k > 0 {
      KeptAllPreserved(env, preds, k - 1, s);
      OptimizedAt(preds, |preds|, k - 1);
      assert preds[k - 1] in preds;
      var before := KeptAll(env, preds, k - 1, s);
      KeptPreserved(env, preds[k - 1], before, |before|);
    }
  }

  lemma {:induction false} OptimizedAt(preds: seq<Pred>, k: nat, i: nat)
    requires i < k <= |preds|
    ensures OptimizePreds(preds, k)[i] == OptimizePred(preds[i])
    decreases k
  {
    hide OptimizePred;
    if i < k - 1 {
      OptimizedAt(preds, k - 1, i);
    }
  }

  lemma {:induction false} StepPreserves(env: Env, ctx: Option<Expr>, axis: Axis, nodeTest: NodeTest, preds: seq<Pred>,
                                         c: Context)
    requires WellTyped(Step(ctx, axis, nodeTest, preds))
    ensures Meaning(env, Optimize(Step(ctx, axis, nodeTest, preds)), c)
      == Meaning(env, Step(ctx, axis, nodeTest, preds), c)
    decreases Step(ctx, axis, nodeTest, preds), 0
  {
    hide FromOne;
    var o := if ctx.None? then None else Some(Optimize(ctx.value));
    var opreds := OptimizePreds(preds, |preds|);
    var e, plain := Step(ctx, axis, nodeTest, preds), Step(o, axis, nodeTest, opreds);
    if ctx.Some? {
      OptimizePreserves(env, ctx.value, c);
    }
    forall x ensures FromOne(env, axis, nodeTest, opreds, x) == FromOne(env, axis, nodeTest, preds, x) {
      FromOnePreserved(env, axis, nodeTest, preds, x);
    }
    assert Contexts(env, o, c) == Contexts(env, ctx, c);
    forall m ensures m in Meaning(env, plain, c) <==> m in Meaning(env, e, c) {
      InStep(env, plain, c, m);
      InStep(env, e, c, m);
    }
    assert Optimize(e) == MergeStep(plain);
    OptimizedPredsTyping(preds, |preds|);
    MergeStepPreserves(env, plain, c);
  }

  lemma MergeStepPreserves(env: Env, e: Expr, c: Context)
    requires e.Step? && IsPosinvStep(e.preds) ==> Invariant(e.preds)
    requires e.Step?
    ensures Meaning(env, MergeStep(e), c) == Meaning(env, e, c)
  {
    hide Meaning, Invariant;
    if MergeStep(e) != e {
      MergeKeepsMeaning(env, e.context.value.context, e.axis, e.nodeTest, e.preds, c);
    }
  }

  lemma {:induction false} FromOnePreserved(env: Env, axis: Axis, nodeTest: NodeTest, preds: seq<Pred>, x: XNode)
    requires forall p :: p in preds ==> WellTyped(p.expr)
    ensures FromOne(env, axis, nodeTest, OptimizePreds(preds, |preds|), x) == FromOne(env, axis, nodeTest, preds, x)
    decreases preds, |preds| + 1
  {
    hide Enumeration, KeptAll;
    if x.In(env.docs) {
      KeptAllPreserved(env, preds, |preds|, Enumeration(env.docs, axis, nodeTest, x));
    }
  }

  lemma {:induction false} ArgumentsPreserved(env: Env, args: seq<Arg>, k: nat, c: Context)
    requires k <= |args| && forall a :: a in args ==> WellTyped(a.expr)
    ensures k <= |OptimizeArgs(args, |args|)|
    ensures Arguments(env, OptimizeArgs(args, |args|), k, c) == Arguments(env, args, k, c)
    decreases args, k
  {
    hide WellTyped, OptimizeArg;
    if k > 0 {
      assert args[k - 1] in args;
      ArgumentsPreserved(env, args, k - 1, c);
      OptimizedArgAt(args, |args|, k - 1);
      ArgumentPreserved(env, args[k - 1], c);
    }
  }

  lemma {:induction false} OptimizedArgAt(args: seq<Arg>, k: nat, i: nat)
    requires i < k <= |args|
    ensures OptimizeArgs(args, k)[i] == OptimizeArg(args[i])
    decreases k
  {
    hide OptimizeArg;
    if i < k - 1 {
      OptimizedArgAt(args, k - 1, i);
    }
  }

  lemma {:induction false} ArgumentPreserved(env: Env, a: Arg, c: Context)
    requires WellTyped(a.expr)
    ensures ArgumentOf(env, OptimizeArg(a), c) == ArgumentOf(env, a, c)
    decreases a
  {
    OptimizePreserves(env, a.expr, c);
    OptimizedType(a.expr);
  }
}
