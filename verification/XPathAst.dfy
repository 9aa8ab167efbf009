/** Expressions of the XPath engine: node-set expressions node by node, scalar operations as an algebra over the values
    of their arguments. */
module XPathAst {
  import opened Bytes
  import opened XPathTree
  import opened XPathAxes

  /** Numbers are reals or not a number; whole numbers are positions. */
  datatype Value =
    | Num(number: real) | NotANumber | Str(text: bytes) | Bool(truth: bool)
    | First(node: Option<XNode>) | Nodes(nodes: set<XNode>)

  datatype Option<T> = None | Some(value: T)

  datatype Type = NodeSetType | NumberType | StringType | BooleanType

  /** How an operation uses an argument that is a node set: whether it is empty, its first node, or all of it. */
  datatype Use = AsBoolean | AsFirst | AsSet

  /** `predicate_t`, the classification of the right-hand side. */
  datatype Tag = Default | Posinv | Constant | ConstantOne

  datatype Expr =
    | Union(left: Expr, right: Expr)
    | Filter(left: Expr, pred: Pred)
    | Id(arg: Expr)
    | Step(context: Option<Expr>, axis: Axis, nodeTest: NodeTest, preds: seq<Pred>)
    | Root
    | SetVariable(name: bytes)
    | Position
    | Last
    | Number(value: real)
    | Text(text: bytes)
    | ScalarVariable(name: bytes, vtype: Type)
    | Equal(left: Expr, right: Expr)
    | Op(op: nat, otype: Type, args: seq<Arg>)

  datatype Pred = Pred(expr: Expr, tag: Tag)

  datatype Arg = Arg(use: Use, expr: Expr)

  /** `rettype()` */
  function TypeOf(e: Expr): Type {
    match e
    case Union(_, _) | Filter(_, _) | Id(_) | Step(_, _, _, _) | Root | SetVariable(_) => NodeSetType
    case Position | Last | Number(_) => NumberType
    case Text(_) => StringType
    case ScalarVariable(_, t) => t
    case Equal(_, _) => BooleanType
    case Op(_, t, _) => t
  }

  predicate IsSet(e: Expr) {
    TypeOf(e).NodeSetType?
  }

  /** What the parser builds: contexts, operands of `|` and the left of a filter are node sets, operations are not. */
  predicate WellTyped(e: Expr) {
    match e
    case Union(l, r) => IsSet(l) && IsSet(r) && WellTyped(l) && WellTyped(r)
    case Filter(l, p) => IsSet(l) && WellTyped(l) && WellTyped(p.expr)
    case Id(a) => WellTyped(a)
    case Step(c, axis, _, preds) =>
      (c.Some? ==> IsSet(c.value) && WellTyped(c.value)) && forall p :: p in preds ==> WellTyped(p.expr)
    case ScalarVariable(_, t) => !t.NodeSetType?
    case Equal(l, r) => WellTyped(l) && WellTyped(r)
    case Op(_, t, args) => !t.NodeSetType? && forall a :: a in args ==> WellTyped(a.expr)
    case _ => true
  }

  /** `is_posinv_expr` */
  predicate IsPosinvExpr(e: Expr) {
    match e
    case Position | Last => false
    case Text(_) | Number(_) | ScalarVariable(_, _) | SetVariable(_) => true
    case Step(_, _, _, _) | Root => true
    case Filter(_, _) => true
    case Union(l, r) => IsPosinvExpr(l) && IsPosinvExpr(r)
    case Id(a) => IsPosinvExpr(a)
    case Equal(l, r) => IsPosinvExpr(l) && IsPosinvExpr(r)
    case Op(_, _, args) => forall a :: a in args ==> IsPosinvExpr(a.expr)
  }

  /** The classification in `optimize_self`. */
  function Classify(e: Expr): Tag {
    if e == Number(1.0) then ConstantOne
    else if TypeOf(e) == NumberType && (e.Number? || e.ScalarVariable? || e.Last?) then Constant
    else if TypeOf(e) != NumberType && IsPosinvExpr(e) then Posinv
    else Default
  }

  predicate TagOk(p: Pred) {
    p.tag == Default || p.tag == Classify(p.expr)
  }

  /** Every classification in the tree is right, if it has been made. */
  predicate WellTagged(e: Expr) {
    match e
    case Union(l, r) => WellTagged(l) && WellTagged(r)
    case Filter(l, p) => WellTagged(l) && WellTagged(p.expr) && TagOk(p)
    case Id(a) => WellTagged(a)
    case Step(c, _, _, preds) =>
      (c.Some? ==> WellTagged(c.value)) && forall p :: p in preds ==> WellTagged(p.expr) && TagOk(p)
    case Equal(l, r) => WellTagged(l) && WellTagged(r)
    case Op(_, _, args) => forall a :: a in args ==> WellTagged(a.expr)
    case _ => true
  }
}
