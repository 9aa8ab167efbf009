/** Node tests, as sections 2.3 and 5 of XPath 1.0 have them: which nodes on its axis a step without predicates
    selects. */
module XPathNodeTests {
  import opened Bytes
  import opened XPathTree
  import opened XPathAxes
  import opened XPathAst
  import opened XPathMeaning
  import opened XPathOptimize

  /** The nodes that `axis::test` selects from `x`. */
  ghost function Selection(env: Env, axis: Axis, test: NodeTest, x: XNode): set<XNode> {
    Meaning(env, Step(None, axis, test, []), Context(x, 1, 1))
  }

  /** The node at `p` is reached from `x`, whatever the test. */
  ghost predicate Reached(env: Env, axis: Axis, x: XNode, p: path) {
    x.In(env.docs) && Valid(env.docs, p) && p[0] == x.Home()[0] && Related(axis, x, p)
  }

  lemma SelectionIs(env: Env, axis: Axis, test: NodeTest, x: XNode, m: XNode)
    ensures m in Selection(env, axis, test, x) <==> Selected(env.docs, axis, test, x, m)
  {
    hide Selected, FromOne, Meaning;
    var e, c := Step(None, axis, test, []), Context(x, 1, 1);
    InStep(env, e, c, m);
    NoPreds(env, axis, test, x, m);
  }

  lemma NodeSelected(env: Env, axis: Axis, test: NodeTest, x: XNode, p: path)
    ensures Elem(p) in Selection(env, axis, test, x)
      <==> Reached(env, axis, x, p) && PassesNode(Subtree(env.docs, p), test)
  {
    hide Selection, Related, PassesNode;
    SelectionIs(env, axis, test, x, Elem(p));
  }

  /** `node()` selects every node on the axis, `comment()` the comments, `text()` character data of either kind, `*` the
      elements, and `processing-instruction()` the processing instructions. */
  lemma TypeTests(env: Env, axis: Axis, x: XNode, p: path)
    requires Valid(env.docs, p)
    ensures var kind, reached := Subtree(env.docs, p).kind, Reached(env, axis, x, p);
      && (Elem(p) in Selection(env, axis, TypeNode, x) <==> reached)
      && (Elem(p) in Selection(env, axis, TypeComment, x) <==> reached && kind == Kind.Comment)
      && (Elem(p) in Selection(env, axis, TypeText, x) <==> reached && kind in {Kind.Pcdata, Kind.Cdata})
      && (Elem(p) in Selection(env, axis, TypePi, x) <==> reached && kind == Kind.Pi)
      && (Elem(p) in Selection(env, axis, All, x) <==> reached && kind == Kind.Element)
  {
    hide Selection, Reached, Subtree;
    NodeSelected(env, axis, TypeNode, x, p);
    NodeSelected(env, axis, TypeComment, x, p);
    NodeSelected(env, axis, TypeText, x, p);
    NodeSelected(env, axis, TypePi, x, p);
    NodeSelected(env, axis, All, x, p);
  }

  /** A name selects the elements of that name, `processing-instruction("name")` the processing instructions, and `p:*`
      the elements whose names begin with the prefix and its colon, which are parts of `prefix` here. Names are not
      empty. */
  lemma NameTests(env: Env, axis: Axis, x: XNode, p: path, name: bytes, prefix: bytes)
    requires Valid(env.docs, p) && name != [] && prefix != []
    ensures var t, reached := Subtree(env.docs, p), Reached(env, axis, x, p);
      && (Elem(p) in Selection(env, axis, Name(name), x) <==> reached && t.kind == Kind.Element && t.name == name)
      && (Elem(p) in Selection(env, axis, PiNamed(name), x) <==> reached && t.kind == Kind.Pi && t.name == name)
      && (Elem(p) in Selection(env, axis, AllInNamespace(prefix), x)
          <==> reached && t.kind == Kind.Element && exists local: bytes :: t.name == prefix + local)
  {
    hide Selection, Reached, Subtree;
    NodeSelected(env, axis, Name(name), x, p);
    NodeSelected(env, axis, PiNamed(name), x, p);
    NodeSelected(env, axis, AllInNamespace(prefix), x, p);
    StartsWithIff(Subtree(env.docs, p).name, prefix);
  }

  /** No node has an empty name, so nothing is selected by one. */
  lemma EmptyNamesSelectNothing(env: Env, axis: Axis, x: XNode, p: path)
    ensures Elem(p) !in Selection(env, axis, Name([]), x) && Elem(p) !in Selection(env, axis, PiNamed([]), x)
  {
    hide Selection, Reached, Subtree;
    NodeSelected(env, axis, Name([]), x, p);
    NodeSelected(env, axis, PiNamed([]), x, p);
  }

  lemma StartsWithIff(s: bytes, prefix: bytes)
    ensures StartsWith(s, prefix) <==> exists rest: bytes :: s == prefix + rest
  {
    if StartsWith(s, prefix) {
      assert s == prefix + s[|prefix|..];
    }
  }

  /** `xmlns` and `xmlns:p` declare namespaces and are no attributes. */
  ghost predicate NamespaceDeclaration(name: bytes) {
    name == "xmlns" || exists p: bytes :: name == "xmlns:" + p
  }

  lemma DeclarationsAreNoAttributes(name: bytes)
    ensures IsXPathAttribute(name) <==> !NamespaceDeclaration(name)
  {
    StartsWithIff(name, "xmlns");
    if StartsWith(name, "xmlns") && |name| > 5 && name[5] == ':' {
      assert name == "xmlns:" + name[6..];
    }
    if p: bytes :| name == "xmlns:" + p {
      assert name[..5] == "xmlns" && name[5] == ':';
    }
  }

  /** The attribute has the name that the test asks for, if it asks for one. */
  ghost predicate Fits(name: bytes, test: NodeTest) {
    match test
    case TypeNode => true
    case All => true
    case Name(n) => name == n
    case AllInNamespace(prefix) => exists local: bytes :: name == prefix + local
    case _ => false
  }

  /** The attribute axis holds the attributes of an element, declarations of namespaces left out. Of the other axes only
      those that hold the context node itself hold an attribute, and there `node()` alone selects it. */
  lemma AttributesSelected(env: Env, axis: Axis, test: NodeTest, x: XNode, p: path, k: nat)
    requires x.In(env.docs) && Attr(p, k).In(env.docs)
    ensures Attr(p, k) in Selection(env, axis, test, x)
      <==> var name := Subtree(env.docs, p).attributes[k];
           && !NamespaceDeclaration(name)
           && if axis == Attribute then x == Elem(p) && Fits(name, test)
              else x == Attr(p, k) && test == TypeNode && axis in {Self, AncestorOrSelf, DescendantOrSelf}
  {
    hide Selection, Subtree, NamespaceDeclaration, IsXPathAttribute;
    var name := Subtree(env.docs, p).attributes[k];
    SelectionIs(env, axis, test, x, Attr(p, k));
    DeclarationsAreNoAttributes(name);
    if test.AllInNamespace? { StartsWithIff(name, test.prefix); }
  }

  /** What the tests by kind say of `m`. */
  ghost predicate Classified(env: Env, axis: Axis, x: XNode, m: XNode) {
    if m.Attr? then
      forall test :: test in {TypeText, TypeComment, TypePi} ==> m !in Selection(env, axis, test, x)
    else if !Valid(env.docs, m.node) then
      forall test :: test in {All, TypeText, TypeComment, TypePi, TypeNode} ==> m !in Selection(env, axis, test, x)
    else
      var kind, reached := Subtree(env.docs, m.node).kind, Reached(env, axis, x, m.node);
      && (m in Selection(env, axis, TypeNode, x) <==> reached)
      && (m in Selection(env, axis, TypeComment, x) <==> reached && kind == Kind.Comment)
      && (m in Selection(env, axis, TypeText, x) <==> reached && kind in {Kind.Pcdata, Kind.Cdata})
      && (m in Selection(env, axis, TypePi, x) <==> reached && kind == Kind.Pi)
      && (m in Selection(env, axis, All, x) <==> reached && kind == Kind.Element)
  }

  lemma Classify(env: Env, axis: Axis, x: XNode, m: XNode)
    ensures Classified(env, axis, x, m)
  {
    hide Selection, Subtree, Reached, Valid, Related;
    if m.Elem? && Valid(env.docs, m.node) {
      TypeTests(env, axis, x, m.node);
    } else {
      forall test | test in {All, TypeText, TypeComment, TypePi, TypeNode} && (m.Elem? || test !in {All, TypeNode})
        ensures m !in Selection(env, axis, test, x)
      {
        SelectionIs(env, axis, test, x, m);
      }
    }
  }

  function OfNodes(s: set<XNode>): set<XNode> {
    set m | m in s && m.Elem?
  }

  /** The documents, declarations and document types on the axis, which no other test selects. */
  ghost function Unnamed(env: Env, axis: Axis, x: XNode): set<XNode> {
    set m | m in Selection(env, axis, TypeNode, x) && m.Elem? && Valid(env.docs, m.node)
      && Subtree(env.docs, m.node).kind in {Kind.Document, Kind.Declaration, Kind.Doctype}
  }

  /** `node()` is the disjoint union of the four kinds that have a test of their own and of those that have none. */
  lemma NodeIsDisjointUnion(env: Env, axis: Axis, x: XNode)
    ensures var parts := [OfNodes(Selection(env, axis, All, x)), Selection(env, axis, TypeText, x),
                          Selection(env, axis, TypeComment, x), Selection(env, axis, TypePi, x), Unnamed(env, axis, x)];
      && (forall m ::
        m in OfNodes(Selection(env, axis, TypeNode, x)) <==> exists i :: 0 <= i < |parts| && m in parts[i])
      && (forall i, j :: 0 <= i < j < |parts| ==> parts[i] !! parts[j])
  {
    hide Selection, Subtree, Reached, Valid;
    var elements, texts := OfNodes(Selection(env, axis, All, x)), Selection(env, axis, TypeText, x);
    var comments, pis, others := Selection(env, axis, TypeComment, x), Selection(env, axis, TypePi, x),
      Unnamed(env, axis, x);
    var parts := [elements, texts, comments, pis, others];
    forall m: XNode
      ensures m in OfNodes(Selection(env, axis, TypeNode, x)) <==> exists i :: 0 <= i < 5 && m in parts[i] {
      Classify(env, axis, x, m);
      assert m in elements || m in texts || m in comments || m in pis || m in others
        ==> exists i :: 0 <= i < 5 && m in parts[i] by {
        assert parts[0] == elements && parts[1] == texts && parts[2] == comments && parts[3] == pis
          && parts[4] == others;
      }
    }
    forall i, j, m | 0 <= i < j < 5 && m in parts[i] ensures m !in parts[j] {
      Classify(env, axis, x, m);
    }
  }

  /** `/` is the ancestor of the context node, or the context node itself, that has no parent. */
  lemma RootIsTopAncestor(env: Env, x: XNode, m: XNode)
    requires x.In(env.docs)
    ensures m in Meaning(env, Root, Context(x, 1, 1))
      <==> m.Elem? && m.node != [] && m in Selection(env, AncestorOrSelf, TypeNode, x) && Parent(m.node) == Null
  {
    hide Selection, Subtree;
    var root := [x.Home()[0]];
    PrefixValid(env.docs, x.Home(), 1);
    assert x.Home()[..1] == root;
    if m.Elem? {
      NodeSelected(env, AncestorOrSelf, TypeNode, x, m.node);
      if |m.node| == 1 && m.node[0] == x.Home()[0] { assert m.node == root; }
    }
  }
}
