/**
 * The part of a Python syntax tree that the docstring extractor and the
 * docstring remover look at: module, class, function and async-function
 * declarations with their bodies, expression statements whose value may be a
 * constant, and every other statement as a container of child statements
 * (the bodies of `if`, `for`, `with`, `try`, ... flattened in source order).
 *
 * `Stmt` is the tree as a value.  `Node` is the live tree the visitors walk:
 * the remover reassigns `body` on it in place, the extractor only reads it.
 */
module Syntax {
  import opened Wrappers

  /** The four node kinds that have a `visit_*` method in both visitors. */
  datatype DeclKind = Module | ClassDef | FunctionDef | AsyncFunctionDef

  /** The value of an expression statement, as far as the docstring test sees it. */
  datatype Expression =
    | StrConstant(s: string)   // ast.Constant whose value is a str
    | OtherConstant            // ast.Constant holding an int, bytes, None, ...
    | NonConstant              // a call, a name, an operator, ...

  datatype Stmt =
    | Decl(kind: DeclKind, name: string, body: seq<Stmt>)   // a Module has the name ""
    | Expr(value: Expression)
    | Other(body: seq<Stmt>)

  /** The child statements the generic visit descends into. */
  function Children(s: Stmt): seq<Stmt>
  {
    if s.Expr? then [] else s.body
  }

  /** `isinstance(stmt, ast.Expr) and isinstance(stmt.value, ast.Constant) and isinstance(stmt.value.value, str)` */
  predicate IsStringStatement(s: Stmt)
  {
    s.Expr? && s.value.StrConstant?
  }

  /** The docstring of a body: its first statement, when that is a string-constant expression. */
  function Docstring(body: seq<Stmt>): (r: Option<string>)
    ensures r.Some? <==> |body| > 0 && IsStringStatement(body[0])
    ensures r.Some? ==> body[0] == Expr(StrConstant(r.value))
  {
    if |body| > 0 && IsStringStatement(body[0]) then Some(body[0].value.s) else None
  }

  /** Every declaration of the tree, in the pre-order in which the visitors reach them. */
  function Preorder(s: Stmt): (r: seq<Stmt>)
    decreases s
  {
    match s
    case Decl(_, _, body) => [s] + PreorderAll(body)
    case Expr(_) => []
    case Other(body) => PreorderAll(body)
  }

  function PreorderAll(ss: seq<Stmt>): (r: seq<Stmt>)
    decreases ss
  {
    if ss == [] then [] else PreorderAll(ss[..|ss| - 1]) + Preorder(ss[|ss| - 1])
  }

  lemma {:induction false} PreorderOnlyDeclarations(s: Stmt)
    ensures forall d :: d in Preorder(s) ==> d.Decl?
    decreases s, 1
  {
    match s
    case Decl(_, _, body) => PreorderAllOnlyDeclarations(body);
    case Expr(_) =>
    case Other(body) => PreorderAllOnlyDeclarations(body);
  }

  lemma {:induction false} PreorderAllOnlyDeclarations(ss: seq<Stmt>)
    ensures forall d :: d in PreorderAll(ss) ==> d.Decl?
    decreases ss, 0
  {
    if ss != [] {
      PreorderAllOnlyDeclarations(ss[..|ss| - 1]);
      PreorderOnlyDeclarations(ss[|ss| - 1]);
    }
  }

  lemma {:induction false} PreorderAllAppend(a: seq<Stmt>, b: seq<Stmt>)
    ensures PreorderAll(a + b) == PreorderAll(a) + PreorderAll(b)
    decreases |b|
  {
    if b == [] {
      assert a + b == a;
    } else {
      var n := |b| - 1;
      assert (a + b)[..|a + b| - 1] == a + b[..n];
      assert (a + b)[|a + b| - 1] == b[n];
      PreorderAllAppend(a, b[..n]);
    }
  }

  /** The node kinds as the live tree stores them. */
  datatype Tag = DeclTag(kind: DeclKind, name: string) | ExprTag(value: Expression) | OtherTag

  function TagOf(s: Stmt): Tag
  {
    match s
    case Decl(k, n, _) => DeclTag(k, n)
    case Expr(v) => ExprTag(v)
    case Other(_) => OtherTag
  }

  /** The statement with tag `t` and children `cs`; the inverse of (TagOf, Children). */
  function Assemble(t: Tag, cs: seq<Stmt>): (s: Stmt)
    requires t.ExprTag? ==> cs == []
    ensures TagOf(s) == t && Children(s) == cs
  {
    match t
    case DeclTag(k, n) => Decl(k, n, cs)
    case ExprTag(v) => Expr(v)
    case OtherTag => Other(cs)
  }

  /**
   * A node of the live syntax tree.  `model` is the subtree it roots, as a
   * value; `Repr` is the set of nodes of that subtree.  Subtrees of distinct
   * children do not share nodes, as in a tree built by the parser.
   */
  class Node {
    const tag: Tag
    var body: seq<Node>
    ghost var model: Stmt
    ghost var Repr: set<Node>

    /** The object invariant: this node roots the subtree `model`. */
    ghost predicate Valid()
      reads this, Repr
      ensures Valid() ==> this in Repr && TagOf(model) == tag
      decreases Repr, 1
    {
      && ChildrenValid()
      && TagOf(model) == tag
      && |body| == |Children(model)|
      && (forall i :: 0 <= i < |body| ==> body[i].model == Children(model)[i])
    }

    /** Every child is a valid subtree inside `Repr`, and no two children share a node. */
    ghost predicate ChildrenValid()
      reads this, Repr
      ensures ChildrenValid() ==> this in Repr
      decreases Repr, 0
    {
      && this in Repr
      && (forall i :: 0 <= i < |body| ==>
            && body[i] in Repr
            && body[i].Repr <= Repr
            && this !in body[i].Repr
            && body[i].Valid())
      && (forall i, j :: 0 <= i < j < |body| ==> body[i].Repr !! body[j].Repr)
    }

    constructor (t: Tag, children: seq<Node>, ghost m: Stmt, ghost childNodes: set<Node>)
      requires TagOf(m) == t && |children| == |Children(m)|
      requires forall i :: 0 <= i < |children| ==>
        children[i].Valid() && children[i].model == Children(m)[i] && children[i].Repr <= childNodes
      requires forall i, j :: 0 <= i < j < |children| ==> children[i].Repr !! children[j].Repr
      ensures Valid() && model == m && body == children
      ensures Repr == {this} + childNodes
    {
      tag := t;
      body := children;
      model := m;
      Repr := {this} + childNodes;
    }

    /** `node.body = node.body[1:]`: the first child is unlinked; the others keep their subtrees. */
    method DropFirst()
      requires ChildrenValid() && |body| > 0
      modifies this
      ensures ChildrenValid() && body == old(body)[1..] && Repr == old(Repr) && model == old(model)
    {
      body := body[1..];
    }

    /** Record that the node now roots `m`, whose children are those of the live node. */
    ghost method SetModel(m: Stmt)
      requires ChildrenValid() && TagOf(m) == tag && |body| == |Children(m)|
      requires forall i :: 0 <= i < |body| ==> body[i].model == Children(m)[i]
      modifies this
      ensures Valid() && model == m && body == old(body) && Repr == old(Repr)
    {
      model := m;
    }

    /** The docstring test of both visitors, read off the live tree. */
    function LeadingDocstring(): (r: Option<string>)
      reads this, Repr
      requires Valid()
      ensures r == Docstring(Children(model))
    {
      assert ChildrenValid();
      assert |body| > 0 ==> body[0] in Repr && body[0].Valid();
      if |body| > 0 && body[0].tag.ExprTag? && body[0].tag.value.StrConstant?
      then Some(body[0].tag.value.s)
      else None
    }
  }

  /** A fresh live tree for `s`, standing for what the parser hands the visitors. */
  method Build(s: Stmt) returns (n: Node)
    ensures n.Valid() && n.model == s && fresh(n.Repr)
    decreases s
  {
    var cs := Children(s);
    var nodes: seq<Node> := [];
    ghost var reprs: set<Node> := {};
    var i := 0;
    while i < |cs|
      invariant 0 <= i <= |cs| && |nodes| == i
      invariant fresh(reprs)
      invariant forall k :: 0 <= k < i ==>
        nodes[k].Valid() && nodes[k].model == cs[k] && nodes[k].Repr <= reprs
      invariant forall k, j :: 0 <= k < j < i ==> nodes[k].Repr !! nodes[j].Repr
    {
      var child := Build(cs[i]);
      nodes := nodes + [child];
      reprs := reprs + child.Repr;
      i := i + 1;
    }
    n := new Node(TagOf(s), nodes, s, reprs);
  }
}
