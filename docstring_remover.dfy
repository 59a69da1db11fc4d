/**
 * The docstring remover: a syntax-tree transformer that deletes the leading
 * string-constant statement of every module, class, function and async
 * function body, in place, and then descends into the children of every node.
 */
module DocstringRemover {
  import opened Wrappers
  import opened Syntax
  import opened Dicts
  import SymbolExtractor

  /** A body without its docstring; no placeholder is put in its place. */
  function DropDocstring(body: seq<Stmt>): (r: seq<Stmt>)
    ensures Docstring(body).Some? ==> r == body[1..]
    ensures Docstring(body).None? ==> r == body
  {
    if Docstring(body).Some? then body[1..] else body
  }

  /** The tree the remover leaves behind, as a value. */
  function Strip(s: Stmt): Stmt
    decreases s
  {
    match s
    case Decl(k, n, body) =>
      var kept := DropDocstring(body);
      Decl(k, n, seq(|kept|, i requires 0 <= i < |kept| => Strip(kept[i])))
    case Expr(_) => s
    case Other(body) => Other(seq(|body|, i requires 0 <= i < |body| => Strip(body[i])))
  }

  /** Every statement of a body, stripped, in order. */
  function StripAll(ss: seq<Stmt>): (r: seq<Stmt>)
    ensures |r| == |ss| && forall i :: 0 <= i < |ss| ==> r[i] == Strip(ss[i])
  {
    seq(|ss|, i requires 0 <= i < |ss| => Strip(ss[i]))
  }

  /** A body whose first two statements are both string-constant expressions. */
  predicate DoubleDocstring(body: seq<Stmt>)
  {
    |body| >= 2 && IsStringStatement(body[0]) && IsStringStatement(body[1])
  }

  /**
   * A stripped declaration keeps its kind and name; its body is the rest of
   * the original body after the docstring, each statement stripped, so it is
   * one statement shorter exactly when the declaration was documented; and it
   * has a docstring of its own exactly when the original body began with two
   * string statements.
   */
  lemma StripDeclaration(d: Stmt)
    requires d.Decl?
    ensures Strip(d).Decl? && Strip(d).kind == d.kind && Strip(d).name == d.name
    ensures Docstring(d.body).Some? ==> Strip(d).body == StripAll(d.body[1..])
    ensures Docstring(d.body).None? ==> Strip(d).body == StripAll(d.body)
    ensures |Strip(d).body| == if Docstring(d.body).Some? then |d.body| - 1 else |d.body|
    ensures Docstring(Strip(d).body).Some? <==> DoubleDocstring(d.body)
  {
    var kept := DropDocstring(d.body);
    assert Strip(d).body == StripAll(kept);
    if |kept| > 0 {
      assert IsStringStatement(Strip(kept[0])) <==> IsStringStatement(kept[0]);
    }
  }

  /** A string statement placed in front of a body adds no declaration to its pre-order. */
  lemma PreorderSkipsString(body: seq<Stmt>)
    requires |body| > 0 && IsStringStatement(body[0])
    ensures PreorderAll(body[1..]) == PreorderAll(body)
  {
    assert [body[0]][..0] == [];
    assert PreorderAll([body[0]]) == [];
    assert [body[0]] + body[1..] == body;
    PreorderAllAppend([body[0]], body[1..]);
  }

  /**
   * The remover deletes no declaration and reorders nothing: the pre-order of
   * the stripped tree is the pre-order of the original tree, each declaration
   * stripped.
   */
  lemma {:induction false} PreorderStrip(s: Stmt)
    ensures Preorder(Strip(s)) == StripAll(Preorder(s))
    decreases s, 1
  {
    match s
    case Decl(k, n, body) =>
      var kept := DropDocstring(body);
      assert Strip(s) == Decl(k, n, StripAll(kept));
      if Docstring(body).Some? {
        PreorderSkipsString(body);
        PreorderAllStrip(body[1..]);
      } else {
        PreorderAllStrip(body);
      }
      assert PreorderAll(kept) == PreorderAll(body);
      assert Preorder(Strip(s)) == [Strip(s)] + StripAll(PreorderAll(body));
    case Expr(_) =>
    case Other(body) =>
      assert Strip(s) == Other(StripAll(body));
      PreorderAllStrip(body);
  }

  lemma {:induction false} PreorderAllStrip(ss: seq<Stmt>)
    ensures PreorderAll(StripAll(ss)) == StripAll(PreorderAll(ss))
    decreases ss, 0
  {
    if ss != [] {
      var n := |ss| - 1;
      var t := StripAll(ss);
      assert t[..|t| - 1] == StripAll(ss[..n]);
      assert t[|t| - 1] == Strip(ss[n]);
      PreorderAllStrip(ss[..n]);
      PreorderStrip(ss[n]);
      assert PreorderAll(t) == StripAll(PreorderAll(ss[..n])) + StripAll(Preorder(ss[n]));
    }
  }

  /**
   * Declaration by declaration: the `i`-th declaration of the stripped tree is
   * the `i`-th declaration of the original, with the same kind and name, one
   * statement shorter when it was documented, and documented itself only when
   * the original began with two string statements.
   */
  lemma StripKeepsDeclarations(s: Stmt)
    ensures |Preorder(Strip(s))| == |Preorder(s)|
    ensures forall i :: 0 <= i < |Preorder(s)| ==>
      var d := Preorder(s)[i];
      var e := Preorder(Strip(s))[i];
      && d.Decl? && e.Decl? && e.kind == d.kind && e.name == d.name
      && |e.body| == (if Docstring(d.body).Some? then |d.body| - 1 else |d.body|)
      && (Docstring(e.body).Some? <==> DoubleDocstring(d.body))
  {
    PreorderStrip(s);
    PreorderOnlyDeclarations(s);
    forall i | 0 <= i < |Preorder(s)|
      ensures Preorder(s)[i].Decl?
    {
      assert Preorder(s)[i] in Preorder(s);
    }
    forall i | 0 <= i < |Preorder(s)|
      ensures Preorder(Strip(s))[i] == Strip(Preorder(s)[i])
    {
    }
    forall d | d in Preorder(s)
      ensures Strip(d).Decl? && Strip(d).kind == d.kind && Strip(d).name == d.name
      ensures |Strip(d).body| == (if Docstring(d.body).Some? then |d.body| - 1 else |d.body|)
      ensures Docstring(Strip(d).body).Some? <==> DoubleDocstring(d.body)
    {
      StripDeclaration(d);
    }
  }

  /**
   * The remover shortens exactly the declarations the extractor records: the
   * two visitors share one docstring test.
   */
  lemma RemoverShortensWhatExtractorRecords(current: string, s: Stmt)
    ensures |Preorder(Strip(s))| == |Preorder(s)|
    ensures forall i :: 0 <= i < |Preorder(s)| ==>
      var d, e := Preorder(s)[i], Preorder(Strip(s))[i];
      d.Decl? && e.Decl? && (|e.body| < |d.body| <==>
        SymbolExtractor.Records(current, d, SymbolExtractor.QualifiedName(current, d.kind, d.name)))
  {
    StripKeepsDeclarations(s);
  }

  /** No declaration of the tree has a docstring. */
  predicate Undocumented(s: Stmt)
  {
    forall i :: 0 <= i < |Preorder(s)| ==> Preorder(s)[i].Decl? && Docstring(Preorder(s)[i].body).None?
  }

  /** The remover changes a tree exactly when some declaration in it has a docstring. */
  lemma StripFixpoint(t: Stmt)
    ensures Strip(t) == t <==> Undocumented(t)
  {
    StripKeepsDeclarations(t);
    if Undocumented(t) {
      UndocumentedUnchanged(t);
    }
  }

  lemma {:induction false} UndocumentedUnchanged(t: Stmt)
    requires Undocumented(t)
    ensures Strip(t) == t
    decreases t, 1
  {
    match t
    case Decl(k, n, body) =>
      assert Preorder(t)[0] == t;
      assert Preorder(t) == [t] + PreorderAll(body);
      forall i | 0 <= i < |PreorderAll(body)|
        ensures PreorderAll(body)[i].Decl? && Docstring(PreorderAll(body)[i].body).None?
      {
        assert PreorderAll(body)[i] == Preorder(t)[i + 1];
      }
      UndocumentedAllUnchanged(body);
      assert Strip(t) == Decl(k, n, StripAll(body));
    case Expr(_) =>
    case Other(body) =>
      assert Preorder(t) == PreorderAll(body);
      UndocumentedAllUnchanged(body);
      assert Strip(t) == Other(StripAll(body));
  }

  lemma {:induction false} UndocumentedAllUnchanged(ss: seq<Stmt>)
    requires forall i :: 0 <= i < |PreorderAll(ss)| ==>
      PreorderAll(ss)[i].Decl? && Docstring(PreorderAll(ss)[i].body).None?
    ensures StripAll(ss) == ss
    decreases ss, 0
  {
    if ss != [] {
      var n := |ss| - 1;
      assert PreorderAll(ss) == PreorderAll(ss[..n]) + Preorder(ss[n]);
      var m := |PreorderAll(ss[..n])|;
      forall i | 0 <= i < |Preorder(ss[n])|
        ensures Preorder(ss[n])[i].Decl? && Docstring(Preorder(ss[n])[i].body).None?
      {
        assert Preorder(ss[n])[i] == PreorderAll(ss)[m + i];
      }
      forall i | 0 <= i < m
        ensures PreorderAll(ss[..n])[i].Decl? && Docstring(PreorderAll(ss[..n])[i].body).None?
      {
        assert PreorderAll(ss[..n])[i] == PreorderAll(ss)[i];
      }
      UndocumentedAllUnchanged(ss[..n]);
      UndocumentedUnchanged(ss[n]);
      assert StripAll(ss) == StripAll(ss[..n]) + [Strip(ss[n])];
      assert ss == ss[..n] + [ss[n]];
    }
  }

  /** No declaration of the tree begins its body with two string statements. */
  predicate NoDoubleDocstrings(s: Stmt)
  {
    forall i :: 0 <= i < |Preorder(s)| ==> Preorder(s)[i].Decl? && !DoubleDocstring(Preorder(s)[i].body)
  }

  /**
   * Removing docstrings twice is the same as removing them once exactly when
   * no declaration's body begins with two string statements; otherwise the
   * second pass deletes the second one.
   */
  lemma StripIdempotent(s: Stmt)
    ensures Strip(Strip(s)) == Strip(s) <==> NoDoubleDocstrings(s)
  {
    StripKeepsDeclarations(s);
    StripFixpoint(Strip(s));
  }

  /**
   * The two visitors are duals: extracting a stripped tree finds an entry
   * under `key` exactly when some declaration with that key began its body
   * with two string statements, so a tree without such declarations yields
   * no symbols at all once stripped.
   */
  lemma ExtractAfterStrip(current: string, s: Stmt, key: string)
    ensures Get(SymbolExtractor.ExtractStmt([], current, Strip(s)), key).Some? <==>
      exists i :: 0 <= i < |Preorder(s)| && Preorder(s)[i].Decl? && DoubleDocstring(Preorder(s)[i].body)
        && SymbolExtractor.QualifiedName(current, Preorder(s)[i].kind, Preorder(s)[i].name) == key
  {
    StripKeepsDeclarations(s);
    SymbolExtractor.ExtractedEntry(current, Strip(s), key);
    var ds := Preorder(s);
    var es := Preorder(Strip(s));
    forall i | 0 <= i < |ds|
      ensures SymbolExtractor.Records(current, es[i], key) <==>
        DoubleDocstring(ds[i].body) && SymbolExtractor.QualifiedName(current, ds[i].kind, ds[i].name) == key
    {
    }
  }

  lemma StrippedTreeHasNoSymbols(current: string, s: Stmt)
    requires NoDoubleDocstrings(s)
    ensures SymbolExtractor.ExtractStmt([], current, Strip(s)) == []
  {
    var syms := SymbolExtractor.ExtractStmt([], current, Strip(s));
    if syms != [] {
      var key := syms[0].0;
      assert key in Keys(syms);
      ExtractAfterStrip(current, s, key);
    }
  }

  /** A body holding only a docstring is left empty; no placeholder statement is inserted. */
  lemma OnlyDocstringLeavesEmptyBody(k: DeclKind, n: string, doc: string)
    ensures Strip(Decl(k, n, [Expr(StrConstant(doc))])) == Decl(k, n, [])
  {
  }

  /** `visit` on a node: remove the docstring of a declaration, then visit every child. */
  method Visit(node: Node)
    requires node.Valid()
    modifies node.Repr
    ensures node.Valid() && node.Repr == old(node.Repr)
    ensures node.model == Strip(old(node.model))
    decreases node.Repr, 2
  {
    ghost var kids := Children(node.model);
    if node.tag.DeclTag? && node.LeadingDocstring().Some? {
      node.DropFirst();
      kids := kids[1..];
    }
    assert node.tag.DeclTag? ==> kids == DropDocstring(Children(node.model));
    assert forall k :: 0 <= k < |node.body| ==> node.body[k].model == kids[k];
    VisitChildren(node);
    node.SetModel(Assemble(node.tag, StripAll(kids)));
  }

  /** `generic_visit`: visit each child of the node in turn. */
  method VisitChildren(node: Node)
    requires node.ChildrenValid()
    modifies node.Repr
    ensures node.ChildrenValid() && node.Repr == old(node.Repr) && node.body == old(node.body)
    ensures node.model == old(node.model)
    ensures forall k :: 0 <= k < |node.body| ==> node.body[k].model == Strip(old(node.body[k].model))
    decreases node.Repr, 1
  {
    var b := node.body;
    ghost var kids := seq(|b|, k requires 0 <= k < |b| reads b => b[k].model);
    var i := 0;
    while i < |b|
      invariant 0 <= i <= |b| && node.ChildrenValid() && node.body == b && node.Repr == old(node.Repr)
      invariant node.model == old(node.model)
      invariant forall k :: 0 <= k < i ==> b[k].model == Strip(kids[k])
      invariant forall k :: i <= k < |b| ==> b[k].model == kids[k]
    {
      VisitChild(node, i);
      i := i + 1;
    }
  }

  /** One step of `generic_visit`: visit child `i`; the other children are untouched. */
  method VisitChild(node: Node, i: nat)
    requires node.ChildrenValid() && i < |node.body|
    modifies node.body[i].Repr
    ensures node.ChildrenValid() && node.Repr == old(node.Repr) && node.body == old(node.body)
    ensures node.model == old(node.model)
    ensures node.body[i].model == Strip(old(node.body[i].model))
    ensures forall k :: 0 <= k < |node.body| && k != i ==> node.body[k].model == old(node.body[k].model)
    decreases node.Repr, 0
  {
    var c := node.body[i];
    assert c.Valid() && c.Repr <= node.Repr && node !in c.Repr;
    assert forall k :: 0 <= k < |node.body| && k != i ==> node.body[k].Repr !! c.Repr;
    Visit(c);
  }
}
