/**
 * The symbol extractor: a read-only visitor that records the docstring of
 * every module, class, function and async function of a file under its
 * qualified name, and the per-project loop that merges the files' records.
 */
module SymbolExtractor {
  import opened Wrappers
  import opened Strings
  import opened Dicts
  import opened Syntax

  /** `_get_module_name` on a path already made relative to the project, with `/` as separator. */
  function ModuleName(relPath: string): string
  {
    var noExt := if EndsWith(relPath, ".py") then relPath[..|relPath| - 3] else relPath;
    var dotted := Replace(noExt, "/", ".");
    if EndsWith(dotted, ".__init__") then dotted[..|dotted| - 9] else dotted
  }

  function DotForSlash(c: char): char
  {
    if c == '/' then '.' else c
  }

  /** `dotted` ends in `.__init__` exactly when `path`, before the dotting, ends in `.__init__` or `/__init__`. */
  lemma InitSuffix(path: string, dotted: string)
    requires |dotted| == |path| && forall i :: 0 <= i < |path| ==> dotted[i] == DotForSlash(path[i])
    ensures var n := |path|;
      EndsWith(dotted, ".__init__") <==> n >= 9 && DotForSlash(path[n - 9]) == '.' && path[n - 8..] == "__init__"
  {
    var n := |path|;
    if n >= 9 {
      if EndsWith(dotted, ".__init__") {
        forall j | 0 <= j < 8 ensures path[n - 8 + j] == "__init__"[j] {
          assert dotted[n - 8 + j] == ".__init__"[j + 1];
        }
        assert path[n - 8..] == "__init__";
      }
      if DotForSlash(path[n - 9]) == '.' && path[n - 8..] == "__init__" {
        forall j | 0 <= j < 9 ensures dotted[n - 9 + j] == ".__init__"[j] {
          if j > 0 {
            assert path[n - 9 + j] == path[n - 8..][j - 1];
          }
        }
        assert dotted[n - 9..] == ".__init__";
      }
    }
  }

  /** A trailing `.py` goes, every `/` becomes `.`, and a trailing `.__init__` (or `/__init__`) goes. */
  lemma ModuleNameShape(relPath: string)
    ensures var py := EndsWith(relPath, ".py");
      var n := |relPath| - (if py then 3 else 0);
      var init := n >= 9 && DotForSlash(relPath[n - 9]) == '.' && relPath[n - 8..n] == "__init__";
      var r := ModuleName(relPath);
      && |r| == n - (if init then 9 else 0)
      && (forall i :: 0 <= i < |r| ==> r[i] == DotForSlash(relPath[i]))
  {
    var noExt := if EndsWith(relPath, ".py") then relPath[..|relPath| - 3] else relPath;
    var n := |noExt|;
    ReplaceChar(noExt, "/"[0], "."[0]);
    var dotted := Replace(noExt, "/", ".");
    InitSuffix(noExt, dotted);
    if n >= 9 {
      assert noExt[n - 8..] == relPath[n - 8..n];
      assert noExt[n - 9] == relPath[n - 9];
    }
  }

  lemma NoSlashInModuleName(relPath: string)
    ensures '/' !in ModuleName(relPath)
  {
    ModuleNameShape(relPath);
    var r := ModuleName(relPath);
    assert forall i :: 0 <= i < |r| ==> r[i] != '/';
  }

  /** A plain module: the extension goes and the separator becomes a dot. */
  lemma ModuleNameOfFile()
    ensures ModuleName("x/y.py") == "x.y"
  {
    ModuleNameShape("x/y.py");
  }

  /**
   * A file at the top of the project keeps its stem as its module name,
   * unless the stem itself ends in `.__init__`.
   */
  lemma ModuleNameOfTopLevelFile(stem: string)
    requires '/' !in stem
    ensures !EndsWith(stem, ".__init__") ==> ModuleName(stem + ".py") == stem
  {
    var p := stem + ".py";
    var n := |stem|;
    ModuleNameShape(p);
    assert EndsWith(p, ".py") && p[..n] == stem;
    if n >= 9 && DotForSlash(p[n - 9]) == '.' && p[n - 8..n] == "__init__" {
      forall j | 0 <= j < 9 ensures stem[n - 9 + j] == ".__init__"[j] {
        if j > 0 {
          assert stem[n - 9 + j] == p[n - 8..n][j - 1];
        }
      }
      assert stem[n - 9..] == ".__init__";
    }
  }

  /** So a top-level `__init__.py` is the module `__init__`: no dot precedes `__init__`. */
  lemma ModuleNameOfTopInit()
    ensures ModuleName("__init__.py") == "__init__"
  {
    ModuleNameOfTopLevelFile("__init__");
    assert "__init__" + ".py" == "__init__.py";
  }

  /** The dictionary key of a declaration: the module name itself, or `module + "." + name` at any depth. */
  function QualifiedName(current: string, kind: DeclKind, name: string): (r: string)
    ensures kind == Module ==> r == current
    ensures kind != Module ==> r == current + "." + name
    ensures StartsWith(r, current)
    ensures kind != Module && '.' !in name ==> LastSegment(r) == name
  {
    if kind == Module then current
    else
      assert (current + "." + name)[..|current|] == current;
      if '.' !in name then LastSegmentOfDotted(current, name); current + "." + name
      else current + "." + name
  }

  /**
   * Within one module two declarations share a key exactly when both are the module,
   * or neither is and they have the same name: nesting does not tell them apart.
   */
  lemma QualifiedNameCollides(current: string, k1: DeclKind, n1: string, k2: DeclKind, n2: string)
    ensures QualifiedName(current, k1, n1) == QualifiedName(current, k2, n2) <==>
      (k1 == Module && k2 == Module) || (k1 != Module && k2 != Module && n1 == n2)
  {
    if k1 != Module && k2 != Module {
      SamePrefix(current + ".", n1, n2);
      assert current + "." + n1 == (current + ".") + n1;
      assert current + "." + n2 == (current + ".") + n2;
    }
  }

  /** Write the docstring, if there is one, under `key`. */
  function Record(d: Dict, key: string, doc: Option<string>): Dict
  {
    if doc.Some? then Put(d, key, doc.value) else d
  }

  /** The symbols after visiting `s` with `d` already recorded: the visitors' recursion, as a value. */
  function ExtractStmt(d: Dict, current: string, s: Stmt): Dict
    decreases s, 1
  {
    match s
    case Decl(k, n, body) => ExtractBody(Record(d, QualifiedName(current, k, n), Docstring(body)), current, body)
    case Expr(_) => d
    case Other(body) => ExtractBody(d, current, body)
  }

  /** `generic_visit` over a body: each statement in turn. */
  function ExtractBody(d: Dict, current: string, ss: seq<Stmt>): Dict
    decreases ss, 0
  {
    if ss == [] then d else ExtractStmt(ExtractBody(d, current, ss[..|ss| - 1]), current, ss[|ss| - 1])
  }

  /** Does declaration `decl` produce an entry under `key`? */
  predicate Records(current: string, decl: Stmt, key: string)
  {
    decl.Decl? && Docstring(decl.body).Some? && QualifiedName(current, decl.kind, decl.name) == key
  }

  /** The writes the visitor makes, in order, for declarations listed in visiting order. */
  function Entries(current: string, decls: seq<Stmt>): (r: seq<(string, string)>)
  {
    if decls == [] then []
    else
      var d := decls[|decls| - 1];
      Entries(current, decls[..|decls| - 1])
        + (if d.Decl? && Docstring(d.body).Some?
           then [(QualifiedName(current, d.kind, d.name), Docstring(d.body).value)]
           else [])
  }

  lemma {:induction false} EntriesAppend(current: string, a: seq<Stmt>, b: seq<Stmt>)
    ensures Entries(current, a + b) == Entries(current, a) + Entries(current, b)
    decreases |b|
  {
    if b == [] {
      assert a + b == a;
    } else {
      var n := |b| - 1;
      assert (a + b)[..|a + b| - 1] == a + b[..n];
      EntriesAppend(current, a, b[..n]);
    }
  }

  /**
   * Reference definition: the visitor writes one entry per documented
   * declaration, in pre-order, whatever encloses it.
   */
  lemma {:induction false} ExtractIsPreorderWrites(d: Dict, current: string, s: Stmt)
    ensures ExtractStmt(d, current, s) == PutAll(d, Entries(current, Preorder(s)))
    decreases s, 1
  {
    match s
    case Decl(k, n, body) =>
      var d1 := Record(d, QualifiedName(current, k, n), Docstring(body));
      ExtractBodyIsPreorderWrites(d1, current, body);
      assert Entries(current, [s]) == Entries(current, []) + Entries(current, [s])[..];
      assert [s][..0] == [];
      assert d1 == PutAll(d, Entries(current, [s]));
      EntriesAppend(current, [s], PreorderAll(body));
      PutAllAppend(d, Entries(current, [s]), Entries(current, PreorderAll(body)));
    case Expr(_) =>
    case Other(body) =>
      ExtractBodyIsPreorderWrites(d, current, body);
  }

  lemma {:induction false} ExtractBodyIsPreorderWrites(d: Dict, current: string, ss: seq<Stmt>)
    ensures ExtractBody(d, current, ss) == PutAll(d, Entries(current, PreorderAll(ss)))
    decreases ss, 0
  {
    if ss != [] {
      var n := |ss| - 1;
      ExtractBodyIsPreorderWrites(d, current, ss[..n]);
      var d1 := ExtractBody(d, current, ss[..n]);
      ExtractIsPreorderWrites(d1, current, ss[n]);
      EntriesAppend(current, PreorderAll(ss[..n]), Preorder(ss[n]));
      PutAllAppend(d, Entries(current, PreorderAll(ss[..n])), Entries(current, Preorder(ss[n])));
    }
  }


  /** `decls[i]` records under `key` and no later declaration does: its value is the one that survives. */
  predicate LastRecorder(current: string, decls: seq<Stmt>, i: nat, key: string)
  {
    && i < |decls|
    && Records(current, decls[i], key)
    && forall j :: i < j < |decls| ==> !Records(current, decls[j], key)
  }

  /** A key gets no entry exactly when no declaration records it. */
  lemma {:induction false} NoEntryWithoutRecorder(current: string, decls: seq<Stmt>, key: string)
    ensures LastValue(Entries(current, decls), key).None? <==>
      forall i :: 0 <= i < |decls| ==> !Records(current, decls[i], key)
  {
    if decls != [] {
      var n := |decls| - 1;
      NoEntryWithoutRecorder(current, decls[..n], key);
      EntriesLastValueStep(current, decls, key);
      assert forall i :: 0 <= i < n ==> decls[..n][i] == decls[i];
    }
  }

  /** The entry of a key holds the docstring of the last declaration that records it. */
  lemma {:induction false} LastRecorderWins(current: string, decls: seq<Stmt>, key: string)
    ensures forall i: nat :: LastRecorder(current, decls, i, key) ==>
      LastValue(Entries(current, decls), key) == Docstring(decls[i].body)
  {
    if decls != [] {
      var n := |decls| - 1;
      LastRecorderWins(current, decls[..n], key);
      EntriesLastValueStep(current, decls, key);
      forall i: nat | LastRecorder(current, decls, i, key)
        ensures LastValue(Entries(current, decls), key) == Docstring(decls[i].body)
      {
        if i < n {
          assert LastRecorder(current, decls[..n], i, key);
        }
      }
    }
  }

  /** The last declaration's write decides the key's last value when it records the key; otherwise the earlier writes do. */
  lemma EntriesLastValueStep(current: string, decls: seq<Stmt>, key: string)
    requires decls != []
    ensures var n := |decls| - 1;
      LastValue(Entries(current, decls), key) ==
        if Records(current, decls[n], key) then Docstring(decls[n].body)
        else LastValue(Entries(current, decls[..n]), key)
  {
    var n := |decls| - 1;
    var d := decls[n];
    var p := Entries(current, decls[..n]);
    if d.Decl? && Docstring(d.body).Some? {
      var e := (QualifiedName(current, d.kind, d.name), Docstring(d.body).value);
      assert Entries(current, decls) == p + [e];
      assert (p + [e])[..|p|] == p;
    } else {
      assert Entries(current, decls) == p;
    }
  }

  /**
   * Extracting a tree gives `key` an entry exactly when some declaration of
   * the tree, at any depth, has a docstring and that key; the entry holds the
   * docstring of the last such declaration in pre-order.
   */
  lemma ExtractedEntry(current: string, s: Stmt, key: string)
    ensures var syms := ExtractStmt([], current, s);
      var decls := Preorder(s);
      && (Get(syms, key).Some? <==> exists i :: 0 <= i < |decls| && Records(current, decls[i], key))
      && (forall i: nat :: LastRecorder(current, decls, i, key) ==> Get(syms, key) == Docstring(decls[i].body))
  {
    var decls := Preorder(s);
    ExtractIsPreorderWrites([], current, s);
    GetPutAll([], Entries(current, decls), key);
    NoEntryWithoutRecorder(current, decls, key);
    LastRecorderWins(current, decls, key);
  }

  /** A class with a docstring, a documented method `f` and an undocumented method `g`. */
  function ClassOfTwoMethods(name: string, doc: string, f: string, fdoc: string, g: string): Stmt
  {
    Decl(ClassDef, name, [
      Expr(StrConstant(doc)),
      Decl(FunctionDef, f, [Expr(StrConstant(fdoc))]),
      Decl(FunctionDef, g, [Other([])])])
  }

  lemma BodySnoc(d: Dict, current: string, ss: seq<Stmt>, s: Stmt)
    ensures ExtractBody(d, current, ss + [s]) == ExtractStmt(ExtractBody(d, current, ss), current, s)
  {
    assert (ss + [s])[..|ss|] == ss;
  }

  /** The class's docstring is keyed by the class name and its method's by the method name, both under the module. */
  lemma ClassSymbols(d: Dict, current: string, name: string, doc: string, f: string, fdoc: string, g: string)
    ensures ExtractStmt(d, current, ClassOfTwoMethods(name, doc, f, fdoc, g))
      == Put(Put(d, current + "." + name, doc), current + "." + f, fdoc)
  {
    var ec := Expr(StrConstant(doc));
    var fd := Decl(FunctionDef, f, [Expr(StrConstant(fdoc))]);
    var gd := Decl(FunctionDef, g, [Other([])]);
    var d1 := Put(d, current + "." + name, doc);
    var d2 := Put(d1, current + "." + f, fdoc);
    assert Docstring([ec, fd, gd]) == Some(doc);
    assert [ec] == [] + [ec] && [ec, fd] == [ec] + [fd] && [ec, fd, gd] == [ec, fd] + [gd];
    BodySnoc(d1, current, [], ec);
    BodySnoc(d1, current, [ec], fd);
    FlatStep(d1, current, f, fdoc);
    BodySnoc(d1, current, [ec, fd], gd);
    assert ExtractStmt(d2, current, gd) == d2 by {
      assert Docstring([Other([])]) == None;
      BodySnoc(d2, current, [], Other([]));
      assert [Other([])] == [] + [Other([])];
    }
  }

  /**
   * Names are flat: in module `m`, a method `f` of class `C` is keyed
   * `m.f`, never `m.C.f`; an undocumented method gets no entry.
   */
  lemma FlatQualifiedNames(m: string, mdoc: string, c: string, cdoc: string, f: string, fdoc: string, g: string)
    requires c != [] && f != c && g != c && g != f
    ensures var syms := ExtractStmt([], m, Decl(Module, "", [
        Expr(StrConstant(mdoc)),
        ClassOfTwoMethods(c, cdoc, f, fdoc, g)]));
      && Get(syms, m) == Some(mdoc)
      && Get(syms, m + "." + c) == Some(cdoc)
      && Get(syms, m + "." + f) == Some(fdoc)
      && Get(syms, m + "." + c + "." + f) == None
      && Get(syms, m + "." + g) == None
  {
    var e := Expr(StrConstant(mdoc));
    var cd := ClassOfTwoMethods(c, cdoc, f, fdoc, g);
    var d0 := Put([], m, mdoc);
    assert Docstring([e, cd]) == Some(mdoc);
    assert [e] == [] + [e] && [e, cd] == [e] + [cd];
    BodySnoc(d0, m, [], e);
    BodySnoc(d0, m, [e], cd);
    ClassSymbols(d0, m, c, cdoc, f, fdoc, g);
    FlatLookups(m, mdoc, c, cdoc, f, fdoc, g);
  }

  lemma FlatLookups(m: string, mdoc: string, c: string, cdoc: string, f: string, fdoc: string, g: string)
    requires c != [] && f != c && g != c && g != f
    ensures var d := Put(Put(Put([], m, mdoc), m + "." + c, cdoc), m + "." + f, fdoc);
      && Get(d, m) == Some(mdoc)
      && Get(d, m + "." + c) == Some(cdoc)
      && Get(d, m + "." + f) == Some(fdoc)
      && Get(d, m + "." + c + "." + f) == None
      && Get(d, m + "." + g) == None
  {
    var p := m + ".";
    var d0 := Put([], m, mdoc);
    var d1 := Put(d0, p + c, cdoc);
    SamePrefix(p, f, c);
    SamePrefix(p, g, c);
    SamePrefix(p, g, f);
    var nested := p + c + "." + f;
    assert |nested| > |p + c| && |nested| > |p + f| && |nested| > |m|;
    assert |p + c| > |m| && |p + f| > |m| && |p + g| > |m|;
    forall k | k in {m, p + c, p + f, nested, p + g}
      ensures Get(Put(d1, p + f, fdoc), k) == if k == p + f then Some(fdoc) else Get(d1, k)
      ensures Get(d1, k) == if k == p + c then Some(cdoc) else Get(d0, k)
      ensures Get(d0, k) == if k == m then Some(mdoc) else None
    {
      GetPut(d1, p + f, fdoc, k);
      GetPut(d0, p + c, cdoc, k);
      GetPut([], m, mdoc, k);
    }
  }

  lemma FlatStep(d: Dict, current: string, name: string, doc: string)
    ensures ExtractStmt(d, current, Decl(FunctionDef, name, [Expr(StrConstant(doc))]))
      == Put(d, current + "." + name, doc)
  {
    var body := [Expr(StrConstant(doc))];
    var d1 := Put(d, current + "." + name, doc);
    assert Docstring(body) == Some(doc);
    BodySnoc(d1, current, [], body[0]);
    assert body == [] + [body[0]];
  }

  /**
   * The visitor object: the current module's name, fixed when it is created,
   * and the dictionary it fills while walking one file's tree.
   */
  class Extractor {
    const currentModule: string
    var symbols: Dict

    constructor (relPath: string)
      ensures currentModule == ModuleName(relPath) && symbols == []
    {
      currentModule := ModuleName(relPath);
      symbols := [];
    }

    /**
     * `visit`: on a module, class, function or async function, record its
     * docstring under its qualified name; then visit the children, always.
     * Only `symbols` changes; the tree is not touched.
     */
    method Visit(node: Node)
      requires node.Valid()
      modifies this
      ensures symbols == ExtractStmt(old(symbols), currentModule, node.model)
      decreases node.Repr, 1
    {
      if node.tag.DeclTag? {
        var doc := node.LeadingDocstring();
        if doc.Some? {
          symbols := Put(symbols, QualifiedName(currentModule, node.tag.kind, node.tag.name), doc.value);
        }
      }
      GenericVisit(node);
    }

    /** `generic_visit`: visit each child statement in order. */
    method GenericVisit(node: Node)
      requires node.Valid()
      modifies this
      ensures symbols == ExtractBody(old(symbols), currentModule, Children(node.model))
      decreases node.Repr, 0
    {
      ghost var kids := Children(node.model);
      var i := 0;
      while i < |node.body|
        invariant 0 <= i <= |node.body| == |kids|
        invariant symbols == ExtractBody(old(symbols), currentModule, kids[..i])
      {
        assert node.body[i].model == kids[i] && node.body[i].Valid();
        Visit(node.body[i]);
        assert kids[..i + 1][..i] == kids[..i];
        i := i + 1;
      }
      assert kids[..i] == kids;
    }
  }

  /** One file found by the directory walk; `tree` is `None` when reading or parsing it raised. */
  datatype SourceFile = SourceFile(relPath: string, tree: Option<Stmt>)

  /** Does the file take part: a `.py` file that could be read and parsed. */
  predicate Contributes(f: SourceFile)
  {
    EndsWith(f.relPath, ".py") && f.tree.Some?
  }

  /** `extract_symbols_from_file` on a file that parsed. */
  function FileSymbols(f: SourceFile): Dict
    requires f.tree.Some?
  {
    ExtractStmt([], ModuleName(f.relPath), f.tree.value)
  }

  /** A file's symbols form a dictionary: no key twice. */
  lemma ExtractedKeysDistinct(current: string, s: Stmt)
    ensures DistinctKeys(ExtractStmt([], current, s))
  {
    ExtractIsPreorderWrites([], current, s);
    PutAllKeepsDistinct([], Entries(current, Preorder(s)));
  }

  /** The project's symbols after the walk, merged file by file with `update`. */
  function Corpus(files: seq<SourceFile>): Dict
  {
    if files == [] then []
    else
      var f := files[|files| - 1];
      var before := Corpus(files[..|files| - 1]);
      if Contributes(f) then
        ExtractedKeysDistinct(ModuleName(f.relPath), f.tree.value);
        Update(before, FileSymbols(f))
      else before
  }

  /** `extract_symbols_from_project` over the files of the walk, in walk order. */
  method ExtractSymbolsFromProject(files: seq<SourceFile>) returns (all: Dict)
    ensures all == Corpus(files)
  {
    all := [];
    var i := 0;
    while i < |files|
      invariant 0 <= i <= |files|
      invariant all == Corpus(files[..i])
    {
      var f := files[i];
      assert files[..i + 1][..i] == files[..i];
      if EndsWith(f.relPath, ".py") {
        match f.tree
        case None =>
          // the exception is reported and the file is skipped
        case Some(t) =>
          var root := Build(t);
          var extractor := new Extractor(f.relPath);
          extractor.Visit(root);
          ExtractedKeysDistinct(ModuleName(f.relPath), t);
          all := Update(all, extractor.symbols);
      }
      i := i + 1;
    }
    assert files[..i] == files;
  }

  /** A later file's entry wins on a shared key; a file that is skipped or fails changes nothing. */
  lemma CorpusLastFileWins(files: seq<SourceFile>, f: SourceFile, key: string)
    ensures Get(Corpus(files + [f]), key) ==
      if Contributes(f) && Get(FileSymbols(f), key).Some? then Get(FileSymbols(f), key)
      else Get(Corpus(files), key)
  {
    assert (files + [f])[..|files|] == files;
  }

  /**
   * Two files with the same module name each defining class `name`: after
   * the first the key holds its docstring, after both the second file's.
   */
  lemma CorpusCollision(p1: string, p2: string, name: string, doc1: string, doc2: string)
    requires EndsWith(p1, ".py") && EndsWith(p2, ".py") && ModuleName(p1) == ModuleName(p2)
    ensures var f1 := SourceFile(p1, Some(OneClassModule(name, doc1)));
      var f2 := SourceFile(p2, Some(OneClassModule(name, doc2)));
      var key := ModuleName(p1) + "." + name;
      Get(Corpus([f1]), key) == Some(doc1) && Get(Corpus([f1, f2]), key) == Some(doc2)
  {
    var f1 := SourceFile(p1, Some(OneClassModule(name, doc1)));
    var f2 := SourceFile(p2, Some(OneClassModule(name, doc2)));
    var key := ModuleName(p1) + "." + name;
    OneClassModuleSymbols(ModuleName(p1), name, doc1);
    OneClassModuleSymbols(ModuleName(p2), name, doc2);
    GetPut([], key, doc1, key);
    GetPut([], key, doc2, key);
    assert [f1][..0] == [];
    CorpusLastFileWins([], f1, key);
    assert [f1, f2][..1] == [f1];
    CorpusLastFileWins([f1], f2, key);
  }

  function OneClassModule(name: string, doc: string): Stmt
  {
    Decl(Module, "", [Decl(ClassDef, name, [Expr(StrConstant(doc))])])
  }

  lemma OneClassModuleSymbols(current: string, name: string, doc: string)
    ensures ExtractStmt([], current, OneClassModule(name, doc)) == Put([], current + "." + name, doc)
  {
    var body := [Expr(StrConstant(doc))];
    var c := Decl(ClassDef, name, body);
    var d1 := Put([], current + "." + name, doc);
    assert body[..0] == [] && [c][..0] == [];
    assert ExtractBody(d1, current, body) == d1;
    assert ExtractStmt([], current, c) == d1;
    assert ExtractBody([], current, [c]) == d1;
  }

  /** A package initialiser is named after its directory: the same name as the module `x/y.py`, so their symbols collide. */
  lemma PackageInitModuleName()
    ensures ModuleName("x/y/__init__.py") == "x.y"
  {
    var p := "x/y/__init__.py";
    ModuleNameShape(p);
    assert EndsWith(p, ".py") && p[4..12] == "__init__" && p[3] == '/';
    var r := ModuleName(p);
    assert |r| == 3 && r[0] == 'x' && r[1] == '.' && r[2] == 'y';
  }
}
