# Docstring benchmark pipeline: a verified model of its core

This project models the algorithmic core of a pipeline that builds a
benchmark of Python docstrings. The pipeline has three parts:

- **Symbol extractor.** It walks a Python syntax tree and records, on every
  module, class, function and async function, the leading string-constant
  statement of its body. Each record goes under the declaration's qualified
  name. One dictionary per file is kept, and the dictionaries of all files
  of a project are merged in walk order.
- **Docstring remover.** It walks the same tree and deletes that same
  leading statement, in place, on every declaration it visits.
- **Similarity checker.** It loads the descriptions of a summary file, under
  keys built from section headings. It reads back the extractor's JSON
  output, first filtering it to the lines `grep` finds. It keeps the
  `pandas.core.methods` symbols. Each summary symbol is paired with a
  docstring symbol: by exact key, or else by the last dotted segment of the
  key, with a text-similarity score. Then it counts exact matches, fuzzy
  matches and misses, and ranks the five best pairs.

Structure of the model:

| file | content |
|---|---|
| `wrappers.dfy` | `Option` |
| `strings.dfy` | Python's `strip`, `split`, `replace`, `find` and `in`, on `seq<char>` |
| `dicts.dfy` | Python's insertion-ordered `dict`, as a sequence of pairs with distinct keys |
| `syntax.dfy` | the syntax tree as a value (`Stmt`) and as the live tree the visitors walk (`Node`) |
| `symbol_extractor.dfy` | the extractor visitor (an `Extractor` class filling its `symbols` field), the module-name rewriting, and the project merge loop |
| `docstring_remover.dfy` | the remover, which reassigns `Node.body` in place, and its duality with the extractor |
| `similarity_checker.dfy` | summary keys, `json.dump`'s escaping of strings, the grep-line parser, the pandas filter, the similarity guard and `match_symbols` |
| `result_analysis.dfy` | the counts and the stable top-five ranking of `analyze_results` |

Further points of the model:

- **The visitors are methods on a heap tree.** Each is proved against a
  value-level function: `ExtractStmt` for the extractor and `Strip` for the
  remover. The lemmas about those functions state what the source
  promises.
- **Scanning loops are imperative.** The loops of `match_symbols`,
  `load_docstrings_data`, `load_summary_data`, `extract_pandas_symbols` and
  `extract_symbols_from_project` are methods with `while` loops. Each is
  proved equal to a reference function of its inputs.

Where the code and the project's design description differ, the model
follows the code:

- **Ties in the suffix search.** The design asks for a deterministic rule,
  such as the lexicographic order of the candidate keys. The code keeps the
  earliest candidate in dictionary order, because its comparison is a
  strict `>` (`WinnerUnique`, `ScanFindsWinner`).
- **Empty bodies.** The design asks for a placeholder statement when
  removing a docstring empties a body. The code inserts none
  (`OnlyDocstringLeavesEmptyBody`).
- **Nested names.** The design appends each nested declaration's name to
  the enclosing identifier. The code keys every class and function as
  `module + "." + name` at any depth (`FlatQualifiedNames`).
- **Empty-string keys.** `if best_match:` treats an empty-string docstring
  key as no match (`EmptyKeyIsNoMatch`).

## Model

| member | source | states |
|---|---|---|
| Syntax.Node.LeadingDocstring | src/docstring_remover.py:23-26 | the docstring test read off the live node agrees with the test on the subtree it roots |
| Syntax.Node.DropFirst | src/docstring_remover.py:27 | `node.body = node.body[1:]`: the body loses its first child; the other children keep their subtrees and the node keeps its footprint |
| Syntax.Build | src/symbol_extractor.py:137 | a freshly allocated live tree whose nodes root exactly the given tree |
| Strings.StripShape | src/similarity_checker.py:48 | `strip` leaves a contiguous slice of its input, every character before and after which is one it removes, and which starts and ends with a kept character |
| Strings.IndexOfFirst | src/similarity_checker.py:47 | the colon `split(':', 1)` splits at is the first one |
| Strings.SplitParts | src/similarity_checker.py:40 | no part of a `split` holds the separator |
| Strings.JoinSplit | src/similarity_checker.py:40 | joining the parts of a `split` gives back the text |
| Strings.SplitJoin | src/similarity_checker.py:40 | splitting the join of separator-free parts gives back the parts |
| Strings.FirstSegmentShape | src/similarity_checker.py:25 | `heading.split('.')[0]` is the text up to the first dot, or all of it |
| Strings.LastSegmentShape | src/similarity_checker.py:112 | `key.split('.')[-1]` is a dot-free suffix of the key, preceded by a dot when shorter than the key |
| Strings.LastSegmentOfDotted | src/similarity_checker.py:116 | the last segment of `prefix + "." + name` is `name` when `name` has no dot |
| Strings.ReplaceChar | src/symbol_extractor.py:43 | replacing one character by another keeps the length and changes exactly the occurrences of that character |
| Strings.ReplaceAbsent | src/symbol_extractor.py:43 | `replace` on a text without the pattern leaves the text unchanged |
| Dicts.Get | src/similarity_checker.py:100-101 | a lookup finds a value exactly when the key is present |
| Dicts.Put | src/similarity_checker.py:26 | assignment keeps the key order: an existing key stays in place, a new key goes last |
| Dicts.GetPut | src/similarity_checker.py:26 | after `d[k] = v` the key `k` holds `v` and every other key holds what it held |
| Dicts.PutKeepsDistinct | src/similarity_checker.py:26 | assignment keeps every key unique |
| Dicts.GetPutAll | src/similarity_checker.py:56 | after a series of assignments a key holds the value of its last assignment, or its old value when none assigned it |
| Dicts.PutAllFresh | src/similarity_checker.py:66-68 | assigning distinct keys one by one into an empty dictionary rebuilds exactly those entries, in order |
| Dicts.Update | src/symbol_extractor.py:161 | `all.update(symbols)`: a key of the new dictionary takes its value and every other key keeps its old one; the old keys keep their places and order, and the keys are exactly the old and the new ones |
| Dicts.PutAllKeyOrder | src/symbol_extractor.py:161 | a series of assignments never moves a key: the old keys stay in front in their order, and only assigned keys are added |
| Dicts.UpdateKeepsDistinct | src/symbol_extractor.py:161 | merging keeps every key unique |
| SymbolExtractor.ModuleNameShape | src/symbol_extractor.py:39-47 | a trailing `.py` loses exactly those three characters, every `/` becomes `.`, and a trailing `.__init__` loses exactly those nine characters; nothing else changes |
| SymbolExtractor.NoSlashInModuleName | src/symbol_extractor.py:43 | a module name holds no path separator |
| SymbolExtractor.ModuleNameOfFile | src/symbol_extractor.py:39-43 | `x/y.py` is module `x.y` |
| SymbolExtractor.ModuleNameOfTopLevelFile | src/symbol_extractor.py:39-47 | a file at the top of the project keeps its stem as module name, unless the stem ends in `.__init__` |
| SymbolExtractor.ModuleNameOfTopInit | src/symbol_extractor.py:46-47 | a top-level `__init__.py` is module `__init__`, as no dot precedes `__init__` |
| SymbolExtractor.PackageInitModuleName | src/symbol_extractor.py:46-47 | `x/y/__init__.py` is module `x.y`, the name of its directory |
| SymbolExtractor.QualifiedName | src/symbol_extractor.py:74 | a key starts with the module name; a module is keyed by it alone, a class, function or async function by `module + "." + name`, whose last dotted segment is the name when the name has no dot |
| SymbolExtractor.QualifiedNameCollides | src/symbol_extractor.py:74 | within one module two declarations share a key exactly when both are the module, or neither is and they have the same name, however deeply they are nested |
| SymbolExtractor.FlatQualifiedNames | src/symbol_extractor.py:93 | in module `m`, method `f` of class `C` is keyed `m.f` and never `m.C.f`; the module and class docstrings are keyed `m` and `m.C`; an undocumented method gets no entry |
| SymbolExtractor.ClassSymbols | src/symbol_extractor.py:74-103 | visiting a documented class with one documented and one undocumented method writes exactly the class's entry and then the documented method's entry |
| SymbolExtractor.OneClassModuleSymbols | src/symbol_extractor.py:65-84 | a module holding one documented class yields the class's entry alone |
| SymbolExtractor.ExtractIsPreorderWrites | src/symbol_extractor.py:51-122 | the visit makes one write per documented declaration, in pre-order, whatever statements enclose it |
| SymbolExtractor.NoEntryWithoutRecorder | src/symbol_extractor.py:58-63 | the writes give a key no value exactly when no declaration with that key has a docstring |
| SymbolExtractor.LastRecorderWins | src/symbol_extractor.py:63-120 | the value a key ends with is the docstring of the last declaration, in pre-order, that records it |
| SymbolExtractor.ExtractedEntry | src/symbol_extractor.py:58-65 | a key gets an entry exactly when some declaration of the tree, at any depth, has a docstring and that key; the entry holds the docstring of the last such declaration in pre-order |
| SymbolExtractor.ExtractedKeysDistinct | src/symbol_extractor.py:25 | a file's symbols have no key twice |
| SymbolExtractor.Extractor.constructor | src/symbol_extractor.py:16-26 | a new extractor has no symbols and the module name of its file |
| SymbolExtractor.Extractor.Visit | src/symbol_extractor.py:51-122 | records a declaration's docstring under its qualified name, then visits its children; only `symbols` changes and the tree is left untouched |
| SymbolExtractor.Extractor.GenericVisit | src/symbol_extractor.py:65 | visits every child statement in order, whatever its kind |
| SymbolExtractor.ExtractSymbolsFromProject | src/symbol_extractor.py:153-166 | the merged symbols of the `.py` files in walk order; a file that fails to parse, or does not end in `.py`, adds nothing |
| SymbolExtractor.CorpusLastFileWins | src/symbol_extractor.py:161-164 | on a shared key the later file's entry wins; a skipped or failing file changes nothing |
| SymbolExtractor.CorpusCollision | src/symbol_extractor.py:153-166 | two files with the same module name each defining class `Z`: after the first the key holds its docstring, after both the second file's |
| DocstringRemover.StripDeclaration | src/docstring_remover.py:23-27 | a declaration keeps its kind and name; its body is the original tail after the docstring, or the whole body when it has none, each statement stripped; it still has a docstring exactly when the original began with two string statements |
| DocstringRemover.PreorderStrip | src/docstring_remover.py:27-29 | no declaration is removed, added or reordered: the declarations of the stripped tree are the original ones, each stripped |
| DocstringRemover.StripKeepsDeclarations | src/docstring_remover.py:23-29 | the declaration count is unchanged; each declaration keeps its kind and name and is one statement shorter exactly when it was documented |
| DocstringRemover.RemoverShortensWhatExtractorRecords | src/docstring_remover.py:23-26 | the declarations the remover shortens are exactly those the extractor records an entry for |
| DocstringRemover.StripFixpoint | src/docstring_remover.py:23-29 | removal changes a tree exactly when some declaration in it has a docstring |
| DocstringRemover.StripIdempotent | src/docstring_remover.py:23-27 | a second pass changes nothing exactly when no body began with two string statements |
| DocstringRemover.ExtractAfterStrip | src/docstring_remover.py:23-27 | re-extraction after removal gives a key an entry exactly when a declaration with that key began its body with two string statements |
| DocstringRemover.StrippedTreeHasNoSymbols | src/docstring_remover.py:23-27 | without such bodies, re-extraction after removal yields nothing |
| DocstringRemover.OnlyDocstringLeavesEmptyBody | src/docstring_remover.py:27 | a body holding only a docstring becomes empty; no placeholder is inserted |
| DocstringRemover.Visit | src/docstring_remover.py:15-81 | drops a declaration's docstring in place and visits every child; the tree left behind is `Strip` of the old one and its footprint is unchanged |
| DocstringRemover.VisitChildren | src/docstring_remover.py:29 | `generic_visit`: every child is stripped in turn, and the node's own child list is the one it had |
| DocstringRemover.VisitChild | src/docstring_remover.py:29 | visiting one child strips it and leaves its siblings untouched |
| SimilarityChecker.SummaryKeyShape | src/similarity_checker.py:25 | a summary key lies in `pandas.core.methods`, and for a dot-free symbol its last segment is the symbol |
| SimilarityChecker.SummaryKeyOfFileHeading | src/similarity_checker.py:25 | a heading that names a file, `stem.ext`, contributes only its stem to the key |
| SimilarityChecker.StoreSection | src/similarity_checker.py:23-26 | the items of one section are assigned, in order, under their summary keys |
| SimilarityChecker.LoadSummaryData | src/similarity_checker.py:20-28 | every item is stored under its summary key, and a later duplicate key overwrites the earlier description |
| SimilarityChecker.ParseLineMeaning | src/similarity_checker.py:40-49 | a line yields an entry exactly when it is not blank and, once stripped of blanks and trailing commas, holds a colon and neither starts with `{` nor ends with `}`; the key has no colon and neither starts nor ends with a quote |
| SimilarityChecker.QuotedKey | src/similarity_checker.py:48 | stripping blanks and quotes from a quoted key gives the key |
| SimilarityChecker.ControlEscape | src/symbol_extractor.py:181 | `json.dump(..., ensure_ascii=False)` writes a control character as a backslash followed only by lower-case letters and digits |
| SimilarityChecker.EscapePlain | src/symbol_extractor.py:181 | a string with no backslash, quote or control character is written without escapes |
| SimilarityChecker.UnquoteEscaped | src/similarity_checker.py:52-54 | removing the quotes and unescaping `\"` and then `\\` gives back the string `json.dump` wrote, except that each control character stays escaped; a string without control characters is restored exactly |
| SimilarityChecker.MultiLineValueKeepsEscape | src/similarity_checker.py:52-54 | a value holding a newline is read back with the two characters `\n` in its place |
| SimilarityChecker.ParseJsonLine | src/similarity_checker.py:40-56 | an indented `"key": "value",` line as `json.dump` writes it, for a key without colon or quote, parses back to the escaped key and the value with its control characters still escaped; to the key and value themselves when neither holds a control character and the key no backslash |
| SimilarityChecker.LoadDocstringsData | src/similarity_checker.py:37-61 | every accepted line of the grep output is stored, and a later line with the same key overwrites an earlier one |
| SimilarityChecker.PandasEntriesGet | src/similarity_checker.py:66-68 | the filter keeps a key exactly when it contains `pandas.core.methods`, with its value unchanged |
| SimilarityChecker.PandasEntriesDistinct | src/similarity_checker.py:66-68 | the filtered entries form a dictionary |
| SimilarityChecker.ExtractPandasSymbols | src/similarity_checker.py:63-69 | the result is the input's `pandas.core.methods` entries, in input order |
| SimilarityChecker.CalculateSimilarity | src/similarity_checker.py:71-87 | 0.0 when either text is empty or vectorising raises; a non-zero score is the cosine of two non-empty texts |
| SimilarityChecker.WinnerUnique | src/similarity_checker.py:119 | at most one candidate wins: of equal top scores, the earliest is kept |
| SimilarityChecker.ScanFindsWinner | src/similarity_checker.py:112-122 | the suffix search keeps nothing exactly when no candidate with the same last segment scores above 0.0; otherwise it keeps the winner's key, score and text |
| SimilarityChecker.MatchOneMeaning | src/similarity_checker.py:94-140 | a result carries its summary entry; an exact key is taken with its score even if 0; otherwise the non-empty winner is reported, or the sentinel with score 0.0 and no text |
| SimilarityChecker.FuzzyMatchIsPositive | src/similarity_checker.py:119-131 | a fuzzy result names a docstring key with the same last segment and has a positive score |
| SimilarityChecker.NoCandidateNoMatch | src/similarity_checker.py:132-140 | with no candidate at all the result is the sentinel |
| SimilarityChecker.EmptyKeyIsNoMatch | src/similarity_checker.py:124 | an empty-string winner is read as no match: `frame.` against the docstring key `""` gives the sentinel even at score 1.0 |
| SimilarityChecker.MatchSymbols | src/similarity_checker.py:89-142 | one result per summary entry, in summary order, each as `MatchOneMeaning` describes |
| ResultAnalysis.Positives | src/similarity_checker.py:146 | every kept score is positive; the list is empty exactly when no result scores above 0 |
| ResultAnalysis.PositivesInOrder | src/similarity_checker.py:146 | there are as many kept scores as positive results, and the score of each positive result sits at the position given by the number of positive results before it |
| ResultAnalysis.CountsPartition | src/similarity_checker.py:159-164 | the exact, fuzzy and no-match counts add up to the number of results |
| ResultAnalysis.ExactIffKeyPresent | src/similarity_checker.py:159-160 | a matcher result counts as exact exactly when its summary key was a docstring key |
| ResultAnalysis.ExactCountOfMatches | src/similarity_checker.py:159-160 | on the matcher's output the exact count is the number of summary keys found among the docstring keys |
| ResultAnalysis.SortBySimilarityIsStableSort | src/similarity_checker.py:178 | the ranking is in descending order of score, a permutation of the results, and stable: results of equal score keep their order |
| ResultAnalysis.TopFiveIsBest | src/similarity_checker.py:181 | the top list holds the first five results of the ranking, or all when fewer; it is in descending order and no result left out scores more |
| ResultAnalysis.AnalyzeResults | src/similarity_checker.py:146-181 | no report when no result scores above 0; otherwise the number of results, the number of exact matches, of fuzzy matches and of misses (which add up to it), and the top five |

## Left out

- TF-IDF vectorisation and cosine similarity (src/similarity_checker.py:77-83) are a foreign library computing in floating point. The model takes the score as a parameter `cosine` that returns a `real` or `None` when vectorising raises; only the guards around it are modelled.
- Scores are `real`, not IEEE floats; NaN and rounding are not modelled.
- The numpy mean, median, maximum and minimum (src/similarity_checker.py:153-156) and every `print` are console output over floats.
- `ast.parse` and the re-serialisation of the stripped tree are the parser and renderer; the model works on an abstract tree, given per file. `Syntax.Build` stands for the parse.
- The tree keeps only what the visitors look at: declaration kinds, names, bodies and expression statements. Function arguments, decorators and expressions are not modelled, as no declaration statement can sit inside them.
- `os.walk`, `open`, `os.makedirs` and the file output of `json.dump` are file-system plumbing; the text `json.dump` writes for a string is modelled. The file list, with each file's parse result, is an input.
- `os.path.relpath` is not modelled: the relative path is given, with `/` as separator.
- The `grep` subprocess is not modelled: its captured output is an input string.
- The two regular expressions of `load_summary_data` (src/similarity_checker.py:18, :22) are not modelled: the sections and their items are given already split.
- The loader does not decode JSON's control-character escapes (src/similarity_checker.py:52-54): a docstring value holding a newline or tab is stored with `\n` or `\t` as written, and the model keeps it so (`UnquoteEscaped`, `MultiLineValueKeepsEscape`). Keys are not unescaped at all (`ParseJsonLine`).
- The `try`/`except` of `load_docstrings_data` (src/similarity_checker.py:57-59) guards code that cannot raise once a colon is present, so the model has no error branch there.
- src/project_collector.py (cloning repositories) and src/main.py (orchestration with fixed paths) are not part of this model.
- `remove_docstrings_from_file` and the file-level driver of the remover are not modelled beyond the visitor itself.
- Dicts: a dictionary is a sequence of pairs, and key uniqueness is a separate predicate kept by every operation rather than a type.
- SimilarityChecker.FuzzyMatchIsPositive: the fuzzy result's description is stated to be the docstring key's value only when the docstring keys are distinct, which every dictionary the pipeline builds satisfies.
- SimilarityChecker.ExtractPandasSymbols: that the result equals the filtered entries themselves is stated for an input with distinct keys; for any input it is stated through the reference assignments.
- ResultAnalysis.ExactCountOfMatches: requires that no summary key is `NO_MATCH`, which holds for every summary key, as each starts with `pandas.core.methods.`.
