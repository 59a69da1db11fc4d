/**
 * The counting and ranking part of the analysis of match results: how many
 * results are exact matches, fuzzy matches and misses, and the five results
 * with the highest similarity, ranked by a stable sort in descending order.
 * This is `analyze_results` in src/similarity_checker.py, lines 144-187,
 * without its printing and its mean and median.
 */
module ResultAnalysis {
  import opened Wrappers
  import opened Dicts
  import opened SimilarityChecker

  predicate IsExact(r: MatchResult)
  {
    r.summarySymbol == r.docstringSymbol && r.docstringSymbol != NoMatch
  }

  predicate IsFuzzy(r: MatchResult)
  {
    r.summarySymbol != r.docstringSymbol && r.docstringSymbol != NoMatch
  }

  predicate IsMiss(r: MatchResult)
  {
    r.docstringSymbol == NoMatch
  }

  /** `sum(1 for result in results if p(result))` */
  function Count(rs: seq<MatchResult>, p: MatchResult -> bool): (n: nat)
    ensures n <= |rs|
  {
    if rs == [] then 0 else Count(rs[..|rs| - 1], p) + (if p(rs[|rs| - 1]) then 1 else 0)
  }

  /** Every result is counted exactly once: exact, fuzzy or miss. */
  lemma {:induction false} CountsPartition(rs: seq<MatchResult>)
    ensures Count(rs, IsExact) + Count(rs, IsFuzzy) + Count(rs, IsMiss) == |rs|
  {
    if rs != [] {
      CountsPartition(rs[..|rs| - 1]);
    }
  }

  /** The summary entries whose key is also a docstring key. */
  function CountKeysIn(summary: seq<(string, string)>, docs: Dict): (n: nat)
    ensures n <= |summary|
  {
    if summary == [] then 0
    else CountKeysIn(summary[..|summary| - 1], docs) + (if summary[|summary| - 1].0 in Keys(docs) then 1 else 0)
  }

  /** A result of the matcher counts as exact exactly when its summary key was a docstring key. */
  lemma ExactIffKeyPresent(cosine: Cosine, docs: Dict, entry: (string, string))
    requires entry.0 != NoMatch
    ensures IsExact(MatchOne(cosine, docs, entry)) <==> entry.0 in Keys(docs)
  {
    MatchOneMeaning(cosine, docs, entry);
    if entry.0 !in Keys(docs) {
      FuzzyMatchIsPositive(cosine, docs, entry);
    }
  }

  /**
   * On the matcher's own output, the exact count is the number of summary
   * keys present among the docstring keys (no summary key is the sentinel,
   * as every summary key starts with the package name).
   */
  lemma ExactCountOfMatches(cosine: Cosine, summary: Dict, docs: Dict)
    requires forall i :: 0 <= i < |summary| ==> summary[i].0 != NoMatch
    ensures Count(Matches(cosine, summary, docs), IsExact) == CountKeysIn(summary, docs)
  {
    var rs := Matches(cosine, summary, docs);
    forall i | 0 <= i < |rs|
      ensures IsExact(rs[i]) <==> summary[i].0 in Keys(docs)
    {
      ExactIffKeyPresent(cosine, docs, summary[i]);
    }
    ExactCountOfKeys(rs, summary, docs, |rs|);
    assert rs[..|rs|] == rs && summary[..|rs|] == summary;
  }

  lemma {:induction false} ExactCountOfKeys(rs: seq<MatchResult>, summary: seq<(string, string)>, docs: Dict, n: nat)
    requires |rs| == |summary| && n <= |rs|
    requires forall i :: 0 <= i < |rs| ==> (IsExact(rs[i]) <==> summary[i].0 in Keys(docs))
    ensures Count(rs[..n], IsExact) == CountKeysIn(summary[..n], docs)
  {
    if n > 0 {
      ExactCountOfKeys(rs, summary, docs, n - 1);
      assert rs[..n][..n - 1] == rs[..n - 1] && rs[..n][n - 1] == rs[n - 1];
      assert summary[..n][..n - 1] == summary[..n - 1] && summary[..n][n - 1] == summary[n - 1];
    }
  }

  /** The similarities above zero, in result order: the list the statistics are taken over. */
  function Positives(rs: seq<MatchResult>): (r: seq<real>)
    ensures forall i :: 0 <= i < |r| ==> r[i] > 0.0
    ensures r == [] <==> forall i :: 0 <= i < |rs| ==> rs[i].similarity <= 0.0
  {
    if rs == [] then []
    else
      var n := |rs| - 1;
      var r := Positives(rs[..n]) + (if rs[n].similarity > 0.0 then [rs[n].similarity] else []);
      assert forall i :: 0 <= i < n ==> rs[..n][i] == rs[i];
      r
  }

  predicate IsPositive(r: MatchResult)
  {
    r.similarity > 0.0
  }

  /**
   * The positive scores, in result order and none dropped: there are as many
   * as there are positive results, and the score of a positive result sits
   * at the position given by the number of positive results before it.
   */
  lemma {:induction false} PositivesInOrder(rs: seq<MatchResult>)
    ensures |Positives(rs)| == Count(rs, IsPositive)
    ensures forall i :: 0 <= i < |rs| && IsPositive(rs[i]) ==>
      Count(rs[..i], IsPositive) < |Positives(rs)| && Positives(rs)[Count(rs[..i], IsPositive)] == rs[i].similarity
  {
    if rs != [] {
      var n := |rs| - 1;
      PositivesInOrder(rs[..n]);
      PositivesStep(rs);
      var p := Positives(rs[..n]);
      forall i | 0 <= i < |rs| && IsPositive(rs[i])
        ensures Count(rs[..i], IsPositive) < |Positives(rs)|
        ensures Positives(rs)[Count(rs[..i], IsPositive)] == rs[i].similarity
      {
        if i < n {
          assert rs[..n][..i] == rs[..i] && rs[..n][i] == rs[i];
        } else {
          assert rs[..i] == rs[..n];
        }
      }
    }
  }

  /** The last result adds its score to the positives, and one to their count, exactly when it is positive. */
  lemma PositivesStep(rs: seq<MatchResult>)
    requires rs != []
    ensures var n := |rs| - 1;
      && Positives(rs) == Positives(rs[..n]) + (if IsPositive(rs[n]) then [rs[n].similarity] else [])
      && Count(rs, IsPositive) == Count(rs[..n], IsPositive) + (if IsPositive(rs[n]) then 1 else 0)
  {
  }

  // ------------------------------------------------------------ stable sort

  predicate SortedDesc(s: seq<MatchResult>)
  {
    forall i, j :: 0 <= i < j < |s| ==> s[i].similarity >= s[j].similarity
  }

  /** The results with similarity `v`, in order. */
  function WithScore(s: seq<MatchResult>, v: real): seq<MatchResult>
  {
    if s == [] then [] else (if s[0].similarity == v then [s[0]] else []) + WithScore(s[1..], v)
  }

  lemma {:induction false} WithScoreAppend(a: seq<MatchResult>, b: seq<MatchResult>, v: real)
    ensures WithScore(a + b, v) == WithScore(a, v) + WithScore(b, v)
  {
    if a == [] {
      assert a + b == b;
    } else {
      var h := if a[0].similarity == v then [a[0]] else [];
      assert (a + b)[0] == a[0] && (a + b)[1..] == a[1..] + b;
      WithScoreAppend(a[1..], b, v);
      assert WithScore(a + b, v) == h + (WithScore(a[1..], v) + WithScore(b, v));
      assert h + (WithScore(a[1..], v) + WithScore(b, v)) == (h + WithScore(a[1..], v)) + WithScore(b, v);
    }
  }

  lemma {:induction false} WithScoreNone(s: seq<MatchResult>, v: real)
    requires forall i :: 0 <= i < |s| ==> s[i].similarity < v
    ensures WithScore(s, v) == []
  {
    if s != [] {
      WithScoreNone(s[1..], v);
    }
  }

  /** `x` placed after every result of the descending list `s` that scores at least as much. */
  function Insert(x: MatchResult, s: seq<MatchResult>): (r: seq<MatchResult>)
    ensures |r| == |s| + 1
  {
    if s == [] || s[0].similarity < x.similarity then [x] + s
    else [s[0]] + Insert(x, s[1..])
  }

  lemma {:induction false} InsertPermutes(x: MatchResult, s: seq<MatchResult>)
    ensures multiset(Insert(x, s)) == multiset(s) + multiset{x}
  {
    if s != [] && s[0].similarity >= x.similarity {
      InsertPermutes(x, s[1..]);
      assert s == [s[0]] + s[1..];
    }
  }

  /** Inserting keeps every score under a bound that holds for `x` and for `s`. */
  lemma {:induction false} InsertBound(x: MatchResult, s: seq<MatchResult>, bound: real)
    requires x.similarity <= bound && forall j :: 0 <= j < |s| ==> s[j].similarity <= bound
    ensures forall j :: 0 <= j < |Insert(x, s)| ==> Insert(x, s)[j].similarity <= bound
  {
    if s != [] && s[0].similarity >= x.similarity {
      InsertBound(x, s[1..], bound);
    }
  }

  lemma {:induction false} InsertSorted(x: MatchResult, s: seq<MatchResult>)
    requires SortedDesc(s)
    ensures SortedDesc(Insert(x, s))
  {
    if s == [] || s[0].similarity < x.similarity {
      assert forall j :: 0 <= j < |s| ==> s[j].similarity <= s[0].similarity;
    } else {
      assert SortedDesc(s[1..]);
      InsertSorted(x, s[1..]);
      InsertBound(x, s[1..], s[0].similarity);
    }
  }

  lemma {:induction false} InsertWithScore(x: MatchResult, s: seq<MatchResult>, v: real)
    requires SortedDesc(s)
    ensures WithScore(Insert(x, s), v) == WithScore(s, v) + (if x.similarity == v then [x] else [])
  {
    if s == [] || s[0].similarity < x.similarity {
      PlacedFirst(x, s, v);
    } else {
      assert SortedDesc(s[1..]);
      InsertWithScore(x, s[1..], v);
      WithScoreCons(s[0], Insert(x, s[1..]), v);
      WithScoreCons(s[0], s[1..], v);
      assert [s[0]] + s[1..] == s;
    }
  }

  lemma WithScoreCons(x: MatchResult, s: seq<MatchResult>, v: real)
    ensures WithScore([x] + s, v) == (if x.similarity == v then [x] else []) + WithScore(s, v)
  {
    assert ([x] + s)[1..] == s;
  }

  /** `x` in front of a list whose results all score less than it. */
  lemma PlacedFirst(x: MatchResult, s: seq<MatchResult>, v: real)
    requires SortedDesc(s) && (s == [] || s[0].similarity < x.similarity)
    ensures WithScore([x] + s, v) == WithScore(s, v) + (if x.similarity == v then [x] else [])
  {
    WithScoreCons(x, s, v);
    if x.similarity == v {
      assert forall j :: 0 <= j < |s| ==> s[j].similarity <= s[0].similarity;
      WithScoreNone(s, v);
    }
  }

  /** `sorted(results, key=similarity, reverse=True)`: insertion of each result in turn. */
  function SortBySimilarity(rs: seq<MatchResult>): (r: seq<MatchResult>)
    ensures |r| == |rs|
  {
    if rs == [] then [] else Insert(rs[|rs| - 1], SortBySimilarity(rs[..|rs| - 1]))
  }

  /**
   * The ranking is in descending order of similarity, is a permutation of the
   * results, and is stable: the results of any one similarity keep their
   * original order.
   */
  lemma SortBySimilarityIsStableSort(rs: seq<MatchResult>)
    ensures SortedDesc(SortBySimilarity(rs))
    ensures multiset(SortBySimilarity(rs)) == multiset(rs)
    ensures forall v :: WithScore(SortBySimilarity(rs), v) == WithScore(rs, v)
  {
    SortIsSorted(rs);
    SortIsPermutation(rs);
    forall v
      ensures WithScore(SortBySimilarity(rs), v) == WithScore(rs, v)
    {
      SortIsStable(rs, v);
    }
  }

  lemma {:induction false} SortIsSorted(rs: seq<MatchResult>)
    ensures SortedDesc(SortBySimilarity(rs))
  {
    if rs != [] {
      var n := |rs| - 1;
      SortIsSorted(rs[..n]);
      InsertSorted(rs[n], SortBySimilarity(rs[..n]));
    }
  }

  lemma {:induction false} SortIsPermutation(rs: seq<MatchResult>)
    ensures multiset(SortBySimilarity(rs)) == multiset(rs)
  {
    if rs != [] {
      var n := |rs| - 1;
      SortIsPermutation(rs[..n]);
      InsertPermutes(rs[n], SortBySimilarity(rs[..n]));
      assert rs == rs[..n] + [rs[n]];
    }
  }

  lemma {:induction false} SortIsStable(rs: seq<MatchResult>, v: real)
    ensures WithScore(SortBySimilarity(rs), v) == WithScore(rs, v)
  {
    if rs != [] {
      var n := |rs| - 1;
      SortIsStable(rs[..n], v);
      SortIsSorted(rs[..n]);
      StableStep(rs[..n], rs[n], SortBySimilarity(rs[..n]), v);
      assert rs[..n] + [rs[n]] == rs;
    }
  }

  /** Inserting `x` into a stable ranking of `pre` gives a stable ranking of `pre + [x]`. */
  lemma StableStep(pre: seq<MatchResult>, x: MatchResult, sorted: seq<MatchResult>, v: real)
    requires SortedDesc(sorted) && WithScore(sorted, v) == WithScore(pre, v)
    ensures WithScore(Insert(x, sorted), v) == WithScore(pre + [x], v)
  {
    InsertWithScore(x, sorted, v);
    WithScoreAppend(pre, [x], v);
    WithScoreCons(x, [], v);
    assert [x] + [] == [x];
  }

  /** The first five of the ranking, or all of it when there are fewer. */
  function TopFive(rs: seq<MatchResult>): seq<MatchResult>
  {
    var s := SortBySimilarity(rs);
    s[..if |s| < 5 then |s| else 5]
  }

  /** The top list holds the highest-scoring results, best first, and no result left out scores more. */
  lemma TopFiveIsBest(rs: seq<MatchResult>)
    ensures |TopFive(rs)| == if |rs| < 5 then |rs| else 5
    ensures SortedDesc(TopFive(rs))
    ensures multiset(TopFive(rs)) <= multiset(rs)
    ensures forall i, j :: 0 <= i < |TopFive(rs)| <= j < |rs| ==>
      TopFive(rs)[i].similarity >= SortBySimilarity(rs)[j].similarity
  {
    SortBySimilarityIsStableSort(rs);
    SortedPrefix(SortBySimilarity(rs), if |rs| < 5 then |rs| else 5);
  }

  lemma SortedPrefix(s: seq<MatchResult>, m: nat)
    requires SortedDesc(s) && m <= |s|
    ensures SortedDesc(s[..m])
    ensures multiset(s[..m]) <= multiset(s)
    ensures forall i, j :: 0 <= i < m <= j < |s| ==> s[..m][i].similarity >= s[j].similarity
  {
    assert s == s[..m] + s[m..];
    assert multiset(s) == multiset(s[..m]) + multiset(s[m..]);
  }

  /** What `analyze_results` reports, apart from the floating-point statistics. */
  datatype Analysis = Analysis(total: nat, exact: nat, fuzzy: nat, misses: nat, top: seq<MatchResult>)

  /**
   * `analyze_results`: nothing when no result has a positive similarity;
   * otherwise the exact, fuzzy and no-match counts, which add up to the number
   * of results, and the top five.
   */
  function AnalyzeResults(rs: seq<MatchResult>): (r: Option<Analysis>)
    ensures r.None? <==> forall i :: 0 <= i < |rs| ==> rs[i].similarity <= 0.0
    ensures r.Some? ==> r.value.exact + r.value.fuzzy + r.value.misses == r.value.total == |rs|
    ensures r.Some? ==> r.value.top == TopFive(rs)
    ensures r.Some? ==> r.value.exact == Count(rs, IsExact) && r.value.fuzzy == Count(rs, IsFuzzy)
    ensures r.Some? ==> r.value.misses == Count(rs, IsMiss)
  {
    if Positives(rs) == [] then None
    else
      CountsPartition(rs);
      Some(Analysis(|rs|, Count(rs, IsExact), Count(rs, IsFuzzy), Count(rs, IsMiss), TopFive(rs)))
  }
}
