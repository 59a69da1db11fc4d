/**
 * The few Python `str` operations the pipeline relies on, on `seq<char>`.
 * Each is given by what it computes and characterised by its contract.
 */
module Strings {
  import opened Wrappers

  predicate StartsWith(s: string, p: string)
  {
    |p| <= |s| && s[..|p|] == p
  }

  predicate EndsWith(s: string, p: string)
  {
    |p| <= |s| && s[|s| - |p|..] == p
  }

  /** `str.isspace()` on one character: the characters `str.strip()` removes. */
  predicate IsSpace(c: char)
  {
    || c == ' ' || '\t' <= c <= '\r' || '\U{1c}' <= c <= '\U{1f}'
    || c == '\U{85}' || c == '\U{a0}' || c == '\U{1680}' || '\U{2000}' <= c <= '\U{200a}'
    || c == '\U{2028}' || c == '\U{2029}' || c == '\U{202f}' || c == '\U{205f}' || c == '\U{3000}'
  }

  /** `s.lstrip(chars)`: drop leading characters while they are dropped characters. */
  function LStrip(s: string, drop: char -> bool): (r: string)
    ensures |r| <= |s|
  {
    if s != [] && drop(s[0]) then LStrip(s[1..], drop) else s
  }

  /** `s.rstrip(chars)`: drop trailing characters while they are dropped characters. */
  function RStrip(s: string, drop: char -> bool): (r: string)
    ensures |r| <= |s|
  {
    if s != [] && drop(s[|s| - 1]) then RStrip(s[..|s| - 1], drop) else s
  }

  /** `lstrip` leaves the longest suffix that does not start with a dropped character. */
  lemma {:induction false} LStripShape(s: string, drop: char -> bool)
    ensures var r := LStrip(s, drop);
      && r == s[|s| - |r|..]
      && (r == [] || !drop(r[0]))
      && forall i :: 0 <= i < |s| - |r| ==> drop(s[i])
  {
    if s != [] && drop(s[0]) {
      var t := s[1..];
      LStripShape(t, drop);
      var r := LStrip(t, drop);
      assert t[|t| - |r|..] == s[|s| - |r|..];
      forall i | 0 < i < |s| - |r|
        ensures drop(s[i])
      {
        assert t[i - 1] == s[i];
      }
    }
  }

  /** `rstrip` leaves the longest prefix that does not end with a dropped character. */
  lemma {:induction false} RStripShape(s: string, drop: char -> bool)
    ensures var r := RStrip(s, drop);
      && r == s[..|r|]
      && (r == [] || !drop(r[|r| - 1]))
      && forall i :: |r| <= i < |s| ==> drop(s[i])
  {
    if s != [] && drop(s[|s| - 1]) {
      var t := s[..|s| - 1];
      RStripShape(t, drop);
      var r := RStrip(t, drop);
      assert t[..|r|] == s[..|r|];
      forall i | |r| <= i < |s| - 1
        ensures drop(s[i])
      {
        assert t[i] == s[i];
      }
    }
  }

  /** `s.strip(chars)` */
  function Strip(s: string, drop: char -> bool): string
  {
    LStrip(RStrip(s, drop), drop)
  }

  /** `r` is `s[i..i + |r|]`, and every character of `s` around that slice is a dropped one. */
  predicate SliceAmidDropped(s: string, r: string, i: nat, drop: char -> bool)
  {
    && i + |r| <= |s| && r == s[i..i + |r|]
    && (forall j :: 0 <= j < i ==> drop(s[j]))
    && (forall j :: i + |r| <= j < |s| ==> drop(s[j]))
  }

  /**
   * What `strip` leaves is the slice of its input between a run of dropped
   * characters in front and a run of dropped characters behind, and it
   * neither starts nor ends with a dropped character.
   */
  lemma StripShape(s: string, drop: char -> bool)
    ensures exists i: nat :: SliceAmidDropped(s, Strip(s, drop), i, drop)
    ensures var r := Strip(s, drop);
      && (forall c :: c in r ==> c in s)
      && (r == [] || (!drop(r[0]) && !drop(r[|r| - 1])))
  {
    var t := RStrip(s, drop);
    RStripShape(s, drop);
    LStripShape(t, drop);
    StripSlice(s, drop);
    var r := LStrip(t, drop);
    assert SliceAmidDropped(s, r, |t| - |r|, drop);
    if r != [] {
      assert r[|r| - 1] == t[|t| - 1];
    }
  }

  lemma StripSlice(s: string, drop: char -> bool)
    ensures var t := RStrip(s, drop);
      var r := Strip(s, drop);
      |r| <= |t| && SliceAmidDropped(s, r, |t| - |r|, drop)
  {
    var t := RStrip(s, drop);
    RStripShape(s, drop);
    LStripShape(t, drop);
    var r := LStrip(t, drop);
    var i := |t| - |r|;
    assert forall j :: 0 <= j < i ==> drop(s[j]) by {
      assert forall j :: 0 <= j < i ==> s[j] == t[j];
    }
    assert r == t[i..] && t == s[..|t|];
    assert r == s[i..i + |r|];
  }

  /** `s.strip()` */
  function Trim(s: string): string
  {
    Strip(s, IsSpace)
  }

  /** Dropped characters in front of a clean text are all that `lstrip` removes. */
  lemma {:induction false} LStripDropped(head: string, s: string, drop: char -> bool)
    requires forall i :: 0 <= i < |head| ==> drop(head[i])
    requires s == [] || !drop(s[0])
    ensures LStrip(head + s, drop) == s
    decreases |head|
  {
    if head != [] {
      assert (head + s)[1..] == head[1..] + s;
      LStripDropped(head[1..], s, drop);
    }
  }

  /** Dropped characters after a clean text are all that `rstrip` removes. */
  lemma {:induction false} RStripDropped(s: string, tail: string, drop: char -> bool)
    requires forall i :: 0 <= i < |tail| ==> drop(tail[i])
    requires s == [] || !drop(s[|s| - 1])
    ensures RStrip(s + tail, drop) == s
    decreases |tail|
  {
    if tail != [] {
      var n := |tail| - 1;
      assert (s + tail)[..|s + tail| - 1] == s + tail[..n];
      RStripDropped(s, tail[..n], drop);
    } else {
      assert s + tail == s;
    }
  }

  lemma StripKeepsClean(s: string, drop: char -> bool)
    requires s == [] || (!drop(s[0]) && !drop(s[|s| - 1]))
    ensures Strip(s, drop) == s
  {
  }

  predicate OccursAt(s: string, pat: string, i: nat)
  {
    i + |pat| <= |s| && s[i..i + |pat|] == pat
  }

  /** `pat in s` */
  predicate Contains(s: string, pat: string)
  {
    exists i: nat | i <= |s| :: OccursAt(s, pat, i)
  }

  /** `s.find(c)`, as an option. */
  function IndexOf(s: string, c: char): (r: Option<nat>)
    ensures r.Some? ==> r.value < |s| && s[r.value] == c
    ensures r.None? <==> c !in s
  {
    if s == [] then None
    else if s[0] == c then Some(0)
    else match IndexOf(s[1..], c)
      case None => None
      case Some(i) => Some(i + 1)
  }

  /** `find` reports the first occurrence. */
  lemma {:induction false} IndexOfFirst(s: string, c: char)
    ensures IndexOf(s, c).Some? ==> c !in s[..IndexOf(s, c).value]
  {
    if s != [] && s[0] != c {
      IndexOfFirst(s[1..], c);
      match IndexOf(s[1..], c)
      case None =>
      case Some(i) =>
        assert s[..i + 1] == [s[0]] + s[1..][..i];
    }
  }

  /** An occurrence with none before it is what `find` reports. */
  lemma {:induction false} IndexOfAt(s: string, c: char, i: nat)
    requires i < |s| && s[i] == c && c !in s[..i]
    ensures IndexOf(s, c) == Some(i)
  {
    if i > 0 {
      assert s[0] in s[..i];
      assert s[1..][..i - 1] == s[1..i];
      assert forall x :: x in s[1..i] ==> x in s[..i];
      IndexOfAt(s[1..], c, i - 1);
    }
  }

  /** `s.split(c)` for a one-character separator. */
  function Split(s: string, c: char): (r: seq<string>)
    ensures |r| >= 1
    decreases |s|
  {
    match IndexOf(s, c)
    case None => [s]
    case Some(i) => [s[..i]] + Split(s[i + 1..], c)
  }

  /** No part of a split holds the separator. */
  lemma {:induction false} SplitParts(s: string, c: char)
    ensures forall k :: 0 <= k < |Split(s, c)| ==> c !in Split(s, c)[k]
    decreases |s|
  {
    match IndexOf(s, c)
    case None =>
    case Some(i) =>
      SplitParts(s[i + 1..], c);
      var rest := Split(s[i + 1..], c);
      var r := Split(s, c);
      assert r == [s[..i]] + rest;
      forall k | 0 <= k < |r|
        ensures c !in r[k]
      {
        if k > 0 {
          assert r[k] == rest[k - 1];
          assert c !in rest[k - 1];
        } else {
          IndexOfFirst(s, c);
          assert r[0] == s[..i];
          assert c !in s[..i];
        }
      }
  }

  /** `c.join(parts)` */
  function Join(parts: seq<string>, c: char): string
  {
    if |parts| <= 1 then (if parts == [] then "" else parts[0])
    else parts[0] + [c] + Join(parts[1..], c)
  }

  lemma {:induction false} JoinSplit(s: string, c: char)
    ensures Join(Split(s, c), c) == s
    decreases |s|
  {
    match IndexOf(s, c)
    case None =>
    case Some(i) =>
      JoinSplit(s[i + 1..], c);
      JoinCons(s[..i], Split(s[i + 1..], c), c);
      assert s == s[..i] + [c] + s[i + 1..];
  }

  lemma JoinCons(p: string, rest: seq<string>, c: char)
    requires |rest| >= 1
    ensures Join([p] + rest, c) == p + [c] + Join(rest, c)
  {
    assert ([p] + rest)[1..] == rest;
  }

  lemma {:induction false} SplitJoin(parts: seq<string>, c: char)
    requires |parts| >= 1 && forall i :: 0 <= i < |parts| ==> c !in parts[i]
    ensures Split(Join(parts, c), c) == parts
  {
    if |parts| > 1 {
      var s := Join(parts, c);
      var p := parts[0];
      assert s[..|p|] == p && s[|p|] == c;
      IndexOfAt(s, c, |p|);
      assert s[|p| + 1..] == Join(parts[1..], c);
      SplitJoin(parts[1..], c);
    }
  }

  /** `s.split('.')[0]`: everything before the first dot. */
  function FirstSegment(s: string): string
  {
    Split(s, '.')[0]
  }

  /** The first segment is the text up to the first dot, or all of it. */
  lemma FirstSegmentShape(s: string)
    ensures var r := FirstSegment(s);
      StartsWith(s, r) && '.' !in r && (|r| < |s| ==> s[|r|] == '.')
  {
    match IndexOf(s, '.')
    case None =>
    case Some(i) =>
      IndexOfFirst(s, '.');
      assert FirstSegment(s) == s[..i];
  }

  lemma FirstSegmentOfDotted(p: string, q: string)
    requires '.' !in p
    ensures FirstSegment(p + "." + q) == p
  {
    var s := p + "." + q;
    assert s[|p|] == '.' && s[..|p|] == p;
    IndexOfAt(s, '.', |p|);
  }

  /** `s.split('.')[-1]`: everything after the last dot. */
  function LastSegment(s: string): (r: string)
  {
    var parts := Split(s, '.');
    parts[|parts| - 1]
  }

  lemma LastSegmentShape(s: string)
    ensures var r := LastSegment(s);
      EndsWith(s, r) && '.' !in r && (|r| < |s| ==> s[|s| - |r| - 1] == '.')
  {
    JoinSplit(s, '.');
    SplitParts(s, '.');
    LastPartShape(s, Split(s, '.'));
  }

  /** The last of dot-free parts whose join is `s` ends `s`, after a dot unless it is all of `s`. */
  lemma LastPartShape(s: string, parts: seq<string>)
    requires |parts| >= 1 && Join(parts, '.') == s
    requires forall k :: 0 <= k < |parts| ==> '.' !in parts[k]
    ensures var r := parts[|parts| - 1];
      EndsWith(s, r) && '.' !in r && (|r| < |s| ==> s[|s| - |r| - 1] == '.')
  {
    JoinEnds(parts, '.');
  }

  /** Joined parts end with the last part, preceded by the separator when there are several. */
  lemma {:induction false} JoinEnds(parts: seq<string>, c: char)
    requires |parts| >= 1
    ensures var r, s := parts[|parts| - 1], Join(parts, c);
      && EndsWith(s, r)
      && (|parts| == 1 ==> s == r)
      && (|parts| > 1 ==> |r| < |s| && s[|s| - |r| - 1] == c)
    decreases |parts|
  {
    if |parts| > 1 {
      var rest := parts[1..];
      JoinEnds(rest, c);
      assert rest[|rest| - 1] == parts[|parts| - 1];
      EndsAfterSeparator(parts[0] + [c], Join(rest, c), parts[|parts| - 1], c);
    }
  }

  /** A text ending in `r` keeps that ending, and its separator, behind a prefix that ends in the separator. */
  lemma EndsAfterSeparator(u: string, w: string, r: string, c: char)
    requires |u| >= 1 && u[|u| - 1] == c
    requires EndsWith(w, r) && (|r| < |w| ==> w[|w| - |r| - 1] == c)
    ensures var s := u + w; EndsWith(s, r) && |r| < |s| && s[|s| - |r| - 1] == c
  {
    var s := u + w;
    assert s[|s| - |r|..] == w[|w| - |r|..];
    if |r| < |w| {
      assert s[|s| - |r| - 1] == w[|w| - |r| - 1];
    } else {
      assert s[|s| - |r| - 1] == u[|u| - 1];
    }
  }

  /** Without a dot the last segment is the whole text. */
  lemma LastSegmentWhole(s: string)
    requires '.' !in s
    ensures LastSegment(s) == s && EndsWith(s, s)
  {
    assert s[0..] == s;
  }

  /** Past the first dot, the last segment is that of the rest. */
  lemma LastSegmentStep(s: string, i: nat)
    requires IndexOf(s, '.') == Some(i)
    ensures LastSegment(s) == LastSegment(s[i + 1..])
  {
    var rest := Split(s[i + 1..], '.');
    var parts := [s[..i]] + rest;
    assert Split(s, '.') == parts;
    assert parts[|parts| - 1] == rest[|rest| - 1];
  }

  lemma {:induction false} LastSegmentOfDotted(prefix: string, name: string)
    requires '.' !in name
    ensures LastSegment(prefix + "." + name) == name
    decreases |prefix|
  {
    var s := prefix + "." + name;
    assert s[|prefix|] == '.';
    var i := IndexOf(s, '.').value;
    IndexOfFirst(s, '.');
    LastSegmentStep(s, i);
    if i == |prefix| {
      assert s[i + 1..] == name;
      LastSegmentWhole(name);
    } else {
      var rest := prefix[i + 1..];
      assert s[i + 1..] == rest + "." + name;
      LastSegmentOfDotted(rest, name);
    }
  }

  /** `s.replace(pat, rep)`: every non-overlapping occurrence, scanning left to right. */
  function Replace(s: string, pat: string, rep: string): string
    requires pat != []
    decreases |s|
  {
    if |s| < |pat| then s
    else if s[..|pat|] == pat then rep + Replace(s[|pat|..], pat, rep)
    else [s[0]] + Replace(s[1..], pat, rep)
  }

  lemma SamePrefix(p: string, a: string, b: string)
    ensures p + a == p + b <==> a == b
  {
    if p + a == p + b {
      assert (p + a)[|p|..] == a && (p + b)[|p|..] == b;
    }
  }

  /** No occurrence of `pat` starts at the front of `s`: its first character is kept. */
  lemma ReplaceKeep(s: string, pat: string, rep: string)
    requires pat != [] && s != [] && !(|s| >= |pat| && s[..|pat|] == pat)
    ensures Replace(s, pat, rep) == [s[0]] + Replace(s[1..], pat, rep)
  {
    if |s| < |pat| {
      assert |s[1..]| < |pat|;
      assert [s[0]] + s[1..] == s;
    }
  }

  /** A character that cannot start a two-character pattern there is kept. */
  lemma ReplaceKeepHead(c: char, e: string, pat: string, rep: string)
    requires |pat| == 2 && (c != pat[0] || e == [] || e[0] != pat[1])
    ensures Replace([c] + e, pat, rep) == [c] + Replace(e, pat, rep)
  {
    var s := [c] + e;
    assert |s| >= 2 ==> s[..2][0] == c && s[..2][1] == e[0];
    ReplaceKeep(s, pat, rep);
    assert s[1..] == e;
  }

  /** A text none of whose characters can start the pattern is kept whole in front of the rest. */
  lemma {:induction false} ReplaceKeepPlain(u: string, e: string, pat: string, rep: string)
    requires |pat| == 2 && forall i :: 0 <= i < |u| ==> u[i] != pat[0]
    ensures Replace(u + e, pat, rep) == u + Replace(e, pat, rep)
    decreases |u|
  {
    if u != [] {
      var t := u[1..];
      assert u + e == [u[0]] + (t + e);
      ReplaceKeepHead(u[0], t + e, pat, rep);
      ReplaceKeepPlain(t, e, pat, rep);
      assert [u[0]] + (t + Replace(e, pat, rep)) == ([u[0]] + t) + Replace(e, pat, rep);
      assert [u[0]] + t == u;
    } else {
      assert u + e == e;
    }
  }

  /**
   * A word whose second character differs from the pattern's second, and none
   * of whose later characters can start the pattern, is kept whole.
   */
  lemma ReplaceKeepWord(w: string, e: string, pat: string, rep: string)
    requires |pat| == 2 && |w| >= 2 && w[1] != pat[1]
    requires forall i :: 1 <= i < |w| ==> w[i] != pat[0]
    ensures Replace(w + e, pat, rep) == w + Replace(e, pat, rep)
  {
    var t := w[1..];
    assert w + e == [w[0]] + (t + e) && (t + e)[0] == w[1];
    ReplaceKeepHead(w[0], t + e, pat, rep);
    ReplaceKeepPlain(t, e, pat, rep);
    assert [w[0]] + (t + Replace(e, pat, rep)) == ([w[0]] + t) + Replace(e, pat, rep);
    assert [w[0]] + t == w;
  }

  /** An occurrence of `pat` at the front of the text is replaced. */
  lemma ReplaceHit(pat: string, rest: string, rep: string)
    requires pat != []
    ensures Replace(pat + rest, pat, rep) == rep + Replace(rest, pat, rep)
  {
    assert (pat + rest)[..|pat|] == pat;
    assert (pat + rest)[|pat|..] == rest;
  }

  lemma {:induction false} ReplaceChar(s: string, c: char, d: char)
    ensures var r := Replace(s, [c], [d]);
      |r| == |s| && forall i :: 0 <= i < |s| ==> r[i] == if s[i] == c then d else s[i]
    decreases |s|
  {
    if |s| >= 1 {
      ReplaceChar(s[1..], c, d);
    }
  }

  lemma {:induction false} ReplaceAbsent(s: string, pat: string, rep: string)
    requires pat != [] && !Contains(s, pat)
    ensures Replace(s, pat, rep) == s
    decreases |s|
  {
    if |s| >= |pat| {
      assert !OccursAt(s, pat, 0);
      forall i: nat | OccursAt(s[1..], pat, i)
        ensures OccursAt(s, pat, i + 1)
      {
        assert s[1..][i..i + |pat|] == s[i + 1..i + 1 + |pat|];
      }
      ReplaceAbsent(s[1..], pat, rep);
    }
  }
}
