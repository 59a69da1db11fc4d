/**
 * Python's `dict` from strings to strings: entries kept in insertion order.
 * Assigning to a present key keeps its position and replaces its value;
 * assigning to a new key appends it.  Iteration follows this order.  A
 * dictionary never holds a key twice: every dictionary built by assignments
 * from an empty one has distinct keys (`PutKeepsDistinct`, `PutAllKeepsDistinct`).
 */
module Dicts {
  import opened Wrappers

  /** The entries of a dictionary, in iteration order. */
  type Dict = seq<(string, string)>

  predicate DistinctKeys(es: seq<(string, string)>)
  {
    forall i, j :: 0 <= i < j < |es| ==> es[i].0 != es[j].0
  }

  /** The keys, in iteration order. */
  function Keys(es: seq<(string, string)>): (r: seq<string>)
    ensures |r| == |es| && forall i :: 0 <= i < |es| ==> r[i] == es[i].0
  {
    seq(|es|, i requires 0 <= i < |es| => es[i].0)
  }

  lemma KeysSnoc(es: seq<(string, string)>, e: (string, string))
    ensures Keys(es + [e]) == Keys(es) + [e.0]
  {
  }

  lemma KeysLast(es: seq<(string, string)>)
    requires es != []
    ensures Keys(es) == Keys(es[..|es| - 1]) + [es[|es| - 1].0]
  {
    assert es == es[..|es| - 1] + [es[|es| - 1]];
    KeysSnoc(es[..|es| - 1], es[|es| - 1]);
  }

  lemma KeysCons(es: seq<(string, string)>)
    requires es != []
    ensures Keys(es) == [es[0].0] + Keys(es[1..])
  {
  }

  /** `d.get(k)`: the value of the first entry with key `k`. */
  function Get(es: seq<(string, string)>, k: string): (r: Option<string>)
    ensures r.None? <==> k !in Keys(es)
  {
    if es == [] then None
    else if es[0].0 == k then Some(es[0].1)
    else
      KeysCons(es);
      Get(es[1..], k)
  }

  /** An entry whose key does not occur before it is the one `get` finds. */
  lemma {:induction false} GetFirst(es: seq<(string, string)>, i: nat)
    requires i < |es| && es[i].0 !in Keys(es[..i])
    ensures Get(es, es[i].0) == Some(es[i].1)
  {
    if i > 0 {
      assert Keys(es[..i])[0] == es[0].0;
      var t := es[1..];
      assert t[i - 1] == es[i];
      assert forall x :: x in Keys(t[..i - 1]) ==> x in Keys(es[..i]) by {
        forall x | x in Keys(t[..i - 1])
          ensures x in Keys(es[..i])
        {
          var j :| 0 <= j < i - 1 && Keys(t[..i - 1])[j] == x;
          assert Keys(es[..i])[j + 1] == x;
        }
      }
      GetFirst(t, i - 1);
    }
  }

  lemma GetAt(d: Dict, i: nat)
    requires DistinctKeys(d) && i < |d|
    ensures Get(d, d[i].0) == Some(d[i].1)
  {
    forall j | 0 <= j < i
      ensures Keys(d[..i])[j] != d[i].0
    {
      assert d[..i][j] == d[j];
    }
    GetFirst(d, i);
  }

  /** The position of the first entry with key `k`. */
  function IndexOfKey(d: Dict, k: string): (i: nat)
    requires k in Keys(d)
    ensures i < |d| && d[i].0 == k
  {
    if d[0].0 == k then 0
    else
      KeyInTail(d, k);
      1 + IndexOfKey(d[1..], k)
  }

  lemma KeyInTail(d: Dict, k: string)
    requires k in Keys(d) && d != [] && d[0].0 != k
    ensures k in Keys(d[1..])
  {
    var i :| 0 <= i < |d| && Keys(d)[i] == k;
    assert d[1..][i - 1] == d[i];
  }

  /** No entry before the one `IndexOfKey` finds has its key. */
  lemma {:induction false} IndexOfKeyFirst(d: Dict, k: string)
    requires k in Keys(d)
    ensures k !in Keys(d[..IndexOfKey(d, k)])
  {
    if d[0].0 != k {
      KeyInTail(d, k);
      IndexOfKeyFirst(d[1..], k);
      var i := IndexOfKey(d[1..], k);
      var ks := Keys(d[..i + 1]);
      forall j | 0 <= j < |ks|
        ensures ks[j] != k
      {
        if j > 0 {
          assert Keys(d[1..][..i])[j - 1] == d[j].0;
        }
      }
    }
  }

  /** `d[k] = v`: a present key keeps its place, a new key goes last. */
  function Put(d: Dict, k: string, v: string): (r: Dict)
    ensures Keys(r) == if k in Keys(d) then Keys(d) else Keys(d) + [k]
  {
    if k in Keys(d) then
      var i := IndexOfKey(d, k);
      assert Keys(d[i := (k, v)]) == Keys(d);
      d[i := (k, v)]
    else
      KeysSnoc(d, (k, v));
      d + [(k, v)]
  }

  /** Replacing an entry keyed otherwise, by one keyed otherwise, does not change what `get` finds. */
  lemma {:induction false} GetReplaceOther(es: seq<(string, string)>, i: nat, e: (string, string), k: string)
    requires i < |es| && es[i].0 != k && e.0 != k
    ensures Get(es[i := e], k) == Get(es, k)
  {
    if i > 0 && es[0].0 != k {
      assert es[i := e][1..] == es[1..][i - 1 := e];
      GetReplaceOther(es[1..], i - 1, e, k);
    }
  }

  /** Appending an entry keyed otherwise does not change what `get` finds. */
  lemma {:induction false} GetAppendOther(es: seq<(string, string)>, e: (string, string), k: string)
    requires e.0 != k
    ensures Get(es + [e], k) == Get(es, k)
  {
    if es != [] && es[0].0 != k {
      assert (es + [e])[1..] == es[1..] + [e];
      GetAppendOther(es[1..], e, k);
    }
  }

  /** After `d[k] = v`, `k` holds `v` and every other key is as before. */
  lemma GetPut(d: Dict, k: string, v: string, k': string)
    ensures Get(Put(d, k, v), k') == if k' == k then Some(v) else Get(d, k')
  {
    var r := Put(d, k, v);
    if k in Keys(d) {
      var i := IndexOfKey(d, k);
      if k' == k {
        IndexOfKeyFirst(d, k);
        assert r[..i] == d[..i];
        GetFirst(r, i);
      } else {
        GetReplaceOther(d, i, (k, v), k');
      }
    } else if k' == k {
      assert r[..|d|] == d;
      GetFirst(r, |d|);
    } else {
      GetAppendOther(d, (k, v), k');
    }
  }

  /** A prefix of a dictionary is one, and the next key is not in it. */
  lemma DistinctPrefix(d: Dict, n: nat)
    requires DistinctKeys(d) && n <= |d|
    ensures DistinctKeys(d[..n]) && (n < |d| ==> d[n].0 !in Keys(d[..n]))
  {
    var p := d[..n];
    forall i, j | 0 <= i < j < |p|
      ensures p[i].0 != p[j].0
    {
      assert p[i] == d[i] && p[j] == d[j];
    }
    forall i | 0 <= i < |p| && n < |d|
      ensures Keys(p)[i] != d[n].0
    {
      assert p[i] == d[i];
    }
  }

  /** An entry with a new key keeps the keys distinct. */
  lemma DistinctSnoc(d: Dict, e: (string, string))
    requires DistinctKeys(d) && e.0 !in Keys(d)
    ensures DistinctKeys(d + [e])
  {
    var r := d + [e];
    forall i, j | 0 <= i < j < |r|
      ensures r[i].0 != r[j].0
    {
      assert Keys(d)[i] == d[i].0;
    }
  }

  /** Assignment keeps the keys distinct. */
  lemma PutKeepsDistinct(d: Dict, k: string, v: string)
    requires DistinctKeys(d)
    ensures DistinctKeys(Put(d, k, v))
  {
    var r := Put(d, k, v);
    forall i, j | 0 <= i < j < |r|
      ensures r[i].0 != r[j].0
    {
      assert Keys(r)[i] == r[i].0 && Keys(r)[j] == r[j].0;
      if j < |d| {
        assert Keys(d)[i] == d[i].0 && Keys(d)[j] == d[j].0;
      } else {
        assert Keys(d)[i] == d[i].0;
      }
    }
  }

  /** A sequence of assignments `d[k] = v` in order (a `dict.update` or a filling loop). */
  function PutAll(d: Dict, es: seq<(string, string)>): Dict
  {
    if es == [] then d else Put(PutAll(d, es[..|es| - 1]), es[|es| - 1].0, es[|es| - 1].1)
  }

  /** One more assignment at the end of a sequence of assignments. */
  lemma PutAllSnoc(d: Dict, es: seq<(string, string)>, e: (string, string))
    ensures PutAll(d, es + [e]) == Put(PutAll(d, es), e.0, e.1)
  {
    assert (es + [e])[..|es|] == es;
  }

  /**
   * Assignments never move a key: the old keys stay in front, in their order,
   * and each key of the result is an old key or an assigned one.
   */
  lemma {:induction false} PutAllKeyOrder(d: Dict, es: seq<(string, string)>)
    ensures var ks := Keys(PutAll(d, es));
      && |Keys(d)| <= |ks| && ks[..|Keys(d)|] == Keys(d)
      && forall k :: k in ks <==> k in Keys(d) || k in Keys(es)
  {
    if es != [] {
      var n := |es| - 1;
      PutAllKeyOrder(d, es[..n]);
      KeysLast(es);
      var ks := Keys(PutAll(d, es[..n]));
      assert (ks + [es[n].0])[..|Keys(d)|] == ks[..|Keys(d)|];
    }
  }

  /** Assignments keep the keys distinct; in particular a dictionary filled from empty has distinct keys. */
  lemma {:induction false} PutAllKeepsDistinct(d: Dict, es: seq<(string, string)>)
    requires DistinctKeys(d)
    ensures DistinctKeys(PutAll(d, es))
  {
    if es != [] {
      var n := |es| - 1;
      PutAllKeepsDistinct(d, es[..n]);
      PutKeepsDistinct(PutAll(d, es[..n]), es[n].0, es[n].1);
    }
  }

  /** Assigning distinct keys one by one to an empty dictionary lists them in that order. */
  lemma {:induction false} PutAllFresh(es: seq<(string, string)>)
    requires DistinctKeys(es)
    ensures PutAll([], es) == es
  {
    if es != [] {
      var n := |es| - 1;
      var p := es[..n];
      DistinctPrefix(es, n);
      PutAllFresh(p);
      assert p + [es[n]] == es;
    }
  }

  /** The value of the last entry with key `k`: the one that survives a sequence of assignments. */
  function LastValue(es: seq<(string, string)>, k: string): (r: Option<string>)
    ensures r.None? <==> k !in Keys(es)
  {
    if es == [] then None
    else if es[|es| - 1].0 == k then Some(es[|es| - 1].1)
    else
      KeysLast(es);
      LastValue(es[..|es| - 1], k)
  }

  /** After a sequence of assignments, a key holds the last value written to it, or its old value. */
  lemma {:induction false} GetPutAll(d: Dict, es: seq<(string, string)>, k: string)
    ensures Get(PutAll(d, es), k) == if k in Keys(es) then LastValue(es, k) else Get(d, k)
  {
    if es != [] {
      var n := |es| - 1;
      GetPutAll(d, es[..n], k);
      GetPut(PutAll(d, es[..n]), es[n].0, es[n].1, k);
      KeysLast(es);
    }
  }

  /** A dictionary filled from empty maps each key to the last value written to it. */
  lemma GetPutAllFromEmpty(es: seq<(string, string)>)
    ensures forall k :: Get(PutAll([], es), k) == LastValue(es, k)
  {
    forall k
      ensures Get(PutAll([], es), k) == LastValue(es, k)
    {
      GetPutAll([], es, k);
    }
  }

  lemma {:induction false} PutAllAppend(d: Dict, a: seq<(string, string)>, b: seq<(string, string)>)
    ensures PutAll(d, a + b) == PutAll(PutAll(d, a), b)
    decreases |b|
  {
    if b == [] {
      assert a + b == a;
    } else {
      var n := |b| - 1;
      assert (a + b)[..|a + b| - 1] == a + b[..n];
      PutAllAppend(d, a, b[..n]);
    }
  }

  /** For a dictionary, the last value of a key is its only value. */
  lemma {:induction false} LastValueOfDict(d: Dict, k: string)
    requires DistinctKeys(d)
    ensures LastValue(d, k) == Get(d, k)
  {
    if k in Keys(d) {
      var i :| 0 <= i < |d| && Keys(d)[i] == k;
      GetAt(d, i);
      LastValueAt(d, i);
    }
  }

  /** The last value of the key of an entry no later entry shares is that entry's value. */
  lemma {:induction false} LastValueAt(es: seq<(string, string)>, i: nat)
    requires i < |es| && forall j :: i < j < |es| ==> es[j].0 != es[i].0
    ensures LastValue(es, es[i].0) == Some(es[i].1)
  {
    var n := |es| - 1;
    if i < n {
      assert es[..n][i] == es[i];
      forall j | i < j < n
        ensures es[..n][j].0 != es[i].0
      {
        assert es[..n][j] == es[j];
      }
      LastValueAt(es[..n], i);
    }
  }

  /** `d.update(e)` */
  function Update(d: Dict, e: Dict): (r: Dict)
    requires DistinctKeys(e)
    ensures forall k :: Get(r, k) == if k in Keys(e) then Get(e, k) else Get(d, k)
    ensures |Keys(d)| <= |Keys(r)| && Keys(r)[..|Keys(d)|] == Keys(d)
    ensures forall k :: k in Keys(r) <==> k in Keys(d) || k in Keys(e)
  {
    PutAllKeyOrder(d, e);
    forall k ensures Get(PutAll(d, e), k) == if k in Keys(e) then Get(e, k) else Get(d, k) {
      GetPutAll(d, e, k);
      LastValueOfDict(e, k);
    }
    PutAll(d, e)
  }

  /** Merging one dictionary into another keeps the keys distinct. */
  lemma UpdateKeepsDistinct(d: Dict, e: Dict)
    requires DistinctKeys(d) && DistinctKeys(e)
    ensures DistinctKeys(Update(d, e))
  {
    PutAllKeepsDistinct(d, e);
  }
}
