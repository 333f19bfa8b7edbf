/**
 * The keyword-density list: the frequency object's entries in enumeration
 * order, each given its density, sorted by count from high to low, and cut
 * to the first ten.
 *
 * `Object.entries` lists array-index keys (such as `"42"`) first, in
 * ascending numeric order, and the other keys in insertion order; the sort is
 * stable, so entries with equal counts keep that order.
 */
module Keywords {
  import opened Basics
  import opened Frequency
  import opened Decimal
  import opened JsNumbers

  // ----- Object.entries order -----

  predicate IsIndexEntry(e: Entry)
  {
    IsArrayIndex(e.word)
  }

  predicate IsNamedEntry(e: Entry)
  {
    !IsArrayIndex(e.word)
  }

  /** Numeric value of an array-index key; other keys never reach the comparison. */
  function IndexKey(e: Entry): nat
  {
    if IsArrayIndex(e.word) then DecimalValue(e.word) else 0
  }

  predicate Ascending(key: Entry -> nat, s: seq<Entry>)
  {
    forall i, j :: 0 <= i < j < |s| ==> key(s[i]) <= key(s[j])
  }

  lemma AscendingTail(key: Entry -> nat, s: seq<Entry>)
    requires Ascending(key, s) && |s| > 0
    ensures Ascending(key, s[1..])
  {
    forall i, j | 0 <= i < j < |s| - 1
      ensures key(s[1..][i]) <= key(s[1..][j])
    {
      assert s[1..][i] == s[i + 1] && s[1..][j] == s[j + 1];
    }
  }

  lemma AscendingCons(key: Entry -> nat, x: Entry, t: seq<Entry>)
    requires Ascending(key, t)
    requires |t| > 0 ==> key(x) <= key(t[0])
    ensures Ascending(key, [x] + t)
  {
    var r := [x] + t;
    forall i, j | 0 <= i < j < |r|
      ensures key(r[i]) <= key(r[j])
    {
      assert r[j] == t[j - 1];
      if i > 0 {
        assert r[i] == t[i - 1];
      } else if j > 1 {
        assert key(t[0]) <= key(t[j - 1]);
      }
    }
  }

  function InsertAscending(key: Entry -> nat, e: Entry, s: seq<Entry>): (r: seq<Entry>)
    requires Ascending(key, s)
    ensures multiset(r) == multiset(s) + multiset{e}
    ensures |r| == |s| + 1 && (r[0] == e || (|s| > 0 && r[0] == s[0]))
    ensures Ascending(key, r)
  {
    if |s| == 0 || key(e) <= key(s[0]) then
      AscendingCons(key, e, s);
      [e] + s
    else
      AscendingTail(key, s);
      var tail := InsertAscending(key, e, s[1..]);
      assert s == [s[0]] + s[1..];
      assert |s| > 1 ==> key(s[0]) <= key(s[1]);
      AscendingCons(key, s[0], tail);
      [s[0]] + tail
  }

  /** Insertion sort by ascending `key`. */
  function SortAscending(key: Entry -> nat, s: seq<Entry>): (r: seq<Entry>)
    ensures multiset(r) == multiset(s)
    ensures Ascending(key, r)
  {
    if |s| == 0 then []
    else
      assert s == [s[0]] + s[1..];
      InsertAscending(key, s[0], SortAscending(key, s[1..]))
  }

  lemma FilterPartition(s: seq<Entry>)
    ensures multiset(Filter(IsIndexEntry, s)) + multiset(Filter(IsNamedEntry, s)) == multiset(s)
  {
    if |s| > 0 {
      FilterPartition(s[1..]);
      assert s == [s[0]] + s[1..];
    }
  }

  /** The order in which `Object.entries` lists the frequency object's entries. */
  function EnumerationOrder(es: seq<Entry>): (r: seq<Entry>)
    ensures multiset(r) == multiset(es)
  {
    FilterPartition(es);
    SortAscending(IndexKey, Filter(IsIndexEntry, es)) + Filter(IsNamedEntry, es)
  }

  /** Both parts of the enumeration order: every listed index entry is one, and no named entry is. */
  lemma EnumerationParts(es: seq<Entry>)
    ensures forall k :: 0 <= k < |SortAscending(IndexKey, Filter(IsIndexEntry, es))| ==>
              IsIndexEntry(SortAscending(IndexKey, Filter(IsIndexEntry, es))[k])
    ensures forall k :: 0 <= k < |Filter(IsNamedEntry, es)| ==> IsNamedEntry(Filter(IsNamedEntry, es)[k])
  {
    var f := Filter(IsIndexEntry, es);
    var idx := SortAscending(IndexKey, f);
    forall k | 0 <= k < |idx|
      ensures IsIndexEntry(idx[k])
    {
      assert idx[k] in multiset(f);
      assert idx[k] in f;
    }
    var named := Filter(IsNamedEntry, es);
    forall k | 0 <= k < |named|
      ensures IsNamedEntry(named[k])
    {
      assert named[k] in named;
    }
  }

  /** Array-index keys come first, in ascending numeric order. */
  lemma EnumerationOrderIndexFirst(es: seq<Entry>)
    ensures var r := EnumerationOrder(es);
            && (forall i, j :: 0 <= i < j < |r| && IsIndexEntry(r[j]) ==> IsIndexEntry(r[i]))
            && (forall i, j :: 0 <= i < j < |r| && IsIndexEntry(r[j]) ==> IndexKey(r[i]) <= IndexKey(r[j]))
  {
    var idx := SortAscending(IndexKey, Filter(IsIndexEntry, es));
    var named := Filter(IsNamedEntry, es);
    var r := EnumerationOrder(es);
    assert r == idx + named;
    EnumerationParts(es);
    forall i, j | 0 <= i < j < |r| && IsIndexEntry(r[j])
      ensures IsIndexEntry(r[i]) && IndexKey(r[i]) <= IndexKey(r[j])
    {
      assert r[i] == idx[i] && r[j] == idx[j];
    }
  }

  /** The other keys follow in their original relative order. */
  lemma EnumerationOrderNamedKept(es: seq<Entry>)
    ensures Filter(IsNamedEntry, EnumerationOrder(es)) == Filter(IsNamedEntry, es)
  {
    var idx := SortAscending(IndexKey, Filter(IsIndexEntry, es));
    var named := Filter(IsNamedEntry, es);
    EnumerationParts(es);
    FilterConcat(IsNamedEntry, idx, named);
    FilterNone(IsNamedEntry, idx);
    FilterAll(IsNamedEntry, named);
  }

  // ----- Stable sort by count, descending -----

  predicate DescendingByCount(s: seq<Entry>)
  {
    forall i, j :: 0 <= i < j < |s| ==> s[i].count >= s[j].count
  }

  /** Entries of `s` whose count is `c`, in order. */
  function WithCount(s: seq<Entry>, c: nat): seq<Entry>
  {
    if |s| == 0 then [] else (if s[0].count == c then [s[0]] else []) + WithCount(s[1..], c)
  }

  lemma DescendingTail(s: seq<Entry>)
    requires DescendingByCount(s) && |s| > 0
    ensures DescendingByCount(s[1..])
  {
    forall i, j | 0 <= i < j < |s| - 1
      ensures s[1..][i].count >= s[1..][j].count
    {
      assert s[1..][i] == s[i + 1] && s[1..][j] == s[j + 1];
    }
  }

  lemma DescendingCons(x: Entry, t: seq<Entry>)
    requires DescendingByCount(t)
    requires |t| > 0 ==> x.count >= t[0].count
    ensures DescendingByCount([x] + t)
  {
    var r := [x] + t;
    forall i, j | 0 <= i < j < |r|
      ensures r[i].count >= r[j].count
    {
      assert r[j] == t[j - 1];
      if i > 0 {
        assert r[i] == t[i - 1];
      } else if j > 1 {
        assert t[0].count >= t[j - 1].count;
      }
    }
  }

  /** Places `e` before the first entry whose count is not greater than its own. */
  function InsertByCount(e: Entry, s: seq<Entry>): (r: seq<Entry>)
    requires DescendingByCount(s)
    ensures multiset(r) == multiset(s) + multiset{e}
    ensures |r| == |s| + 1 && (r[0] == e || (|s| > 0 && r[0] == s[0]))
    ensures DescendingByCount(r)
  {
    if |s| == 0 || s[0].count <= e.count then
      DescendingCons(e, s);
      [e] + s
    else
      DescendingTail(s);
      var tail := InsertByCount(e, s[1..]);
      assert s == [s[0]] + s[1..];
      assert |s| > 1 ==> s[0].count >= s[1].count;
      DescendingCons(s[0], tail);
      [s[0]] + tail
  }

  /** The array sort by descending count, which is stable. */
  function SortByCount(s: seq<Entry>): (r: seq<Entry>)
    ensures multiset(r) == multiset(s)
    ensures DescendingByCount(r)
  {
    if |s| == 0 then []
    else
      assert s == [s[0]] + s[1..];
      InsertByCount(s[0], SortByCount(s[1..]))
  }

  lemma WithCountCons(x: Entry, t: seq<Entry>, c: nat)
    ensures WithCount([x] + t, c) == (if x.count == c then [x] else []) + WithCount(t, c)
  {
    assert ([x] + t)[1..] == t;
  }

  lemma {:induction false} InsertByCountStable(e: Entry, s: seq<Entry>, c: nat)
    requires DescendingByCount(s)
    ensures WithCount(InsertByCount(e, s), c) == (if e.count == c then [e] else []) + WithCount(s, c)
    decreases |s|
  {
    if |s| == 0 || s[0].count <= e.count {
      WithCountCons(e, s, c);
    } else {
      DescendingTail(s);
      var tail := InsertByCount(e, s[1..]);
      assert InsertByCount(e, s) == [s[0]] + tail;
      InsertByCountStable(e, s[1..], c);
      WithCountCons(s[0], tail, c);
      assert s == [s[0]] + s[1..];
      WithCountCons(s[0], s[1..], c);
      var here := if e.count == c then [e] else [];
      var first := if s[0].count == c then [s[0]] else [];
      assert here == [] || first == [];
      SwapEmpty(first, here, WithCount(s[1..], c));
    }
  }

  /** Two pieces one of which is empty can be swapped. */
  lemma SwapEmpty<T>(x: seq<T>, y: seq<T>, z: seq<T>)
    requires x == [] || y == []
    ensures x + (y + z) == y + (x + z)
  {
    if x == [] {
      assert x + (y + z) == y + z;
      assert x + z == z;
    } else {
      assert y + z == z;
      assert y + (x + z) == x + z;
    }
  }

  /** Entries with equal counts keep their relative order. */
  lemma {:induction false} SortByCountStable(s: seq<Entry>, c: nat)
    ensures WithCount(SortByCount(s), c) == WithCount(s, c)
    decreases |s|
  {
    if |s| > 0 {
      SortByCountStable(s[1..], c);
      InsertByCountStable(s[0], SortByCount(s[1..]), c);
    }
  }

  // ----- The top ten -----

  const KeywordLimit: nat := 10

  datatype Keyword = Keyword(word: string, count: nat, density: Number)

  /** The frequency entries that make the list, before densities are attached. */
  function TopEntries(es: seq<Entry>): seq<Entry>
  {
    var sorted := SortByCount(EnumerationOrder(es));
    sorted[..Min(KeywordLimit, |sorted|)]
  }

  /**
   * The keyword-density list for a frequency object counting `total` words:
   * `min(10, |es|)` entries of the object with distinct words, sorted by
   * count from high to low, each with density `100 * count / total`.
   */
  function KeywordDensity(es: seq<Entry>, total: nat): (r: seq<Keyword>)
    requires DistinctKeys(es)
    ensures |r| == Min(KeywordLimit, |es|)
    ensures forall i, j :: 0 <= i < j < |r| ==> r[i].count >= r[j].count
    ensures forall i, j :: 0 <= i < j < |r| ==> r[i].word != r[j].word
    ensures forall i :: 0 <= i < |r| ==> Entry(r[i].word, r[i].count) in es
    ensures total > 0 ==> forall i :: 0 <= i < |r| ==> IsQuotient(r[i].density, 100 * r[i].count, total)
  {
    var top := TopEntries(es);
    TopEntriesLength(es);
    TopEntriesFromObject(es);
    TopEntriesDistinct(es);
    RowsMirror(top, total);
    RowDensities(top, total);
    Rows(top, total)
  }

  /** One keyword per entry, with its density. */
  function Rows(top: seq<Entry>, total: nat): seq<Keyword>
  {
    seq(|top|, i requires 0 <= i < |top| => Keyword(top[i].word, top[i].count, Percent(Divide(top[i].count, total))))
  }

  /** Each keyword carries the word and count of its entry. */
  lemma RowsMirror(top: seq<Entry>, total: nat)
    ensures var r := Rows(top, total);
            |r| == |top| && forall i :: 0 <= i < |r| ==> Entry(r[i].word, r[i].count) == top[i]
  {
  }

  /** Every density is the quotient `100 * count / total`. */
  lemma RowDensities(top: seq<Entry>, total: nat)
    ensures var r := Rows(top, total);
            total > 0 ==> forall i :: 0 <= i < |r| ==> IsQuotient(r[i].density, 100 * r[i].count, total)
  {
    var r := Rows(top, total);
    if total > 0 {
      forall i | 0 <= i < |r|
        ensures IsQuotient(r[i].density, 100 * r[i].count, total)
      {
        PercentOfQuotient(r[i].count, total);
      }
    }
  }

  /** Sorting keeps every entry, so the list holds `min(10, |es|)` of them. */
  lemma TopEntriesLength(es: seq<Entry>)
    ensures |TopEntries(es)| == Min(KeywordLimit, |es|)
  {
    var sorted := SortByCount(EnumerationOrder(es));
    assert |multiset(sorted)| == |multiset(es)|;
  }

  /** A prefix of a sequence sorted by count is sorted by count. */
  lemma DescendingPrefix(s: seq<Entry>, n: nat)
    requires DescendingByCount(s) && n <= |s|
    ensures DescendingByCount(s[..n])
  {
    forall i, j | 0 <= i < j < n
      ensures s[..n][i].count >= s[..n][j].count
    {
      assert s[..n][i] == s[i] && s[..n][j] == s[j];
    }
  }

  /** Every listed entry is an entry of the frequency object, and the list is sorted by count. */
  lemma TopEntriesFromObject(es: seq<Entry>)
    ensures DescendingByCount(TopEntries(es))
    ensures forall i :: 0 <= i < |TopEntries(es)| ==> TopEntries(es)[i] in es
  {
    var sorted := SortByCount(EnumerationOrder(es));
    var n := Min(KeywordLimit, |sorted|);
    assert TopEntries(es) == sorted[..n];
    DescendingPrefix(sorted, n);
    forall i | 0 <= i < n
      ensures sorted[..n][i] in es
    {
      InPermutation(sorted, es, i);
    }
  }

  /** No entry left off the list has a larger count than one on it. */
  lemma TopEntriesAreTop(es: seq<Entry>)
    ensures forall e :: e in es && e !in TopEntries(es) ==>
              forall i :: 0 <= i < |TopEntries(es)| ==> e.count <= TopEntries(es)[i].count
  {
    var sorted := SortByCount(EnumerationOrder(es));
    var n := Min(KeywordLimit, |sorted|);
    var top := sorted[..n];
    assert TopEntries(es) == top;
    forall e, i | e in es && e !in top && 0 <= i < n
      ensures e.count <= top[i].count
    {
      var p := PositionIn(sorted, es, e);
      assert top[i] == sorted[i];
    }
  }

  /** A position at which a permutation of `b` holds the element `x` of `b`. */
  lemma PositionIn(a: seq<Entry>, b: seq<Entry>, x: Entry) returns (p: nat)
    requires multiset(a) == multiset(b) && x in b
    ensures p < |a| && a[p] == x
  {
    assert x in multiset(a);
    p :| 0 <= p < |a| && a[p] == x;
  }

  /** Listed words are distinct whenever the frequency object's keys are. */
  lemma TopEntriesDistinct(es: seq<Entry>)
    requires DistinctKeys(es)
    ensures DistinctKeys(TopEntries(es))
  {
    var sorted := SortByCount(EnumerationOrder(es));
    forall i, j | 0 <= i < j < |sorted|
      ensures sorted[i].word != sorted[j].word
    {
      MultisetPairDistinct(es, sorted, i, j);
    }
  }

  lemma {:induction false} DistinctKeysMultiplicity(es: seq<Entry>, x: Entry)
    requires DistinctKeys(es)
    ensures multiset(es)[x] <= 1
    decreases |es|
  {
    if |es| > 0 {
      assert es == [es[0]] + es[1..];
      DistinctKeysMultiplicity(es[1..], x);
      if es[0] == x {
        assert x !in es[1..];
      }
    }
  }

  lemma TwoPositions(s: seq<Entry>, i: nat, j: nat)
    requires i < j < |s| && s[i] == s[j]
    ensures multiset(s)[s[i]] >= 2
  {
    assert s == s[..i] + [s[i]] + s[i + 1..j] + [s[j]] + s[j + 1..];
  }

  /** A permutation of entries with distinct keys has distinct keys. */
  lemma MultisetPairDistinct(es: seq<Entry>, s: seq<Entry>, i: nat, j: nat)
    requires DistinctKeys(es) && multiset(s) == multiset(es)
    requires i < j < |s|
    ensures s[i].word != s[j].word
  {
    if s[i].word == s[j].word {
      assert s[i] in multiset(es) && s[j] in multiset(es);
      var a :| 0 <= a < |es| && es[a] == s[i];
      var b :| 0 <= b < |es| && es[b] == s[j];
      assert a == b;
      TwoPositions(s, i, j);
      DistinctKeysMultiplicity(es, s[i]);
    }
  }

  /** Some keyword in `r` is the word `w`. */
  predicate Listed(r: seq<Keyword>, w: string)
  {
    exists k :: 0 <= k < |r| && r[k].word == w
  }

  /** An entry whose word is not listed has a count no higher than any listed one. */
  lemma KeywordListIsTop(es: seq<Entry>, total: nat)
    requires DistinctKeys(es)
    ensures var r := KeywordDensity(es, total);
            forall e, i :: e in es && 0 <= i < |r| && !Listed(r, e.word) ==> e.count <= r[i].count
  {
    var top := TopEntries(es);
    var r := KeywordDensity(es, total);
    TopEntriesAreTop(es);
    RowsMirror(top, total);
    assert r == Rows(top, total);
    forall e, i | e in es && 0 <= i < |r| && !Listed(r, e.word)
      ensures e.count <= r[i].count
    {
      assert e !in top by {
        forall k | 0 <= k < |top|
          ensures top[k] != e
        {
          assert Entry(r[k].word, r[k].count) == top[k];
        }
      }
      assert Entry(r[i].word, r[i].count) == top[i];
    }
  }
}
