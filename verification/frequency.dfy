/**
 * The word-frequency object: for each lower-cased word in turn, the count
 * stored under it (none yet reads as 0) goes up by one. The object is
 * represented by its entries in insertion order.
 */
module Frequency {

  import opened Basics

  datatype Entry = Entry(word: string, count: nat)

  /** The number stored under `w`, or 0 when `w` is not a key. */
  function Count(es: seq<Entry>, w: string): nat
  {
    if |es| == 0 then 0 else if es[0].word == w then es[0].count else Count(es[1..], w)
  }

  function Keys(es: seq<Entry>): (ks: seq<string>)
    ensures |ks| == |es| && forall i :: 0 <= i < |es| ==> ks[i] == es[i].word
  {
    seq(|es|, i requires 0 <= i < |es| => es[i].word)
  }

  predicate DistinctKeys(es: seq<Entry>)
  {
    forall i, j :: 0 <= i < j < |es| ==> es[i].word != es[j].word
  }

  predicate Positive(es: seq<Entry>)
  {
    forall i :: 0 <= i < |es| ==> es[i].count >= 1
  }

  /** Sum of all counts. */
  function Total(es: seq<Entry>): nat
  {
    if |es| == 0 then 0 else es[0].count + Total(es[1..])
  }

  /** One `forEach` step: increment the count of `w`, adding `w` at the end with count 1 if it is new. */
  function Bump(es: seq<Entry>, w: string): (r: seq<Entry>)
    requires DistinctKeys(es) && Positive(es)
    ensures DistinctKeys(r) && Positive(r)
    ensures w in Keys(es) ==> Keys(r) == Keys(es)
    ensures w !in Keys(es) ==> Keys(r) == Keys(es) + [w]
  {
    if |es| == 0 then [Entry(w, 1)]
    else if es[0].word == w then
      BumpHere(es, w);
      [Entry(w, es[0].count + 1)] + es[1..]
    else
      var rest := Bump(es[1..], w);
      BumpLater(es, w, rest);
      [es[0]] + rest
  }

  /** Incrementing the first entry keeps the keys and their properties. */
  lemma BumpHere(es: seq<Entry>, w: string)
    requires DistinctKeys(es) && Positive(es) && |es| > 0 && es[0].word == w
    ensures var r := [Entry(w, es[0].count + 1)] + es[1..];
            DistinctKeys(r) && Positive(r) && Keys(r) == Keys(es) && w in Keys(es)
  {
    KeysCons(Entry(w, es[0].count + 1), es[1..]);
    KeysCons(es[0], es[1..]);
  }

  /** Keeping the first entry in front of the bumped rest keeps the keys and their properties. */
  lemma BumpLater(es: seq<Entry>, w: string, rest: seq<Entry>)
    requires DistinctKeys(es) && Positive(es) && |es| > 0 && es[0].word != w
    requires DistinctKeys(rest) && Positive(rest)
    requires w in Keys(es[1..]) ==> Keys(rest) == Keys(es[1..])
    requires w !in Keys(es[1..]) ==> Keys(rest) == Keys(es[1..]) + [w]
    ensures var r := [es[0]] + rest;
            && DistinctKeys(r) && Positive(r)
            && (w in Keys(es) ==> Keys(r) == Keys(es))
            && (w !in Keys(es) ==> Keys(r) == Keys(es) + [w])
  {
    KeysCons(es[0], es[1..]);
    KeysCons(es[0], rest);
    ConsDistinct(es[0], rest);
  }

  lemma KeysCons(e: Entry, es: seq<Entry>)
    ensures Keys([e] + es) == [e.word] + Keys(es)
  {
  }

  lemma ConsDistinct(e: Entry, es: seq<Entry>)
    requires DistinctKeys(es) && e.word !in Keys(es)
    ensures DistinctKeys([e] + es)
  {
    forall i, j | 0 <= i < j < |[e] + es|
      ensures ([e] + es)[i].word != ([e] + es)[j].word
    {
      if i == 0 {
        assert ([e] + es)[j].word == Keys(es)[j - 1];
      }
    }
  }

  /** A step adds one occurrence of `w` and changes no other count. */
  lemma {:induction false} BumpCounts(es: seq<Entry>, w: string)
    requires DistinctKeys(es) && Positive(es)
    ensures forall x :: Count(Bump(es, w), x) == Count(es, x) + (if x == w then 1 else 0)
    ensures Total(Bump(es, w)) == Total(es) + 1
    decreases |es|
  {
    if |es| == 0 {
    } else if es[0].word == w {
      assert w !in Keys(es[1..]);
      CountAbsent(es[1..], w);
      assert Bump(es, w)[1..] == es[1..];
    } else {
      BumpCounts(es[1..], w);
      assert Bump(es, w)[1..] == Bump(es[1..], w);
    }
  }

  lemma {:induction false} CountAbsent(es: seq<Entry>, w: string)
    requires w !in Keys(es)
    ensures Count(es, w) == 0
    decreases |es|
  {
    if |es| > 0 {
      assert Keys(es[1..]) == Keys(es)[1..];
      CountAbsent(es[1..], w);
    }
  }

  /**
   * The frequency object after counting every word of `ws`: keys are distinct
   * and appear in first-occurrence order, each count is the number of
   * occurrences of its key, and the counts add up to the number of words.
   */
  function Tally(ws: seq<string>): (r: seq<Entry>)
    ensures DistinctKeys(r) && Positive(r)
    ensures forall x :: Count(r, x) == multiset(ws)[x]
    ensures Total(r) == |ws|
    ensures forall x :: x in Keys(r) <==> x in ws
  {
    if |ws| == 0 then []
    else
      var prefix := ws[..|ws| - 1];
      var w := ws[|ws| - 1];
      assert ws == prefix + [w];
      var r := Bump(Tally(prefix), w);
      BumpCounts(Tally(prefix), w);
      assert forall x :: x in Keys(r) ==> x in Keys(Tally(prefix)) || x == w;
      r
  }

  /** An occurrence with no earlier one is the first occurrence. */
  lemma FirstIndexUnique(ws: seq<string>, x: string, k: nat)
    requires k < |ws| && ws[k] == x
    requires forall m :: 0 <= m < k ==> ws[m] != x
    ensures FirstIndex(ws, x) == k
  {
  }

  /** Appending a word does not move the first occurrence of a word already present. */
  lemma FirstIndexExtend(ws: seq<string>, x: string)
    requires |ws| > 0 && x in ws[..|ws| - 1]
    ensures FirstIndex(ws, x) == FirstIndex(ws[..|ws| - 1], x)
  {
    var prefix := ws[..|ws| - 1];
    var f := FirstIndex(prefix, x);
    assert forall m :: 0 <= m < f ==> ws[m] == prefix[m];
    FirstIndexUnique(ws, x, f);
  }

  /** Keys are words of `ws`, listed in the order of their first occurrences. */
  predicate FirstOccurrenceOrder(es: seq<Entry>, ws: seq<string>)
  {
    && (forall i :: 0 <= i < |es| ==> es[i].word in ws)
    && (forall i, j :: 0 <= i < j < |es| && es[i].word in ws && es[j].word in ws ==>
          FirstIndex(ws, es[i].word) < FirstIndex(ws, es[j].word))
  }

  /** Counting one more word keeps the earlier keys in their places and adds at most the new word at the end. */
  lemma TallyExtends(ws: seq<string>)
    requires |ws| > 0
    ensures var prev := Tally(ws[..|ws| - 1]);
            && |prev| <= |Tally(ws)| <= |prev| + 1
            && (forall i :: 0 <= i < |prev| ==> Tally(ws)[i].word == prev[i].word)
            && (|Tally(ws)| > |prev| ==> Tally(ws)[|prev|].word == ws[|ws| - 1] && ws[|ws| - 1] !in ws[..|ws| - 1])
  {
    var prefix := ws[..|ws| - 1];
    var w := ws[|ws| - 1];
    var prev := Tally(prefix);
    assert Tally(ws) == Bump(prev, w);
    assert Keys(Tally(ws))[..|prev|] == Keys(prev);
  }

  /** Appending a word keeps the relative order of first occurrences already present. */
  lemma FirstIndexExtendOrder(ws: seq<string>, a: string, b: string)
    requires |ws| > 0 && a in ws[..|ws| - 1] && b in ws[..|ws| - 1]
    requires FirstIndex(ws[..|ws| - 1], a) < FirstIndex(ws[..|ws| - 1], b)
    ensures FirstIndex(ws, a) < FirstIndex(ws, b)
  {
    FirstIndexExtend(ws, a);
    FirstIndexExtend(ws, b);
  }

  /** A word first occurring at the end comes after every word already present. */
  lemma FirstIndexNewLast(ws: seq<string>, a: string)
    requires |ws| > 0 && a in ws[..|ws| - 1] && ws[|ws| - 1] !in ws[..|ws| - 1]
    ensures FirstIndex(ws, a) < FirstIndex(ws, ws[|ws| - 1])
  {
    FirstIndexExtend(ws, a);
    FirstIndexUnique(ws, ws[|ws| - 1], |ws| - 1);
  }

  /** One counting step keeps the keys in first-occurrence order. */
  lemma OrderStep(ws: seq<string>, prev: seq<Entry>, r: seq<Entry>, i: nat, j: nat)
    requires |ws| > 0 && FirstOccurrenceOrder(prev, ws[..|ws| - 1])
    requires |prev| <= |r| <= |prev| + 1
    requires forall k :: 0 <= k < |prev| ==> r[k].word == prev[k].word
    requires |r| > |prev| ==> r[|prev|].word == ws[|ws| - 1] && ws[|ws| - 1] !in ws[..|ws| - 1]
    requires i < j < |r|
    ensures FirstIndex(ws, r[i].word) < FirstIndex(ws, r[j].word)
  {
    var prefix := ws[..|ws| - 1];
    assert r[i].word == prev[i].word && prev[i].word in prefix;
    if j < |prev| {
      assert r[j].word == prev[j].word && prev[j].word in prefix;
      assert FirstIndex(prefix, prev[i].word) < FirstIndex(prefix, prev[j].word);
      FirstIndexExtendOrder(ws, r[i].word, r[j].word);
    } else {
      assert r[j].word == ws[|ws| - 1];
      FirstIndexNewLast(ws, r[i].word);
    }
  }

  /** The frequency object lists its keys in the order the words first occur. */
  lemma {:induction false} TallyOrder(ws: seq<string>)
    ensures FirstOccurrenceOrder(Tally(ws), ws)
    decreases |ws|
  {
    if |ws| > 0 {
      var prev := Tally(ws[..|ws| - 1]);
      var r := Tally(ws);
      TallyOrder(ws[..|ws| - 1]);
      TallyExtends(ws);
      forall i | 0 <= i < |r|
        ensures r[i].word in ws
      {
        assert r[i].word in Keys(r);
      }
      forall i, j | 0 <= i < j < |r|
        ensures FirstIndex(ws, r[i].word) < FirstIndex(ws, r[j].word)
      {
        OrderStep(ws, prev, r, i, j);
      }
    }
  }

  /** With distinct keys, `Count` finds the count stored at each key. */
  lemma {:induction false} CountAtKey(es: seq<Entry>, i: nat)
    requires DistinctKeys(es) && i < |es|
    ensures Count(es, es[i].word) == es[i].count
    decreases |es|
  {
    if i > 0 {
      CountAtKey(es[1..], i - 1);
    }
  }

  /** Each entry of the tally stores the number of times its word occurs, which is at least one. */
  lemma TallyEntries(ws: seq<string>)
    ensures forall i :: 0 <= i < |Tally(ws)| ==>
              Tally(ws)[i].count == multiset(ws)[Tally(ws)[i].word] >= 1
  {
    var r := Tally(ws);
    forall i | 0 <= i < |r|
      ensures r[i].count == multiset(ws)[r[i].word] >= 1
    {
      CountAtKey(r, i);
    }
  }

  lemma {:induction false} DistinctCardinality(ks: seq<string>)
    requires forall i, j :: 0 <= i < j < |ks| ==> ks[i] != ks[j]
    ensures |set k | k in ks| == |ks|
    decreases |ks|
  {
    if |ks| > 0 {
      DistinctCardinality(ks[1..]);
      assert (set k | k in ks) == {ks[0]} + (set k | k in ks[1..]);
      assert ks[0] !in (set k | k in ks[1..]);
    }
  }

  /** The tally has one entry per distinct word: `new Set(words).size` of them. */
  lemma TallySize(ws: seq<string>)
    ensures |Tally(ws)| == |set w | w in ws|
  {
    var ks := Keys(Tally(ws));
    DistinctCardinality(ks);
    assert (set k | k in ks) == (set w | w in ws);
  }

  lemma {:induction false} TotalAtLeastLength(es: seq<Entry>)
    requires Positive(es)
    ensures Total(es) >= |es|
    decreases |es|
  {
    if |es| > 0 {
      TotalAtLeastLength(es[1..]);
    }
  }

  /** There are never more distinct words than words. */
  lemma UniqueAtMostTotal(ws: seq<string>)
    ensures |set w | w in ws| <= |ws|
  {
    TallySize(ws);
    TotalAtLeastLength(Tally(ws));
  }
}
