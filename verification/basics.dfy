/** Small sequence utilities shared by the text-statistics and comparison models. */
module Basics {

  datatype Option<T> = None | Some(value: T)

  /** Elements of `s` that satisfy `p`, in their original order (JavaScript's `Array.prototype.filter`). */
  function Filter<T>(p: T -> bool, s: seq<T>): (r: seq<T>)
    ensures |r| <= |s|
    ensures forall x :: x in r ==> x in s && p(x)
  {
    if |s| == 0 then [] else (if p(s[0]) then [s[0]] else []) + Filter(p, s[1..])
  }

  lemma {:induction false} FilterConcat<T>(p: T -> bool, a: seq<T>, b: seq<T>)
    ensures Filter(p, a + b) == Filter(p, a) + Filter(p, b)
    decreases |a|
  {
    if |a| == 0 {
      assert a + b == b;
    } else {
      assert (a + b)[1..] == a[1..] + b;
      FilterConcat(p, a[1..], b);
    }
  }

  lemma {:induction false} FilterAll<T>(p: T -> bool, s: seq<T>)
    requires forall i :: 0 <= i < |s| ==> p(s[i])
    ensures Filter(p, s) == s
    decreases |s|
  {
    if |s| > 0 {
      FilterAll(p, s[1..]);
    }
  }

  lemma {:induction false} FilterNone<T>(p: T -> bool, s: seq<T>)
    requires forall i :: 0 <= i < |s| ==> !p(s[i])
    ensures Filter(p, s) == []
    decreases |s|
  {
    if |s| > 0 {
      FilterNone(p, s[1..]);
    }
  }

  /** A stretch of `s` with no element satisfying `p` disappears from the filtered sequence. */
  lemma {:induction false} FilterAround<T>(p: T -> bool, s: seq<T>, i: nat, j: nat)
    requires i <= j <= |s|
    requires forall k :: i <= k < j ==> !p(s[k])
    ensures Filter(p, s) == Filter(p, s[..i]) + Filter(p, s[j..])
  {
    var mid := s[i..j];
    assert forall k :: 0 <= k < |mid| ==> !p(mid[k]);
    FilterNone(p, mid);
    assert s[i..] == mid + s[j..];
    FilterConcat(p, mid, s[j..]);
    assert s == s[..i] + s[i..];
    FilterConcat(p, s[..i], s[i..]);
  }

  /** A prefix of `s` with no element satisfying `p` does not change the filtered sequence. */
  lemma {:induction false} FilterDropFront<T>(p: T -> bool, s: seq<T>, i: nat)
    requires i <= |s|
    requires forall k :: 0 <= k < i ==> !p(s[k])
    ensures Filter(p, s) == Filter(p, s[i..])
    decreases i
  {
    if i > 0 {
      assert Filter(p, s) == Filter(p, s[1..]);
      FilterDropFront(p, s[1..], i - 1);
      assert s[1..][i - 1..] == s[i..];
    }
  }

  /** A suffix of `s` with no element satisfying `p` does not change the filtered sequence. */
  lemma {:induction false} FilterDropBack<T>(p: T -> bool, s: seq<T>, j: nat)
    requires j <= |s|
    requires forall k :: j <= k < |s| ==> !p(s[k])
    ensures Filter(p, s) == Filter(p, s[..j])
    decreases j
  {
    if j == 0 {
      FilterNone(p, s);
    } else {
      FilterDropBack(p, s[1..], j - 1);
      assert s[1..][..j - 1] == s[..j][1..];
    }
  }

  /** When nothing before `i` or from `j` on satisfies `p`, filtering `s` is filtering `s[i..j]`. */
  lemma FilterInside<T>(p: T -> bool, s: seq<T>, i: nat, j: nat)
    requires i <= j <= |s|
    requires forall k :: 0 <= k < i ==> !p(s[k])
    requires forall k :: j <= k < |s| ==> !p(s[k])
    ensures Filter(p, s) == Filter(p, s[i..j])
  {
    FilterDropBack(p, s, j);
    FilterDropFront(p, s[..j], i);
  }

  /** `Filter(p, s)` is empty exactly when no element of `s` satisfies `p`. */
  lemma {:induction false} FilterEmpty<T>(p: T -> bool, s: seq<T>)
    ensures Filter(p, s) == [] <==> forall i :: 0 <= i < |s| ==> !p(s[i])
    decreases |s|
  {
    if |s| > 0 {
      FilterEmpty(p, s[1..]);
      assert forall i :: 1 <= i < |s| ==> s[i] == s[1..][i - 1];
    }
  }

  /** Every element of `s` that satisfies `p` is kept. */
  lemma {:induction false} FilterKeeps<T>(p: T -> bool, s: seq<T>, i: nat)
    requires i < |s| && p(s[i])
    ensures s[i] in Filter(p, s)
    decreases |s|
  {
    if i > 0 {
      FilterKeeps(p, s[1..], i - 1);
    }
  }

  /** The elements of `Filter(p, s)` are exactly the elements of `s` that satisfy `p`. */
  lemma FilterMembers<T>(p: T -> bool, s: seq<T>)
    ensures forall x :: x in Filter(p, s) <==> x in s && p(x)
  {
    forall i | 0 <= i < |s| && p(s[i])
      ensures s[i] in Filter(p, s)
    {
      FilterKeeps(p, s, i);
    }
  }

  /** Cutting at `a` and `b` and joining the three pieces gives `s` back. */
  lemma ThreeSlices<T>(s: seq<T>, a: nat, b: nat)
    requires a <= b <= |s|
    ensures s == s[..a] + s[a..b] + s[b..]
  {
    assert s[..a] + s[a..b] == s[..b];
  }

  /** A slice of a slice is a slice of the original sequence. */
  lemma SliceOfSlice<T>(s: seq<T>, p: nat, e: nat, a: nat, b: nat)
    requires p <= e <= |s| && a <= b <= e - p
    ensures s[p..e][a..b] == s[p + a..p + b]
  {
    forall k | 0 <= k < b - a
      ensures s[p..e][a..b][k] == s[p + a..p + b][k]
    {
      assert s[p..e][a..b][k] == s[p + a + k];
    }
  }

  /** An element of a permutation of `b` is an element of `b`. */
  lemma InPermutation<T>(a: seq<T>, b: seq<T>, i: nat)
    requires multiset(a) == multiset(b) && i < |a|
    ensures a[i] in b
  {
    assert a[i] in multiset(a);
  }

  /** Position of the first occurrence of `x` in `s` (`indexOf`). */
  function FirstIndex<T(==)>(s: seq<T>, x: T): (i: nat)
    requires x in s
    ensures i < |s| && s[i] == x
    ensures forall k :: 0 <= k < i ==> s[k] != x
  {
    if s[0] == x then 0 else 1 + FirstIndex(s[1..], x)
  }

  /** Concatenation of a sequence of strings (`Array.prototype.join('')`). */
  function Flatten(ss: seq<string>): (r: string)
  {
    if |ss| == 0 then "" else ss[0] + Flatten(ss[1..])
  }

  lemma {:induction false} FlattenConcat(a: seq<string>, b: seq<string>)
    ensures Flatten(a + b) == Flatten(a) + Flatten(b)
    decreases |a|
  {
    if |a| == 0 {
      assert a + b == b;
    } else {
      assert (a + b)[1..] == a[1..] + b;
      FlattenConcat(a[1..], b);
    }
  }

  /** Filtering a suffix `s[i..]` splits at any later position `j`. */
  lemma FilterSplit<T>(p: T -> bool, s: seq<T>, i: nat, j: nat)
    requires i <= j <= |s|
    ensures Filter(p, s[i..]) == Filter(p, s[i..j]) + Filter(p, s[j..])
  {
    assert s[i..] == s[i..j] + s[j..];
    FilterConcat(p, s[i..j], s[j..]);
  }

  /** Filtering the characters of a concatenation of strings splits at the concatenation. */
  lemma FilterFlattenConcat(p: char -> bool, a: seq<string>, b: seq<string>)
    ensures Filter(p, Flatten(a + b)) == Filter(p, Flatten(a)) + Filter(p, Flatten(b))
  {
    FlattenConcat(a, b);
    FilterConcat(p, Flatten(a), Flatten(b));
  }

  /** Length of the longest prefix of `s` whose elements all satisfy `p`. */
  function SpanLength<T>(p: T -> bool, s: seq<T>): (n: nat)
    ensures n <= |s|
    ensures forall i :: 0 <= i < n ==> p(s[i])
    ensures n < |s| ==> !p(s[n])
  {
    if |s| == 0 || !p(s[0]) then 0 else 1 + SpanLength(p, s[1..])
  }

  /** Length of the longest prefix of `s` none of whose elements satisfies `p`: the index of the first element satisfying `p`, or `|s|`. */
  function BreakLength<T>(p: T -> bool, s: seq<T>): (n: nat)
    ensures n <= |s|
    ensures forall i :: 0 <= i < n ==> !p(s[i])
    ensures n < |s| ==> p(s[n])
  {
    if |s| == 0 || p(s[0]) then 0 else 1 + BreakLength(p, s[1..])
  }

  /** The first element satisfying `p` in `a + b` is the first of `b` when `a` has none. */
  lemma BreakLengthAt<T>(p: T -> bool, a: seq<T>, b: seq<T>)
    requires forall k :: 0 <= k < |a| ==> !p(a[k])
    requires |b| == 0 || p(b[0])
    ensures BreakLength(p, a + b) == |a|
  {
    var s := a + b;
    assert forall k :: 0 <= k < |a| ==> s[k] == a[k];
    if |b| > 0 {
      assert s[|a|] == b[0];
    }
  }

  /** The prefix of `a + b` satisfying `p` is `a` when all of `a` does and `b` does not start with such an element. */
  lemma SpanLengthAt<T>(p: T -> bool, a: seq<T>, b: seq<T>)
    requires forall k :: 0 <= k < |a| ==> p(a[k])
    requires |b| == 0 || !p(b[0])
    ensures SpanLength(p, a + b) == |a|
  {
    var s := a + b;
    assert forall k :: 0 <= k < |a| ==> s[k] == a[k];
    if |b| > 0 {
      assert s[|a|] == b[0];
    }
  }

  function Min(a: int, b: int): int
  {
    if a <= b then a else b
  }
}
