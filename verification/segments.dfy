/**
 * Sentence and paragraph segmentation: the text is split at the separators
 * `/[.!?]+/` and `/\n\s*\n/` respectively, and only the fragments that are
 * not blank are kept.
 */
module Segments {
  import opened Basics
  import opened Chars

  // ----- Sentences -----

  /**
   * Splitting at `/[.!?]+/`: the leftmost run of sentence terminators is the
   * separator; the piece before it is emitted and splitting resumes after it.
   */
  function SplitSentences(s: string): (parts: seq<string>)
    ensures |parts| >= 1
    ensures forall i :: 0 <= i < |parts| ==> forall k :: 0 <= k < |parts[i]| ==> !IsSentenceEnd(parts[i][k])
    decreases |s|
  {
    var i := BreakLength(IsSentenceEnd, s);
    if i == |s| then [s]
    else
      var j := i + SpanLength(IsSentenceEnd, s[i..]);
      [s[..i]] + SplitSentences(s[j..])
  }

  /** The sentence fragments together hold every character of `s` except the terminators, in order. */
  lemma {:induction false} SplitSentencesKeepsText(s: string)
    ensures Flatten(SplitSentences(s)) == Filter(IsNotSentenceEnd, s)
    decreases |s|
  {
    var i := BreakLength(IsSentenceEnd, s);
    if i == |s| {
      assert SplitSentences(s) == [s];
      FilterAll(IsNotSentenceEnd, s);
      assert Flatten([s]) == s + Flatten([]);
    } else {
      var j := i + SpanLength(IsSentenceEnd, s[i..]);
      var parts := [s[..i]] + SplitSentences(s[j..]);
      assert SplitSentences(s) == parts;
      SplitSentencesKeepsText(s[j..]);
      assert forall k :: i <= k < j ==> s[k] == s[i..][k - i];
      SeparatorDropped(s, i, j);
      assert parts[1..] == SplitSentences(s[j..]);
      assert Flatten(parts) == s[..i] + Flatten(SplitSentences(s[j..]));
    }
  }

  /** Removing terminators keeps a terminator-free prefix whole and drops the run of terminators after it. */
  lemma SeparatorDropped(s: string, i: nat, j: nat)
    requires i <= j <= |s|
    requires forall k :: 0 <= k < i ==> !IsSentenceEnd(s[k])
    requires forall k :: i <= k < j ==> IsSentenceEnd(s[k])
    ensures Filter(IsNotSentenceEnd, s) == s[..i] + Filter(IsNotSentenceEnd, s[j..])
  {
    assert Filter(IsNotSentenceEnd, s) == Filter(IsNotSentenceEnd, s[..i]) + Filter(IsNotSentenceEnd, s[j..]) by {
      FilterAround(IsNotSentenceEnd, s, i, j);
    }
    assert Filter(IsNotSentenceEnd, s[..i]) == s[..i] by {
      FilterAll(IsNotSentenceEnd, s[..i]);
    }
  }

  /** `parts[0] + seps[0] + parts[1] + ... + seps[|seps| - 1] + parts[|seps|]`. */
  function Interleave(parts: seq<string>, seps: seq<string>): string
    requires |parts| == |seps| + 1
    decreases |seps|
  {
    if |seps| == 0 then parts[0] else parts[0] + seps[0] + Interleave(parts[1..], seps[1..])
  }

  predicate NoTerminator(t: string)
  {
    forall k :: 0 <= k < |t| ==> !IsSentenceEnd(t[k])
  }

  /** A non-empty run of sentence terminators. */
  predicate TerminatorRun(t: string)
  {
    |t| > 0 && forall k :: 0 <= k < |t| ==> IsSentenceEnd(t[k])
  }

  /**
   * `s` is cut at every maximal run of terminators: the pieces `parts` hold
   * no terminator, the separators `seps` are terminator runs, and no piece
   * strictly between two separators is empty, so each separator is a whole
   * run.
   */
  predicate IsSentenceSplit(s: string, parts: seq<string>, seps: seq<string>)
  {
    && |parts| == |seps| + 1
    && s == Interleave(parts, seps)
    && (forall i :: 0 <= i < |parts| ==> NoTerminator(parts[i]))
    && (forall i :: 0 <= i < |seps| ==> TerminatorRun(seps[i]))
    && (forall i :: 0 < i < |seps| ==> |parts[i]| > 0)
  }

  /** The separators the sentence split removes, in order. */
  function SentenceSeparators(s: string): seq<string>
    decreases |s|
  {
    var i := BreakLength(IsSentenceEnd, s);
    if i == |s| then []
    else
      var j := i + SpanLength(IsSentenceEnd, s[i..]);
      [s[i..j]] + SentenceSeparators(s[j..])
  }

  /** A text that starts with a non-terminator has a non-empty first fragment. */
  lemma FirstSentenceNonEmpty(t: string)
    requires |t| > 0 && !IsSentenceEnd(t[0])
    ensures |SplitSentences(t)[0]| > 0
  {
    var i := BreakLength(IsSentenceEnd, t);
    assert i > 0;
  }

  /** Unfolds one step of both splits at the first terminator run. */
  lemma {:induction false} SplitSentencesUnfold(s: string)
    ensures var i := BreakLength(IsSentenceEnd, s);
      i < |s| ==>
        var j := i + SpanLength(IsSentenceEnd, s[i..]);
        && SplitSentences(s) == [s[..i]] + SplitSentences(s[j..])
        && SentenceSeparators(s) == [s[i..j]] + SentenceSeparators(s[j..])
  {
    var i := BreakLength(IsSentenceEnd, s);
    if i < |s| {
      var j := i + SpanLength(IsSentenceEnd, s[i..]);
      assert SplitSentences(s) == [s[..i]] + SplitSentences(s[j..]);
      assert SentenceSeparators(s) == [s[i..j]] + SentenceSeparators(s[j..]);
    }
  }

  /** Where the first terminator run of `s` starts and ends, when there is one. */
  lemma FirstTerminatorRun(s: string) returns (i: nat, j: nat)
    ensures i == BreakLength(IsSentenceEnd, s)
    ensures i < |s| ==>
      && j == i + SpanLength(IsSentenceEnd, s[i..])
      && i < j <= |s| && s == s[..i] + s[i..j] + s[j..]
      && NoTerminator(s[..i]) && TerminatorRun(s[i..j])
      && (j == |s| || !IsSentenceEnd(s[j]))
  {
    i := BreakLength(IsSentenceEnd, s);
    if i == |s| {
      j := i;
      return;
    }
    var n := SpanLength(IsSentenceEnd, s[i..]);
    j := i + n;
    assert n > 0 by {
      assert IsSentenceEnd(s[i..][0]);
    }
    assert TerminatorRun(s[i..j]) by {
      forall k | 0 <= k < n
        ensures IsSentenceEnd(s[i..j][k])
      {
        assert s[i..j][k] == s[i..][k];
      }
    }
    if j < |s| {
      assert s[j] == s[i..][n];
    }
    ThreeSlices(s, i, j);
  }

  /**
   * One step of the split, when `s` holds a terminator: a terminator-free
   * piece, the whole run of terminators after it, and the rest.
   */
  lemma {:induction false} SplitSentencesStep(s: string) returns (i: nat, j: nat)
    ensures i == BreakLength(IsSentenceEnd, s)
    ensures i < |s| ==>
      && i < j <= |s| && s == s[..i] + s[i..j] + s[j..]
      && SplitSentences(s) == [s[..i]] + SplitSentences(s[j..])
      && SentenceSeparators(s) == [s[i..j]] + SentenceSeparators(s[j..])
      && NoTerminator(s[..i]) && TerminatorRun(s[i..j])
      && (j == |s| || !IsSentenceEnd(s[j]))
  {
    i, j := FirstTerminatorRun(s);
    SplitSentencesUnfold(s);
  }

  /** A terminator-free piece followed by a whole run of terminators is the split's first step. */
  lemma SentenceSplitHead(p: string, q: string, t: string)
    requires NoTerminator(p) && TerminatorRun(q)
    requires |t| == 0 || !IsSentenceEnd(t[0])
    ensures SplitSentences(p + q + t) == [p] + SplitSentences(t)
    ensures SentenceSeparators(p + q + t) == [q] + SentenceSeparators(t)
  {
    var s := p + q + t;
    assert s == p + (q + t);
    BreakLengthAt(IsSentenceEnd, p, q + t);
    assert s[|p|..] == q + t;
    SpanLengthAt(IsSentenceEnd, q, t);
    SplitSentencesUnfold(s);
    assert s[..|p|] == p && s[|p|..|p| + |q|] == q && s[|p| + |q|..] == t;
  }

  /** The text after a separator is empty or starts with a non-terminator. */
  lemma InterleaveHead(parts: seq<string>, seps: seq<string>)
    requires |parts| == |seps| + 1
    requires forall i :: 0 <= i < |parts| ==> NoTerminator(parts[i])
    requires forall i :: 0 < i < |seps| ==> |parts[i]| > 0
    requires |parts[0]| > 0 || |seps| == 0
    ensures var t := Interleave(parts, seps); |t| == 0 || !IsSentenceEnd(t[0])
  {
    if |parts[0]| > 0 {
      assert NoTerminator(parts[0]);
    }
  }

  lemma HeadOfConcat(a: string, b: string)
    requires |b| > 0
    ensures (a + b)[0] == if |a| > 0 then a[0] else b[0]
  {
  }

  /** A split of `t` whose text starts with a non-terminator has a non-empty first piece, unless it is the only piece. */
  lemma SplitHeadNonEmpty(t: string, P: seq<string>, Q: seq<string>)
    requires IsSentenceSplit(t, P, Q) && |Q| > 0
    requires |t| == 0 || !IsSentenceEnd(t[0])
    ensures |P[0]| > 0
  {
    var rest := Q[0] + Interleave(P[1..], Q[1..]);
    assert t == P[0] + rest;
    assert TerminatorRun(Q[0]);
    assert IsSentenceEnd(rest[0]);
    HeadOfConcat(P[0], rest);
  }

  /** Putting a terminator-free piece and a terminator run in front of a split extends it. */
  lemma ConsSentenceSplit(p: string, q: string, t: string, P: seq<string>, Q: seq<string>)
    requires IsSentenceSplit(t, P, Q)
    requires NoTerminator(p) && TerminatorRun(q)
    requires |t| == 0 || !IsSentenceEnd(t[0])
    ensures IsSentenceSplit(p + q + t, [p] + P, [q] + Q)
  {
    var parts, seps := [p] + P, [q] + Q;
    assert parts[1..] == P && seps[1..] == Q;
    assert Interleave(parts, seps) == p + q + t;
    forall m | 0 <= m < |parts|
      ensures NoTerminator(parts[m])
    {
      if m > 0 {
        assert parts[m] == P[m - 1];
      }
    }
    forall m | 0 <= m < |seps|
      ensures TerminatorRun(seps[m])
    {
      if m > 0 {
        assert seps[m] == Q[m - 1];
      }
    }
    forall m | 0 < m < |seps|
      ensures |parts[m]| > 0
    {
      assert parts[m] == P[m - 1];
      if m == 1 {
        SplitHeadNonEmpty(t, P, Q);
      }
    }
  }

  /** Removing the first piece and separator of a split leaves a split of the rest. */
  lemma UnconsSentenceSplit(s: string, parts: seq<string>, seps: seq<string>)
    requires IsSentenceSplit(s, parts, seps) && |seps| > 0
    ensures IsSentenceSplit(Interleave(parts[1..], seps[1..]), parts[1..], seps[1..])
    ensures s == parts[0] + seps[0] + Interleave(parts[1..], seps[1..])
    ensures var t := Interleave(parts[1..], seps[1..]); |t| == 0 || !IsSentenceEnd(t[0])
  {
    var P, Q := parts[1..], seps[1..];
    forall m | 0 <= m < |P|
      ensures NoTerminator(P[m])
    {
      assert P[m] == parts[m + 1];
    }
    forall m | 0 <= m < |Q|
      ensures TerminatorRun(Q[m])
    {
      assert Q[m] == seps[m + 1];
    }
    forall m | 0 < m < |Q|
      ensures |P[m]| > 0
    {
      assert P[m] == parts[m + 1];
    }
    if |Q| > 0 {
      assert P[0] == parts[1];
    }
    InterleaveHead(P, Q);
  }

  /** The fragments of the split, with the separators between them, spell `s`, cut at every maximal run of terminators. */
  lemma {:induction false} SplitSentencesCuts(s: string)
    ensures IsSentenceSplit(s, SplitSentences(s), SentenceSeparators(s))
    decreases |s|
  {
    var i, j := SplitSentencesStep(s);
    if i == |s| {
      assert SplitSentences(s) == [s] && SentenceSeparators(s) == [];
      assert NoTerminator(s);
    } else {
      SplitSentencesCuts(s[j..]);
      ConsSentenceSplit(s[..i], s[i..j], s[j..], SplitSentences(s[j..]), SentenceSeparators(s[j..]));
    }
  }

  /** The cut at every maximal terminator run is unique: it is the one the split makes. */
  lemma {:induction false} SentenceSplitUnique(s: string, parts: seq<string>, seps: seq<string>)
    requires IsSentenceSplit(s, parts, seps)
    ensures parts == SplitSentences(s) && seps == SentenceSeparators(s)
    decreases |seps|
  {
    if |seps| == 0 {
      assert s == parts[0];
      BreakLengthAt(IsSentenceEnd, s, []);
      assert s + [] == s;
    } else {
      var p, q := parts[0], seps[0];
      var P, Q := parts[1..], seps[1..];
      var t := Interleave(P, Q);
      UnconsSentenceSplit(s, parts, seps);
      SentenceSplitUnique(t, P, Q);
      assert NoTerminator(p) && TerminatorRun(q);
      SentenceSplitHead(p, q, t);
      assert parts == [p] + P && seps == [q] + Q;
    }
  }

  /** The sentences counted: non-blank fragments. */
  function Sentences(s: string): (r: seq<string>)
    ensures forall t :: t in r <==> t in SplitSentences(s) && !IsBlank(t)
  {
    FilterMembers(IsNotBlank, SplitSentences(s));
    Filter(IsNotBlank, SplitSentences(s))
  }

  // ----- Paragraphs -----

  /** End (exclusive) of the maximal whitespace run starting at `i`. */
  function SpaceRunEnd(s: string, i: nat): (e: nat)
    requires i <= |s|
    ensures i <= e <= |s|
    ensures forall k :: i <= k < e ==> IsSpace(s[k])
    ensures e < |s| ==> !IsSpace(s[e])
  {
    var n := SpanLength(IsSpace, s[i..]);
    assert forall k :: i <= k < i + n ==> s[k] == s[i..][k - i];
    i + n
  }

  /** The last newline in `s[lo..hi]`, searching from the right. */
  function LastNewline(s: string, lo: nat, hi: nat): (r: Option<nat>)
    requires lo <= hi <= |s|
    ensures r.Some? ==> lo <= r.value < hi && s[r.value] == '\n' && forall k :: r.value < k < hi ==> s[k] != '\n'
    ensures r.None? ==> forall k :: lo <= k < hi ==> s[k] != '\n'
    decreases hi - lo
  {
    if hi == lo then None
    else if s[hi - 1] == '\n' then Some(hi - 1)
    else LastNewline(s, lo, hi - 1)
  }

  /** `s[i..j + 1]` is a newline, whitespace, and a newline: the text `\n\s*\n` can match. */
  predicate BlankLineAt(s: string, i: nat, j: nat)
  {
    i < j < |s| && s[i] == '\n' && s[j] == '\n' && forall k :: i < k < j ==> IsSpace(s[k])
  }

  /**
   * End of the match of `\n\s*\n` that starts exactly at `i`. The greedy
   * `\s*` takes the whole whitespace run and backtracks to its last newline,
   * so the match is the longest blank-line separator starting at `i`.
   */
  function BreakEndAt(s: string, i: nat): (r: Option<nat>)
    requires i < |s|
    ensures r.Some? ==> r.value > i + 1 && BlankLineAt(s, i, r.value - 1)
    ensures r.Some? ==> forall j :: r.value <= j < |s| ==> !BlankLineAt(s, i, j)
  {
    if s[i] != '\n' then None
    else
      var e := SpaceRunEnd(s, i + 1);
      match LastNewline(s, i + 1, e)
      case None => None
      case Some(k) =>
        NoLongerBlankLine(s, i, k);
        Some(k + 1)
  }

  /** Past the last newline of the whitespace run after `i`, no blank line starting at `i` can end. */
  lemma NoLongerBlankLine(s: string, i: nat, k: nat)
    requires i < |s| && LastNewline(s, i + 1, SpaceRunEnd(s, i + 1)) == Some(k)
    ensures forall j :: k + 1 <= j < |s| ==> !BlankLineAt(s, i, j)
  {
    var e := SpaceRunEnd(s, i + 1);
    forall j | k + 1 <= j < |s|
      ensures !BlankLineAt(s, i, j)
    {
      if e <= j {
        assert !IsSpace(s[e]);
      }
    }
  }

  /** A blank-line separator at `i` is always matched there. */
  lemma BlankLineMatches(s: string, i: nat, j: nat)
    requires BlankLineAt(s, i, j)
    ensures BreakEndAt(s, i).Some?
  {
    var e := SpaceRunEnd(s, i + 1);
    assert forall k :: i < k <= j ==> IsSpace(s[k]);
    assert LastNewline(s, i + 1, e).Some?;
  }

  /** The leftmost match of `\n\s*\n` at or after `i`, as (start, end). */
  function FindBreak(s: string, i: nat): (r: Option<(nat, nat)>)
    requires i <= |s|
    ensures r.Some? ==> i <= r.value.0 < r.value.1 <= |s| && BreakEndAt(s, r.value.0) == Some(r.value.1)
    ensures r.Some? ==> forall k :: i <= k < r.value.0 ==> BreakEndAt(s, k).None?
    ensures r.None? ==> forall k :: i <= k < |s| ==> BreakEndAt(s, k).None?
    decreases |s| - i
  {
    if i == |s| then None
    else match BreakEndAt(s, i)
      case Some(e) => Some((i, e))
      case None => FindBreak(s, i + 1)
  }

  /** No blank line separates anything within `t`. */
  predicate NoBlankLine(t: string)
  {
    forall i, j :: 0 <= i < j < |t| ==> !BlankLineAt(t, i, j)
  }

  /** Splitting at `/\n\s*\n/`: every fragment is free of blank lines. */
  function SplitParagraphs(s: string): (parts: seq<string>)
    ensures |parts| >= 1
    ensures forall i :: 0 <= i < |parts| ==> NoBlankLine(parts[i])
    decreases |s|
  {
    match FindBreak(s, 0)
    case None =>
      assert NoBlankLine(s) by {
        forall i, j | 0 <= i < j < |s| && BlankLineAt(s, i, j)
          ensures false
        {
          BlankLineMatches(s, i, j);
        }
      }
      [s]
    case Some((a, b)) =>
      assert NoBlankLine(s[..a]) by {
        forall i, j | 0 <= i < j < a && BlankLineAt(s[..a], i, j)
          ensures false
        {
          assert BlankLineAt(s, i, j);
          BlankLineMatches(s, i, j);
        }
      }
      [s[..a]] + SplitParagraphs(s[b..])
  }

  /** The separator between two fragments is whitespace only. */
  lemma BreakIsSpace(s: string, a: nat, b: nat)
    requires FindBreak(s, 0) == Some((a, b))
    ensures Filter(IsNotSpace, s) == Filter(IsNotSpace, s[..a]) + Filter(IsNotSpace, s[b..])
  {
    assert BlankLineAt(s, a, b - 1);
    FilterAround(IsNotSpace, s, a, b);
  }

  /** Only whitespace is dropped between paragraphs: the non-space characters of the fragments are those of `s`. */
  lemma {:induction false} SplitParagraphsKeepsText(s: string)
    ensures Filter(IsNotSpace, Flatten(SplitParagraphs(s))) == Filter(IsNotSpace, s)
    decreases |s|
  {
    var r := FindBreak(s, 0);
    if r.None? {
      assert SplitParagraphs(s) == [s];
      assert Flatten([s]) == s + Flatten([]);
      assert Flatten([s]) == s;
    } else {
      var a, b := r.value.0, r.value.1;
      var rest := SplitParagraphs(s[b..]);
      SplitParagraphsKeepsText(s[b..]);
      assert SplitParagraphs(s) == [s[..a]] + rest;
      assert Flatten([s[..a]] + rest) == s[..a] + Flatten(rest) by {
        assert ([s[..a]] + rest)[1..] == rest;
      }
      FilterConcat(IsNotSpace, s[..a], Flatten(rest));
      BreakIsSpace(s, a, b);
    }
  }

  // ----- Where the paragraph split cuts -----

  /** The separators the paragraph split removes, in order. */
  function ParagraphSeparators(s: string): seq<string>
    decreases |s|
  {
    match FindBreak(s, 0)
    case None => []
    case Some((a, b)) => [s[a..b]] + ParagraphSeparators(s[b..])
  }

  /** Unfolds one step of both paragraph splits. */
  lemma {:induction false} SplitParagraphsUnfold(s: string)
    ensures FindBreak(s, 0).None? ==> SplitParagraphs(s) == [s] && ParagraphSeparators(s) == []
    ensures FindBreak(s, 0).Some? ==>
      var a, b := FindBreak(s, 0).value.0, FindBreak(s, 0).value.1;
      && SplitParagraphs(s) == [s[..a]] + SplitParagraphs(s[b..])
      && ParagraphSeparators(s) == [s[a..b]] + ParagraphSeparators(s[b..])
  {
    match FindBreak(s, 0)
    case None =>
      assert SplitParagraphs(s) == [s];
    case Some((a, b)) =>
      assert SplitParagraphs(s) == [s[..a]] + SplitParagraphs(s[b..]);
      assert ParagraphSeparators(s) == [s[a..b]] + ParagraphSeparators(s[b..]);
  }

  /** `q` is, as a whole, a match of `\n\s*\n`. */
  predicate IsBreakText(q: string)
  {
    |q| >= 2 && BlankLineAt(q, 0, |q| - 1)
  }

  /** Every newline of `p` is followed by a non-space character: the whitespace `p` ends with holds no newline. */
  predicate NoNewlineInTrailingSpace(p: string)
  {
    forall k :: 0 <= k < |p| && p[k] == '\n' ==> !IsBlank(p[k..])
  }

  /** Every newline of `p` is preceded by a non-space character: the whitespace `p` starts with holds no newline. */
  predicate NoNewlineInLeadingSpace(p: string)
  {
    forall k :: 0 <= k < |p| && p[k] == '\n' ==> !IsBlank(p[..k])
  }

  /**
   * `s` is cut at every leftmost, longest match of `\n\s*\n`: the pieces
   * hold no blank line, each separator is such a match, the whitespace
   * around a separator holds no further newline (so the match could start
   * neither earlier nor end later), and no piece between two separators is
   * blank (else the two would be one match).
   */
  predicate IsParagraphSplit(s: string, parts: seq<string>, seps: seq<string>)
  {
    && |parts| == |seps| + 1
    && s == Interleave(parts, seps)
    && (forall i :: 0 <= i < |parts| ==> NoBlankLine(parts[i]))
    && (forall i :: 0 <= i < |seps| ==> IsBreakText(seps[i]) && NoNewlineInTrailingSpace(parts[i]))
    && (forall i :: 0 < i < |parts| ==> NoNewlineInLeadingSpace(parts[i]))
    && (forall i :: 0 < i < |seps| ==> !IsBlank(parts[i]))
  }

  /** When no match starts at `k`, no blank line starts there. */
  lemma NoMatchNoBlankLine(s: string, k: nat)
    requires k < |s|
    ensures BreakEndAt(s, k).None? ==> forall j :: !BlankLineAt(s, k, j)
  {
    forall j | BlankLineAt(s, k, j)
      ensures BreakEndAt(s, k).Some?
    {
      BlankLineMatches(s, k, j);
    }
  }

  /** No match of `\n\s*\n` starts inside a blank-line-free piece whose trailing whitespace holds no newline. */
  lemma NoBreakInPiece(p: string, rest: string)
    requires NoBlankLine(p) && NoNewlineInTrailingSpace(p)
    ensures forall k :: 0 <= k < |p| ==> BreakEndAt(p + rest, k).None?
  {
    var s := p + rest;
    forall k | 0 <= k < |p|
      ensures BreakEndAt(s, k).None?
    {
      forall j | k < j < |s|
        ensures !BlankLineAt(s, k, j)
      {
        if j < |p| {
          assert !BlankLineAt(p, k, j);
          assert forall m :: k <= m <= j ==> s[m] == p[m];
        } else if s[k] == '\n' {
          assert p[k] == '\n';
          assert !IsBlank(p[k..]);
          var y :| 0 <= y < |p| - k && !IsSpace(p[k..][y]);
          assert s[k + y] == p[k..][y];
        }
      }
    }
  }

  /** The whitespace run after a separator's first newline covers the separator and holds no newline after it. */
  lemma SpaceAfterSeparator(p: string, q: string, t: string)
    requires IsBreakText(q) && NoNewlineInLeadingSpace(t)
    ensures var s, n := p + q + t, |p| + |q|;
            var e := SpaceRunEnd(s, |p| + 1);
            n <= e && forall x :: n <= x < e ==> s[x] != '\n'
  {
    var s, n := p + q + t, |p| + |q|;
    assert forall x :: |p| < x < n ==> s[x] == q[x - |p|];
    var e := SpaceRunEnd(s, |p| + 1);
    assert forall x :: |p| < x < n ==> IsSpace(s[x]);
    forall x | n <= x < e
      ensures s[x] != '\n'
    {
      var u := t[..x - n];
      assert IsBlank(u) by {
        forall y | 0 <= y < |u|
          ensures IsSpace(u[y])
        {
          assert u[y] == s[n + y];
        }
      }
      assert s[x] == t[x - n];
    }
  }

  /** A separator whose following whitespace holds no newline is matched whole. */
  lemma BreakAtSeparator(p: string, q: string, t: string)
    requires IsBreakText(q) && NoNewlineInLeadingSpace(t)
    ensures BreakEndAt(p + q + t, |p|) == Some(|p| + |q|)
  {
    var s, n := p + q + t, |p| + |q|;
    assert s[|p|] == q[0] == '\n' && s[n - 1] == q[|q| - 1] == '\n';
    SpaceAfterSeparator(p, q, t);
    assert LastNewline(s, |p| + 1, SpaceRunEnd(s, |p| + 1)) == Some(n - 1);
  }

  /** The leftmost match is the separator after a clean piece. */
  lemma FindBreakAtSeparator(p: string, q: string, t: string)
    requires NoBlankLine(p) && NoNewlineInTrailingSpace(p)
    requires IsBreakText(q) && NoNewlineInLeadingSpace(t)
    ensures FindBreak(p + q + t, 0) == Some((|p|, |p| + |q|))
  {
    assert p + q + t == p + (q + t);
    NoBreakInPiece(p, q + t);
    BreakAtSeparator(p, q, t);
  }

  /** A text without blank lines is one fragment. */
  lemma NoBlankLineOnePiece(s: string)
    requires NoBlankLine(s)
    ensures SplitParagraphs(s) == [s] && ParagraphSeparators(s) == []
  {
    forall k | 0 <= k < |s|
      ensures BreakEndAt(s, k).None?
    {
    }
    assert FindBreak(s, 0).None?;
    SplitParagraphsUnfold(s);
  }

  /** A clean piece, a separator, and a rest whose leading whitespace holds no newline: the split's first step. */
  lemma ParagraphSplitHead(p: string, q: string, t: string)
    requires NoBlankLine(p) && NoNewlineInTrailingSpace(p)
    requires IsBreakText(q) && NoNewlineInLeadingSpace(t)
    ensures SplitParagraphs(p + q + t) == [p] + SplitParagraphs(t)
    ensures ParagraphSeparators(p + q + t) == [q] + ParagraphSeparators(t)
  {
    var s := p + q + t;
    FindBreakAtSeparator(p, q, t);
    SplitParagraphsUnfold(s);
    assert s[..|p|] == p && s[|p|..|p| + |q|] == q && s[|p| + |q|..] == t;
  }

  /** The piece before the leftmost match holds no blank line, and its trailing whitespace no newline. */
  lemma PieceBeforeBreak(s: string, a: nat)
    requires a < |s| && s[a] == '\n'
    requires forall k :: 0 <= k < a ==> BreakEndAt(s, k).None?
    ensures NoBlankLine(s[..a]) && NoNewlineInTrailingSpace(s[..a])
  {
    var p := s[..a];
    assert NoBlankLine(p) by {
      forall i, j | 0 <= i < j < a && BlankLineAt(p, i, j)
        ensures false
      {
        assert BlankLineAt(s, i, j);
        BlankLineMatches(s, i, j);
      }
    }
    forall k | 0 <= k < a && p[k] == '\n'
      ensures !IsBlank(p[k..])
    {
      NoMatchNoBlankLine(s, k);
      assert !BlankLineAt(s, k, a);
      assert forall x :: k <= x < a ==> p[k..][x - k] == s[x];
    }
  }

  /** A match is, as a whole, a separator. */
  lemma MatchIsBreakText(s: string, a: nat, b: nat)
    requires a < |s| && BreakEndAt(s, a) == Some(b)
    ensures IsBreakText(s[a..b])
  {
    assert BlankLineAt(s, a, b - 1);
    var q := s[a..b];
    assert forall y :: 0 <= y < |q| ==> q[y] == s[a + y];
  }

  /** The whitespace after a match holds no newline, since the match is the longest. */
  lemma AfterMatch(s: string, a: nat, b: nat)
    requires a < |s| && BreakEndAt(s, a) == Some(b)
    ensures NoNewlineInLeadingSpace(s[b..])
  {
    assert BlankLineAt(s, a, b - 1);
    var t := s[b..];
    forall m | 0 <= m < |t| && t[m] == '\n'
      ensures !IsBlank(t[..m])
    {
      assert !BlankLineAt(s, a, b + m);
      assert forall y :: 0 <= y < m ==> t[..m][y] == s[b + y];
      assert s[b + m] == t[m];
    }
  }

  /** The first match of `s`, when there is one, cuts it into a clean piece, a separator and a rest. */
  lemma FirstBreak(s: string) returns (a: nat, b: nat)
    ensures FindBreak(s, 0).Some? ==>
      && FindBreak(s, 0) == Some((a, b))
      && a < b <= |s| && s == s[..a] + s[a..b] + s[b..]
      && NoBlankLine(s[..a]) && NoNewlineInTrailingSpace(s[..a])
      && IsBreakText(s[a..b]) && NoNewlineInLeadingSpace(s[b..])
  {
    if FindBreak(s, 0).None? {
      return 0, 0;
    }
    a, b := FindBreak(s, 0).value.0, FindBreak(s, 0).value.1;
    assert BlankLineAt(s, a, b - 1);
    PieceBeforeBreak(s, a);
    MatchIsBreakText(s, a, b);
    AfterMatch(s, a, b);
    ThreeSlices(s, a, b);
  }

  /** One step of the paragraph split, when `s` holds a blank line. */
  lemma ParagraphSplitStep(s: string) returns (a: nat, b: nat)
    ensures FindBreak(s, 0).Some? ==>
      && a < b <= |s| && s == s[..a] + s[a..b] + s[b..]
      && SplitParagraphs(s) == [s[..a]] + SplitParagraphs(s[b..])
      && ParagraphSeparators(s) == [s[a..b]] + ParagraphSeparators(s[b..])
      && NoBlankLine(s[..a]) && NoNewlineInTrailingSpace(s[..a])
      && IsBreakText(s[a..b]) && NoNewlineInLeadingSpace(s[b..])
  {
    a, b := FirstBreak(s);
    SplitParagraphsUnfold(s);
  }

  /** A prefix keeps the no-newline-in-leading-whitespace property. */
  lemma LeadingSpacePrefix(u: string, v: string)
    requires NoNewlineInLeadingSpace(u + v)
    ensures NoNewlineInLeadingSpace(u)
  {
    forall k | 0 <= k < |u| && u[k] == '\n'
      ensures !IsBlank(u[..k])
    {
      assert (u + v)[k] == u[k];
      assert (u + v)[..k] == u[..k];
    }
  }

  /** A non-blank piece with no newline in its leading whitespace protects whatever follows it. */
  lemma LeadingSpaceConcat(u: string, v: string)
    requires NoNewlineInLeadingSpace(u) && !IsBlank(u)
    ensures NoNewlineInLeadingSpace(u + v)
  {
    var w := u + v;
    forall k | 0 <= k < |w| && w[k] == '\n'
      ensures !IsBlank(w[..k])
    {
      if k < |u| {
        assert w[k] == u[k];
        assert w[..k] == u[..k];
      } else {
        var y :| 0 <= y < |u| && !IsSpace(u[y]);
        assert w[..k][y] == u[y];
      }
    }
  }

  /** Putting a clean piece and a separator in front of a paragraph split extends it. */
  lemma ConsParagraphSplit(p: string, q: string, t: string, P: seq<string>, Q: seq<string>)
    requires IsParagraphSplit(t, P, Q)
    requires NoBlankLine(p) && NoNewlineInTrailingSpace(p)
    requires IsBreakText(q) && NoNewlineInLeadingSpace(t)
    ensures IsParagraphSplit(p + q + t, [p] + P, [q] + Q)
  {
    var parts, seps := [p] + P, [q] + Q;
    assert parts[1..] == P && seps[1..] == Q;
    assert Interleave(parts, seps) == p + q + t;
    if |Q| == 0 {
      assert t == P[0];
    } else {
      var rest := Q[0] + Interleave(P[1..], Q[1..]);
      assert t == P[0] + rest;
      LeadingSpacePrefix(P[0], rest);
      assert IsBreakText(Q[0]);
      assert t[|P[0]|] == '\n';
      assert t[..|P[0]|] == P[0];
    }
    forall m | 0 <= m < |parts|
      ensures NoBlankLine(parts[m])
    {
      if m > 0 {
        assert parts[m] == P[m - 1];
      }
    }
    forall m | 0 <= m < |seps|
      ensures IsBreakText(seps[m]) && NoNewlineInTrailingSpace(parts[m])
    {
      if m > 0 {
        assert seps[m] == Q[m - 1] && parts[m] == P[m - 1];
      }
    }
    forall m | 0 < m < |parts|
      ensures NoNewlineInLeadingSpace(parts[m])
    {
      assert parts[m] == P[m - 1];
    }
    forall m | 0 < m < |seps|
      ensures !IsBlank(parts[m])
    {
      assert parts[m] == P[m - 1];
    }
  }

  /** Removing the first piece and separator of a paragraph split leaves a split of the rest. */
  lemma UnconsParagraphSplit(s: string, parts: seq<string>, seps: seq<string>)
    requires IsParagraphSplit(s, parts, seps) && |seps| > 0
    ensures IsParagraphSplit(Interleave(parts[1..], seps[1..]), parts[1..], seps[1..])
    ensures s == parts[0] + seps[0] + Interleave(parts[1..], seps[1..])
    ensures NoNewlineInLeadingSpace(Interleave(parts[1..], seps[1..]))
  {
    var P, Q := parts[1..], seps[1..];
    forall m | 0 <= m < |P|
      ensures NoBlankLine(P[m])
    {
      assert P[m] == parts[m + 1];
    }
    forall m | 0 <= m < |Q|
      ensures IsBreakText(Q[m]) && NoNewlineInTrailingSpace(P[m])
    {
      assert Q[m] == seps[m + 1] && P[m] == parts[m + 1];
    }
    forall m | 0 < m < |P|
      ensures NoNewlineInLeadingSpace(P[m])
    {
      assert P[m] == parts[m + 1];
    }
    forall m | 0 < m < |Q|
      ensures !IsBlank(P[m])
    {
      assert P[m] == parts[m + 1];
    }
    assert P[0] == parts[1];
    if |Q| > 0 {
      assert !IsBlank(P[0]);
      LeadingSpaceConcat(P[0], Q[0] + Interleave(P[1..], Q[1..]));
      assert Interleave(P, Q) == P[0] + (Q[0] + Interleave(P[1..], Q[1..]));
    } else {
      assert Interleave(P, Q) == P[0];
    }
  }

  /** The fragments of the paragraph split, with the separators between them, spell `s`, cut at every leftmost, longest match. */
  lemma {:induction false} SplitParagraphsCuts(s: string)
    ensures IsParagraphSplit(s, SplitParagraphs(s), ParagraphSeparators(s))
    decreases |s|
  {
    var a, b := ParagraphSplitStep(s);
    if FindBreak(s, 0).None? {
      SplitParagraphsUnfold(s);
    } else {
      SplitParagraphsCuts(s[b..]);
      ConsParagraphSplit(s[..a], s[a..b], s[b..], SplitParagraphs(s[b..]), ParagraphSeparators(s[b..]));
    }
  }

  /** A split whose tail is the split of the rest is the split of the whole. */
  lemma ParagraphSplitUniqueStep(s: string, parts: seq<string>, seps: seq<string>)
    requires IsParagraphSplit(s, parts, seps) && |seps| > 0
    requires var t := Interleave(parts[1..], seps[1..]);
      parts[1..] == SplitParagraphs(t) && seps[1..] == ParagraphSeparators(t)
    ensures parts == SplitParagraphs(s) && seps == ParagraphSeparators(s)
  {
    var t := Interleave(parts[1..], seps[1..]);
    UnconsParagraphSplit(s, parts, seps);
    ParagraphSplitHead(parts[0], seps[0], t);
    assert parts == [parts[0]] + parts[1..] && seps == [seps[0]] + seps[1..];
  }

  /** The cut at every leftmost, longest match is unique: it is the one the split makes. */
  lemma {:induction false} ParagraphSplitUnique(s: string, parts: seq<string>, seps: seq<string>)
    requires IsParagraphSplit(s, parts, seps)
    ensures parts == SplitParagraphs(s) && seps == ParagraphSeparators(s)
    decreases |seps|
  {
    if |seps| == 0 {
      assert s == parts[0] && NoBlankLine(parts[0]);
      NoBlankLineOnePiece(s);
      assert parts == [s];
    } else {
      var t := Interleave(parts[1..], seps[1..]);
      UnconsParagraphSplit(s, parts, seps);
      ParagraphSplitUnique(t, parts[1..], seps[1..]);
      ParagraphSplitUniqueStep(s, parts, seps);
    }
  }

  /** The paragraphs counted: non-blank fragments. */
  function Paragraphs(s: string): (r: seq<string>)
    ensures forall t :: t in r <==> t in SplitParagraphs(s) && !IsBlank(t)
    ensures forall t :: t in r ==> NoBlankLine(t)
  {
    FilterMembers(IsNotBlank, SplitParagraphs(s));
    Filter(IsNotBlank, SplitParagraphs(s))
  }

  // ----- Non-blank fragments exist -----

  /** If the joined fragments hold a non-space character, at least one fragment is kept by the blank filter. */
  lemma {:induction false} SomeFragmentKept(parts: seq<string>, k: nat)
    requires k < |Flatten(parts)| && !IsSpace(Flatten(parts)[k])
    ensures |Filter(IsNotBlank, parts)| > 0
    decreases |parts|
  {
    if k < |parts[0]| {
      assert Flatten(parts)[k] == parts[0][k];
      assert IsNotBlank(parts[0]);
    } else {
      assert Flatten(parts)[k] == Flatten(parts[1..])[k - |parts[0]|];
      SomeFragmentKept(parts[1..], k - |parts[0]|);
    }
  }

  /** A character that is neither whitespace nor a terminator makes at least one sentence. */
  lemma SomeSentence(s: string, k: nat)
    requires k < |s| && !IsSpace(s[k]) && !IsSentenceEnd(s[k])
    ensures |Sentences(s)| > 0
  {
    SplitSentencesKeepsText(s);
    FilterKeeps(IsNotSentenceEnd, s, k);
    var flat := Flatten(SplitSentences(s));
    var m :| 0 <= m < |flat| && flat[m] == s[k];
    SomeFragmentKept(SplitSentences(s), m);
  }

  /** A non-space character makes at least one paragraph. */
  lemma SomeParagraph(s: string, k: nat)
    requires k < |s| && !IsSpace(s[k])
    ensures |Paragraphs(s)| > 0
  {
    SplitParagraphsKeepsText(s);
    FilterKeeps(IsNotSpace, s, k);
    var flat := Flatten(SplitParagraphs(s));
    var kept := Filter(IsNotSpace, flat);
    var m :| 0 <= m < |flat| && flat[m] == s[k];
    SomeFragmentKept(SplitParagraphs(s), m);
  }
}
