/**
 * Word tokenisation: all matches of `/\b[\w']+\b/g`, or none.
 *
 * `Tokens` is the working definition: each maximal run of `[\w']` characters
 * yields the run with its leading and trailing apostrophes removed, and a run
 * left empty yields nothing. `RegexMatches` follows the regular-expression
 * engine step by step (word boundaries, greedy repetition with backtracking,
 * the global match loop), and `RegexMatchesAreTokens` proves the two agree.
 */
module Words {
  import opened Basics
  import opened Chars

  predicate IsApostrophe(c: char)
  {
    c == '\''
  }

  /** End (exclusive) of the maximal run of `[\w']` characters that starts at `p`. */
  function RunEnd(s: string, p: nat): (e: nat)
    requires p <= |s|
    ensures p <= e <= |s|
    ensures forall k :: p <= k < e ==> IsTokenChar(s[k])
    ensures e < |s| ==> !IsTokenChar(s[e])
  {
    var n := SpanLength(IsTokenChar, s[p..]);
    assert forall k :: p <= k < p + n ==> s[k] == s[p..][k - p];
    p + n
  }

  /** Number of apostrophes at the end of `w`. */
  function TrailingApostrophes(w: string): (n: nat)
    ensures n <= |w|
    ensures forall i :: |w| - n <= i < |w| ==> w[i] == '\''
    ensures n < |w| ==> w[|w| - 1 - n] != '\''
  {
    if |w| > 0 && w[|w| - 1] == '\'' then 1 + TrailingApostrophes(w[..|w| - 1]) else 0
  }

  /** A run of `[\w']` with its leading and trailing apostrophes removed. */
  function TrimApostrophes(w: string): string
  {
    var rest := w[SpanLength(IsApostrophe, w)..];
    rest[..|rest| - TrailingApostrophes(rest)]
  }

  /** The trimmed run is the piece `w[a..b]`: apostrophes outside it, and a non-apostrophe at each end of it unless it is empty. */
  lemma TrimBounds(w: string) returns (a: nat, b: nat)
    ensures a <= b <= |w| && TrimApostrophes(w) == w[a..b]
    ensures forall i :: 0 <= i < a ==> w[i] == '\''
    ensures forall i :: b <= i < |w| ==> w[i] == '\''
    ensures a < b ==> w[a] != '\'' && w[b - 1] != '\''
    ensures a == b ==> forall i :: 0 <= i < |w| ==> w[i] == '\''
  {
    a := SpanLength(IsApostrophe, w);
    var rest := w[a..];
    var n := TrailingApostrophes(rest);
    b := |w| - n;
    assert rest[..|rest| - n] == w[a..b];
    forall i | b <= i < |w|
      ensures w[i] == '\''
    {
      assert w[i] == rest[i - a];
    }
    if a < |w| {
      assert n < |rest|;
      assert w[b - 1] == rest[|rest| - 1 - n];
    }
  }

  /** `TrimBounds` for a piece `s[p..e]`, with the bounds given as positions of `s`. */
  lemma TrimBoundsIn(s: string, p: nat, e: nat) returns (f: nat, l: nat)
    requires p <= e <= |s|
    ensures p <= f <= l <= e && TrimApostrophes(s[p..e]) == s[f..l]
    ensures forall k :: p <= k < f ==> s[k] == '\''
    ensures forall k :: l <= k < e ==> s[k] == '\''
    ensures f < l ==> s[f] != '\'' && s[l - 1] != '\''
  {
    var w := s[p..e];
    var a, b := TrimBounds(w);
    f, l := p + a, p + b;
    forall k | p <= k < f
      ensures s[k] == '\''
    {
      assert s[k] == w[k - p];
    }
    forall k | l <= k < e
      ensures s[k] == '\''
    {
      assert s[k] == w[k - p];
    }
    if a < b {
      assert s[f] == w[a] && s[l - 1] == w[b - 1];
    }
    SliceOfSlice(s, p, e, a, b);
  }

  /** A token of the tokeniser's output. */
  predicate WellFormedToken(t: string)
  {
    && |t| > 0
    && (forall i :: 0 <= i < |t| ==> IsTokenChar(t[i]))
    && IsWordChar(t[0])
    && IsWordChar(t[|t| - 1])
  }

  /** A run of token characters with its apostrophes trimmed is a well-formed token, or empty. */
  lemma TrimmedRunWellFormed(s: string, p: nat)
    requires p <= |s|
    ensures var t := TrimApostrophes(s[p..RunEnd(s, p)]);
            |t| > 0 ==> WellFormedToken(t)
  {
    var e := RunEnd(s, p);
    var f, l := TrimBoundsIn(s, p, e);
    var t := s[f..l];
    if f < l {
      forall i | 0 <= i < |t|
        ensures IsTokenChar(t[i])
      {
        assert t[i] == s[f + i];
      }
      assert t[0] == s[f] && t[|t| - 1] == s[l - 1];
    }
  }

  /** The token a run contributes, if any: the trimmed run, or nothing when only apostrophes remain. */
  function RunToken(w: string): (r: seq<string>)
  {
    var t := TrimApostrophes(w);
    if |t| == 0 then [] else [t]
  }

  /** Tokens of `s[p..]`, scanning run by run. */
  function TokensFrom(s: string, p: nat): (ws: seq<string>)
    requires p <= |s|
    ensures forall i :: 0 <= i < |ws| ==> WellFormedToken(ws[i])
    decreases |s| - p
  {
    if p == |s| then []
    else if !IsTokenChar(s[p]) then TokensFrom(s, p + 1)
    else
      var e := RunEnd(s, p);
      TrimmedRunWellFormed(s, p);
      RunToken(s[p..e]) + TokensFrom(s, e)
  }

  /** The words of `s`: every token is non-empty, uses only `[A-Za-z0-9_']`, and starts and ends with a `\w` character. */
  function Tokens(s: string): (ws: seq<string>)
    ensures forall i :: 0 <= i < |ws| ==> WellFormedToken(ws[i])
  {
    TokensFrom(s, 0)
  }

  // ----- The regular-expression engine's view -----

  /** Position `k` holds a `\w` character; positions outside the string do not. */
  predicate WordAt(s: string, k: int)
  {
    0 <= k < |s| && IsWordChar(s[k])
  }

  /** `\b` holds at position `i`, between `s[i - 1]` and `s[i]`. */
  predicate Boundary(s: string, i: nat)
  {
    WordAt(s, i - 1) != WordAt(s, i)
  }

  /** Greedy `[\w']+` followed by `\b`: the largest end in `(p, e]` at which `\b` holds, trying `e` first. */
  function LastBoundary(s: string, p: nat, e: nat): (r: Option<nat>)
    requires p < e <= |s|
    ensures r.Some? ==> p < r.value <= e && Boundary(s, r.value)
    decreases e - p
  {
    if Boundary(s, e) then Some(e)
    else if e == p + 1 then None
    else LastBoundary(s, p, e - 1)
  }

  /** End of the match of `\b[\w']+\b` that starts exactly at `p`, if there is one. */
  function MatchAt(s: string, p: nat): (r: Option<nat>)
    requires p < |s|
    ensures r.Some? ==> p < r.value <= |s|
  {
    if Boundary(s, p) && IsTokenChar(s[p]) then LastBoundary(s, p, RunEnd(s, p)) else None
  }

  /** The global match loop from position `p`: a failed attempt moves on one position, a match resumes at its end. */
  function RegexMatches(s: string, p: nat): seq<string>
    requires p <= |s|
    decreases |s| - p
  {
    if p == |s| then []
    else match MatchAt(s, p)
      case Some(e) => [s[p..e]] + RegexMatches(s, e)
      case None => RegexMatches(s, p + 1)
  }

  lemma {:induction false} SkipNoMatch(s: string, q: nat, e: nat)
    requires q <= e <= |s|
    requires forall k :: q <= k < e ==> MatchAt(s, k) == None
    ensures RegexMatches(s, q) == RegexMatches(s, e)
    decreases e - q
  {
    if q < e {
      assert MatchAt(s, q) == None;
      assert RegexMatches(s, q) == RegexMatches(s, q + 1);
      SkipNoMatch(s, q + 1, e);
    }
  }

  lemma {:induction false} LastBoundaryNone(s: string, p: nat, e: nat)
    requires p < e <= |s|
    requires forall k :: p < k <= e ==> !Boundary(s, k)
    ensures LastBoundary(s, p, e) == None
    decreases e - p
  {
    if e > p + 1 {
      LastBoundaryNone(s, p, e - 1);
    }
  }

  lemma {:induction false} LastBoundaryFinds(s: string, p: nat, e: nat, l: nat)
    requires p < l <= e <= |s|
    requires Boundary(s, l)
    requires forall k :: l < k <= e ==> !Boundary(s, k)
    ensures LastBoundary(s, p, e) == Some(l)
    decreases e - l
  {
    if e > l {
      LastBoundaryFinds(s, p, e - 1, l);
    }
  }

  /** No match starts among apostrophes that are not preceded by a `\w` character. */
  lemma ApostrophesNoMatch(s: string, q: nat, f: nat)
    requires q <= f <= |s|
    requires forall k :: q <= k < f ==> s[k] == '\''
    requires !WordAt(s, q - 1)
    ensures forall k :: q <= k < f ==> MatchAt(s, k) == None
  {
    forall k | q <= k < f
      ensures MatchAt(s, k) == None
    {
      assert !WordAt(s, k);
      assert k == q || s[k - 1] == '\'';
    }
  }

  /** Inside a run, no boundary holds among the apostrophes that end it. */
  lemma TrailingNoBoundary(s: string, l: nat, e: nat)
    requires 0 < l <= e <= |s|
    requires forall k :: l <= k < e ==> s[k] == '\''
    requires e < |s| ==> !IsTokenChar(s[e])
    ensures forall k :: l < k <= e ==> !Boundary(s, k)
  {
    forall k | l < k <= e
      ensures !Boundary(s, k)
    {
      assert !WordAt(s, k - 1);
      assert !WordAt(s, k);
    }
  }

  /** Every position of a run sees the same run end. */
  lemma RunEndWithin(s: string, p: nat, q: nat)
    requires p <= |s| && p <= q < RunEnd(s, p)
    ensures RunEnd(s, q) == RunEnd(s, p)
  {
  }

  /** A run `s[p..e]` whose word characters span `s[f..l]` yields the single match `s[f..l]`. */
  lemma RunWithWordMatches(s: string, p: nat, f: nat, l: nat, e: nat)
    requires p <= f < l <= e <= |s| && e == RunEnd(s, p)
    requires !WordAt(s, p - 1)
    requires forall k :: p <= k < f ==> s[k] == '\''
    requires forall k :: l <= k < e ==> s[k] == '\''
    requires IsWordChar(s[f]) && IsWordChar(s[l - 1])
    ensures RegexMatches(s, p) == [s[f..l]] + RegexMatches(s, e)
  {
    ApostrophesNoMatch(s, p, f);
    SkipNoMatch(s, p, f);
    TrailingNoBoundary(s, l, e);
    assert !WordAt(s, f - 1);
    RunEndWithin(s, p, f);
    LastBoundaryFinds(s, f, e, l);
    assert MatchAt(s, f) == Some(l);
    forall k | l <= k < e
      ensures MatchAt(s, k) == None
    {
      if Boundary(s, k) && IsTokenChar(s[k]) {
        RunEndWithin(s, p, k);
        LastBoundaryNone(s, k, e);
      }
    }
    SkipNoMatch(s, l, e);
  }

  /** One maximal run, starting at `p`, contributes exactly its trimmed form to the matches. */
  lemma RunMatches(s: string, p: nat)
    requires p < |s| && IsTokenChar(s[p])
    requires p == 0 || !IsTokenChar(s[p - 1])
    ensures RegexMatches(s, p) == RunToken(s[p..RunEnd(s, p)]) + RegexMatches(s, RunEnd(s, p))
  {
    var e := RunEnd(s, p);
    var f, l := TrimBoundsIn(s, p, e);
    assert !WordAt(s, p - 1);
    if f == l {
      ApostrophesNoMatch(s, p, e);
      SkipNoMatch(s, p, e);
      assert RunToken(s[p..e]) == [];
    } else {
      assert IsWordChar(s[f]) && IsWordChar(s[l - 1]);
      RunWithWordMatches(s, p, f, l, e);
      assert RunToken(s[p..e]) == [s[f..l]];
    }
  }

  /** Position `p` is not strictly inside a run of `[\w']` characters. */
  predicate AtRunEdge(s: string, p: nat)
    requires p <= |s|
  {
    p == 0 || p == |s| || !IsTokenChar(s[p - 1]) || !IsTokenChar(s[p])
  }

  lemma {:induction false} RegexMatchesFrom(s: string, p: nat)
    requires p <= |s| && AtRunEdge(s, p)
    ensures RegexMatches(s, p) == TokensFrom(s, p)
    decreases |s| - p
  {
    if p < |s| {
      if !IsTokenChar(s[p]) {
        assert MatchAt(s, p) == None;
        RegexMatchesFrom(s, p + 1);
      } else {
        RunMatches(s, p);
        RegexMatchesFrom(s, RunEnd(s, p));
      }
    }
  }

  /** The run-based tokeniser returns exactly the matches of `/\b[\w']+\b/g`, in order. */
  lemma RegexMatchesAreTokens(s: string)
    ensures RegexMatches(s, 0) == Tokens(s)
  {
    RegexMatchesFrom(s, 0);
  }

  // ----- What the tokens keep -----

  lemma TrimKeepsWordChars(w: string)
    ensures Filter(IsWordChar, TrimApostrophes(w)) == Filter(IsWordChar, w)
  {
    var a, b := TrimBounds(w);
    FilterInside(IsWordChar, w, a, b);
  }

  /** The token a run contributes keeps every `\w` character of the run. */
  lemma RunTokenKeepsWordChars(w: string)
    ensures Filter(IsWordChar, Flatten(RunToken(w))) == Filter(IsWordChar, w)
  {
    var t := TrimApostrophes(w);
    TrimKeepsWordChars(w);
    if |t| == 0 {
      assert RunToken(w) == [];
      assert Flatten(RunToken(w)) == t;
    } else {
      assert RunToken(w) == [t];
      assert Flatten([t]) == t + Flatten([]);
      assert Flatten(RunToken(w)) == t;
    }
  }

  lemma {:induction false} TokensFromKeepWordChars(s: string, p: nat)
    requires p <= |s|
    ensures Filter(IsWordChar, Flatten(TokensFrom(s, p))) == Filter(IsWordChar, s[p..])
    decreases |s| - p
  {
    if p == |s| {
    } else if !IsTokenChar(s[p]) {
      TokensFromKeepWordChars(s, p + 1);
      FilterSplit(IsWordChar, s, p, p + 1);
      assert s[p..p + 1] == [s[p]];
    } else {
      var e := RunEnd(s, p);
      assert TokensFrom(s, p) == RunToken(s[p..e]) + TokensFrom(s, e);
      TokensFromKeepWordChars(s, e);
      FilterFlattenConcat(IsWordChar, RunToken(s[p..e]), TokensFrom(s, e));
      RunTokenKeepsWordChars(s[p..e]);
      FilterSplit(IsWordChar, s, p, e);
    }
  }

  /** Tokenising loses no `\w` character: the word characters of the text, in order, are those of the tokens. */
  lemma TokensKeepWordChars(s: string)
    ensures Filter(IsWordChar, Flatten(Tokens(s))) == Filter(IsWordChar, s)
  {
    TokensFromKeepWordChars(s, 0);
    assert s[0..] == s;
  }

  /** Some character of `s` matches `\w`. */
  predicate HasWordChar(s: string)
  {
    exists i :: 0 <= i < |s| && IsWordChar(s[i])
  }

  /** There are no words exactly when the text has no `\w` character. */
  lemma NoTokensIffNoWordChar(s: string)
    ensures |Tokens(s)| == 0 <==> !HasWordChar(s)
  {
    var ws := Tokens(s);
    TokensKeepWordChars(s);
    FilterEmpty(IsWordChar, s);
    if |ws| > 0 {
      FlattenConcat([ws[0]], ws[1..]);
      assert ws == [ws[0]] + ws[1..];
      assert Flatten([ws[0]]) == ws[0] + Flatten([]);
      FilterEmpty(IsWordChar, Flatten(ws));
      assert Flatten(ws)[0] == ws[0][0];
    }
  }
}
