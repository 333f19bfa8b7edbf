/**
 * What `compareTexts` does with a character diff of the two texts: the
 * inserted and deleted character totals, the differences of the two texts'
 * statistics, and the entry lists shown in the inline and side-by-side views.
 *
 * The diff itself (`diff_main` followed by `diff_cleanupSemantic`) is library
 * code; here it is the parameter `diff`, and the one property of it the
 * lemmas rely on is `IsDiffOf`: the entries not tagged as insertions spell
 * the first text and the entries not tagged as deletions spell the second.
 */
module TextComparison {
  import opened Basics
  import opened Markup
  import opened Words
  import opened TextAnalysis

  /** The diff library's operation tags. */
  const Delete: int := -1
  const Equal: int := 0
  const Insert: int := 1

  /** One `[type, text]` pair of the diff. */
  datatype DiffEntry = DiffEntry(tag: int, text: string)

  /** Texts of the entries, in order, joined. */
  function Joined(d: seq<DiffEntry>): string
  {
    if |d| == 0 then "" else d[0].text + Joined(d[1..])
  }

  /** The text the diff starts from: every entry except insertions. */
  function OldText(d: seq<DiffEntry>): string
  {
    if |d| == 0 then ""
    else (if d[0].tag == Insert then "" else d[0].text) + OldText(d[1..])
  }

  /** The text the diff arrives at: every entry except deletions. */
  function NewText(d: seq<DiffEntry>): string
  {
    if |d| == 0 then ""
    else (if d[0].tag == Delete then "" else d[0].text) + NewText(d[1..])
  }

  /** `d` is a diff from `a` to `b`. */
  predicate IsDiffOf(d: seq<DiffEntry>, a: string, b: string)
  {
    OldText(d) == a && NewText(d) == b
  }

  /** Every tag is one the diff library produces. */
  predicate LibraryTags(d: seq<DiffEntry>)
  {
    forall i :: 0 <= i < |d| ==> d[i].tag in {Delete, Equal, Insert}
  }

  // ----- Inserted and deleted characters -----

  /** Total length of the entries tagged `t`. */
  function TaggedLength(d: seq<DiffEntry>, t: int): nat
  {
    if |d| == 0 then 0
    else (if d[0].tag == t then |d[0].text| else 0) + TaggedLength(d[1..], t)
  }

  /** The loop over the diff: characters of insertions and of deletions, counted separately. */
  method CountChanges(diff: seq<DiffEntry>) returns (addedChars: nat, removedChars: nat)
    ensures addedChars == TaggedLength(diff, Insert)
    ensures removedChars == TaggedLength(diff, Delete)
  {
    addedChars, removedChars := 0, 0;
    var i := 0;
    while i < |diff|
      invariant 0 <= i <= |diff|
      invariant addedChars + TaggedLength(diff[i..], Insert) == TaggedLength(diff, Insert)
      invariant removedChars + TaggedLength(diff[i..], Delete) == TaggedLength(diff, Delete)
    {
      assert diff[i..][1..] == diff[i + 1..];
      var entry := diff[i];
      if entry.tag == Insert {
        addedChars := addedChars + |entry.text|;
      } else if entry.tag == Delete {
        removedChars := removedChars + |entry.text|;
      }
      i := i + 1;
    }
    assert diff[i..] == [];
  }

  /** No characters are counted for tag `t` exactly when every entry tagged `t` is empty. */
  lemma {:induction false} TaggedLengthZero(d: seq<DiffEntry>, t: int)
    ensures TaggedLength(d, t) == 0 <==> forall i :: 0 <= i < |d| && d[i].tag == t ==> d[i].text == ""
    decreases |d|
  {
    if |d| > 0 {
      TaggedLengthZero(d[1..], t);
      assert forall i :: 1 <= i < |d| ==> d[i] == d[1..][i - 1];
    }
  }

  /** A diff without insertions adds no characters, and one without deletions removes none. */
  lemma {:induction false} UntaggedCountsNothing(d: seq<DiffEntry>, t: int)
    requires forall i :: 0 <= i < |d| ==> d[i].tag != t
    ensures TaggedLength(d, t) == 0
  {
    TaggedLengthZero(d, t);
  }

  /** The second text is longer than the first by the inserted characters less the deleted ones. */
  lemma {:induction false} NetChange(d: seq<DiffEntry>)
    ensures |NewText(d)| - |OldText(d)| == TaggedLength(d, Insert) - TaggedLength(d, Delete)
    decreases |d|
  {
    if |d| > 0 {
      NetChange(d[1..]);
    }
  }

  // ----- The comparison -----

  datatype Comparison = Comparison(
    wordCountDiff: int,
    characterCountDiff: int,
    diff: seq<DiffEntry>,
    addedChars: nat,
    removedChars: nat)

  /** `compareTexts`, given the diff the library computes from the two texts with their tags removed. */
  function CompareTexts(text1: string, text2: string, diff: seq<DiffEntry>): (c: Comparison)
    ensures c.diff == diff
    ensures IsDiffOf(diff, StripTags(text1), StripTags(text2)) ==>
              c.characterCountDiff == c.addedChars - c.removedChars
  {
    var analysis1 := AnalyzeText(text1);
    var analysis2 := AnalyzeText(text2);
    CharacterCounts(text1);
    CharacterCounts(text2);
    NetChange(diff);
    Comparison(
      wordCountDiff := analysis2.wordCount - analysis1.wordCount,
      characterCountDiff := analysis2.characterCount - analysis1.characterCount,
      diff := diff,
      addedChars := TaggedLength(diff, Insert),
      removedChars := TaggedLength(diff, Delete))
  }

  /**
   * The counts of a comparison: the inserted and deleted totals, and the
   * differences of word and character counts, second text minus first, where
   * the character counts are the lengths of the texts with tags removed.
   */
  lemma ComparisonCounts(text1: string, text2: string, diff: seq<DiffEntry>)
    ensures var c := CompareTexts(text1, text2, diff);
            && c.addedChars == TaggedLength(diff, Insert)
            && c.removedChars == TaggedLength(diff, Delete)
            && c.wordCountDiff == |Tokens(StripTags(text2))| - |Tokens(StripTags(text1))|
            && c.characterCountDiff == |StripTags(text2)| - |StripTags(text1)|
  {
    CharacterCounts(text1);
    CharacterCounts(text2);
  }

  /** Comparing a text with itself through a diff that keeps everything: no change at all. */
  lemma CompareWithItself(text: string)
    ensures var plain := StripTags(text);
            var d := [DiffEntry(Equal, plain)];
            var c := CompareTexts(text, text, d);
            && IsDiffOf(d, plain, plain)
            && c.wordCountDiff == 0 && c.characterCountDiff == 0
            && c.addedChars == 0 && c.removedChars == 0
  {
    var plain := StripTags(text);
    var d := [DiffEntry(Equal, plain)];
    assert d[1..] == [];
    assert OldText(d) == plain + "";
    assert NewText(d) == plain + "";
    ComparisonCounts(text, text, d);
  }

  /** The diff of "cat" and "cats" keeps "cat" and inserts "s": one character added, none removed. */
  lemma CatCatsExample()
    ensures var d := [DiffEntry(Equal, "cat"), DiffEntry(Insert, "s")];
            && IsDiffOf(d, "cat", "cats")
            && TaggedLength(d, Insert) == 1 && TaggedLength(d, Delete) == 0
  {
    var d := [DiffEntry(Equal, "cat"), DiffEntry(Insert, "s")];
    var rest := [DiffEntry(Insert, "s")];
    assert d[1..] == rest && rest[1..] == [];
    assert OldText(rest) == "";
    assert NewText(rest) == "s" + "";
    assert OldText(d) == "cat" + OldText(rest);
    assert NewText(d) == "cat" + NewText(rest);
    assert TaggedLength(rest, Insert) == 1 && TaggedLength(rest, Delete) == 0;
    assert TaggedLength(d, Insert) == 0 + TaggedLength(rest, Insert);
    assert TaggedLength(d, Delete) == 0 + TaggedLength(rest, Delete);
  }

  // ----- Rendering -----

  /** How `renderInlineDiff` styles an entry. */
  datatype Style = Unchanged | Added | Removed

  function Classify(tag: int): (s: Style)
    ensures s == Unchanged <==> tag == Equal
    ensures s == Added <==> tag == Insert
  {
    if tag == Equal then Unchanged
    else if tag == Insert then Added
    else Removed
  }

  /** A rendered `<span>`: its React key, its style and its text. */
  datatype Span = Span(key: nat, style: Style, text: string)

  /** Spans for the entries of `d`, keyed from `k` on. */
  function RenderFrom(d: seq<DiffEntry>, k: nat): (r: seq<Span>)
    ensures |r| == |d|
    ensures forall i :: 0 <= i < |d| ==>
              r[i] == Span(k + i, Classify(d[i].tag), d[i].text)
  {
    if |d| == 0 then [] else [Span(k, Classify(d[0].tag), d[0].text)] + RenderFrom(d[1..], k + 1)
  }

  /** `renderInlineDiff`: one span per entry, keyed by its position in the list. */
  function RenderInlineDiff(d: seq<DiffEntry>): seq<Span>
  {
    RenderFrom(d, 0)
  }

  /** Texts of the spans, in order, joined. */
  function Shown(r: seq<Span>): string
  {
    if |r| == 0 then "" else r[0].text + Shown(r[1..])
  }

  /** The rendered spans show exactly the diff's text, keyed `0, 1, ...`, each styled by its tag. */
  lemma {:induction false} RenderKeepsText(d: seq<DiffEntry>, k: nat)
    ensures Shown(RenderFrom(d, k)) == Joined(d)
    decreases |d|
  {
    if |d| > 0 {
      RenderKeepsText(d[1..], k + 1);
      assert RenderFrom(d, k)[1..] == RenderFrom(d[1..], k + 1);
    }
  }

  predicate NotInserted(e: DiffEntry)
  {
    e.tag != Insert
  }

  predicate NotDeleted(e: DiffEntry)
  {
    e.tag != Delete
  }

  /** The left side-by-side view: the diff without its insertions. */
  function LeftView(d: seq<DiffEntry>): seq<DiffEntry>
  {
    Filter(NotInserted, d)
  }

  /** The right side-by-side view: the diff without its deletions. */
  function RightView(d: seq<DiffEntry>): seq<DiffEntry>
  {
    Filter(NotDeleted, d)
  }

  lemma JoinedCons(e: DiffEntry, d: seq<DiffEntry>)
    ensures Joined([e] + d) == e.text + Joined(d)
  {
    assert ([e] + d)[1..] == d;
  }

  /** The left view spells the text the diff starts from. */
  lemma {:induction false} LeftViewText(d: seq<DiffEntry>)
    ensures Joined(LeftView(d)) == OldText(d)
    decreases |d|
  {
    if |d| > 0 {
      LeftViewText(d[1..]);
      if NotInserted(d[0]) {
        assert LeftView(d) == [d[0]] + LeftView(d[1..]);
        JoinedCons(d[0], LeftView(d[1..]));
      } else {
        assert LeftView(d) == LeftView(d[1..]);
      }
    }
  }

  /** The right view spells the text the diff arrives at. */
  lemma {:induction false} RightViewText(d: seq<DiffEntry>)
    ensures Joined(RightView(d)) == NewText(d)
    decreases |d|
  {
    if |d| > 0 {
      RightViewText(d[1..]);
      if NotDeleted(d[0]) {
        assert RightView(d) == [d[0]] + RightView(d[1..]);
        JoinedCons(d[0], RightView(d[1..]));
      } else {
        assert RightView(d) == RightView(d[1..]);
      }
    }
  }

  /**
   * Side by side, the left column shows the first text and marks nothing as
   * added; the right column shows the second text and, for the tags the
   * library produces, marks nothing as removed.
   */
  lemma SideBySide(d: seq<DiffEntry>, a: string, b: string)
    requires IsDiffOf(d, a, b)
    ensures var left := RenderInlineDiff(LeftView(d));
            && Shown(left) == a
            && forall i :: 0 <= i < |left| ==> left[i].style != Added
    ensures var right := RenderInlineDiff(RightView(d));
            && Shown(right) == b
            && (LibraryTags(d) ==> forall i :: 0 <= i < |right| ==> right[i].style != Removed)
  {
    var l, r := LeftView(d), RightView(d);
    LeftViewText(d);
    RightViewText(d);
    RenderKeepsText(l, 0);
    RenderKeepsText(r, 0);
    forall i | 0 <= i < |l|
      ensures NotInserted(l[i])
    {
      assert l[i] in l;
    }
    if LibraryTags(d) {
      forall i | 0 <= i < |r|
        ensures r[i].tag in {Delete, Equal, Insert} && NotDeleted(r[i])
      {
        assert r[i] in r;
        var j :| 0 <= j < |d| && d[j] == r[i];
      }
    }
  }
}
