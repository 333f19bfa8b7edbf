/** `analyzeText` (src/utils/text-analysis.ts): the statistics report for one text. */
module TextAnalysis {
  import opened Basics
  import opened Chars
  import opened Markup
  import opened Words
  import opened Segments
  import opened Frequency
  import opened Keywords
  import opened JsNumbers
  import opened ReadingTime

  datatype TextReport = TextReport(
    wordCount: nat,
    characterCount: nat,
    characterCountNoSpaces: nat,
    sentenceCount: nat,
    paragraphCount: nat,
    averageWordsPerSentence: Number,
    averageCharactersPerWord: Number,
    uniqueWordCount: nat,
    uniqueWordPercentage: Number,
    longestWord: string,
    keywordDensity: seq<Keyword>,
    readingTime: string,
    speakingTime: string)

  /** Every word lower-cased, in order. */
  function LowerAll(ws: seq<string>): (r: seq<string>)
    ensures |r| == |ws|
    ensures forall i :: 0 <= i < |ws| ==> IsLowerCase(r[i]) && EqualIgnoringCase(ws[i], r[i])
  {
    seq(|ws|, i requires 0 <= i < |ws| => Lower(ws[i]))
  }

  /** `w` is some `ws[i]`, and every word before it is strictly shorter. */
  predicate FirstLongest(ws: seq<string>, w: string)
  {
    exists i :: 0 <= i < |ws| && w == ws[i] && forall j :: 0 <= j < i ==> |ws[j]| < |w|
  }

  /** No word of `ws` is longer than `w`. */
  predicate NoneLonger(ws: seq<string>, w: string)
  {
    forall j :: 0 <= j < |ws| ==> |ws[j]| <= |w|
  }

  /**
   * A left fold over the words starting from `""` that replaces the
   * current choice only by a strictly longer word: the first word of
   * greatest length, or `""` when there are no words.
   */
  function LongestWord(ws: seq<string>): (r: string)
    ensures |ws| == 0 ==> r == ""
    ensures |ws| > 0 ==> FirstLongest(ws, r)
    ensures NoneLonger(ws, r)
  {
    if |ws| == 0 then ""
    else
      var longest := LongestWord(ws[..|ws| - 1]);
      var current := ws[|ws| - 1];
      assert forall j :: 0 <= j < |ws| - 1 ==> ws[j] == ws[..|ws| - 1][j];
      if |current| > |longest| then current else longest
  }

  /** The guarded average: 0 for a zero divisor, otherwise the finite number whose value times `b` is `a`. */
  function Average(a: nat, b: nat): (r: Number)
    ensures r.Finite? && Valid(r)
    ensures b == 0 ==> Value(r) == 0.0
    ensures b > 0 ==> IsQuotient(r, a, b)
  {
    if b > 0 then
      DivideValue(a, b);
      Divide(a, b)
    else
      ZeroValue();
      Zero
  }

  /** The statistics report; every field is computed from the text with its markup tags removed. */
  function AnalyzeText(text: string): TextReport
  {
    var plainText := StripTags(text);
    var words := Tokens(plainText);
    var characters := |plainText|;
    var sentences := Sentences(plainText);
    var paragraphs := Paragraphs(plainText);
    var lowered := LowerAll(words);
    var uniqueWords := |set w | w in lowered|;
    TextReport(
      wordCount := |words|,
      characterCount := characters,
      characterCountNoSpaces := |Filter(IsNotSpace, plainText)|,
      sentenceCount := |sentences|,
      paragraphCount := |paragraphs|,
      averageWordsPerSentence := Average(|words|, |sentences|),
      averageCharactersPerWord := Average(characters, |words|),
      uniqueWordCount := uniqueWords,
      uniqueWordPercentage := Percent(Divide(uniqueWords, |words|)),
      longestWord := LongestWord(words),
      keywordDensity := KeywordDensity(Tally(lowered), |words|),
      readingTime := CalculateReadingTime(|words|),
      speakingTime := CalculateSpeakingTime(|words|))
  }

  // ----- Counts -----

  /** There are no words exactly when the text, tags removed, has no ASCII letter, digit or `_`. */
  lemma WordCountZeroIff(text: string)
    ensures AnalyzeText(text).wordCount == 0 <==> !HasWordChar(StripTags(text))
  {
    var plain := StripTags(text);
    assert AnalyzeText(text).wordCount == |Tokens(plain)|;
    NoTokensIffNoWordChar(plain);
  }

  /**
   * `characterCount` is the length of the text with tags removed, never more
   * than the input's; `characterCountNoSpaces` is at most that, and equal to
   * it exactly when the stripped text has no whitespace.
   */
  lemma CharacterCounts(text: string)
    ensures var r := AnalyzeText(text);
            var plain := StripTags(text);
            && r.characterCount == |plain| <= |text|
            && r.characterCountNoSpaces <= r.characterCount
            && (r.characterCountNoSpaces == r.characterCount <==> forall i :: 0 <= i < |plain| ==> !IsSpace(plain[i]))
  {
    FilterLengthIff(StripTags(text));
  }

  lemma {:induction false} FilterLengthIff(s: string)
    ensures |Filter(IsNotSpace, s)| == |s| <==> forall i :: 0 <= i < |s| ==> !IsSpace(s[i])
    decreases |s|
  {
    if |s| > 0 {
      FilterLengthIff(s[1..]);
      assert forall i :: 1 <= i < |s| ==> s[i] == s[1..][i - 1];
    }
  }

  /** A word holds a letter, digit or `_`, which is neither whitespace nor a sentence terminator. */
  lemma WordsGiveSegments(plain: string)
    requires |Tokens(plain)| > 0
    ensures |Sentences(plain)| > 0 && |Paragraphs(plain)| > 0
  {
    NoTokensIffNoWordChar(plain);
    var k :| 0 <= k < |plain| && IsWordChar(plain[k]);
    SomeSentence(plain, k);
    SomeParagraph(plain, k);
  }

  /** Any word guarantees at least one sentence and one paragraph. */
  lemma WordsImplySentenceAndParagraph(text: string)
    requires AnalyzeText(text).wordCount > 0
    ensures AnalyzeText(text).sentenceCount >= 1
    ensures AnalyzeText(text).paragraphCount >= 1
  {
    WordsGiveSegments(StripTags(text));
  }

  // ----- Ratios -----

  /**
   * The guarded averages are finite: 0 when their divisor is 0, and
   * otherwise the exact quotient.
   */
  lemma AverageGuards(text: string)
    ensures var r := AnalyzeText(text);
            var perSentence := r.averageWordsPerSentence;
            var perWord := r.averageCharactersPerWord;
            && perSentence.Finite? && Valid(perSentence)
            && perWord.Finite? && Valid(perWord)
            && (r.sentenceCount == 0 ==> Value(perSentence) == 0.0)
            && (r.sentenceCount > 0 ==> IsQuotient(perSentence, r.wordCount, r.sentenceCount))
            && (r.wordCount == 0 ==> Value(perWord) == 0.0)
            && (r.wordCount > 0 ==> IsQuotient(perWord, r.characterCount, r.wordCount))
  {
  }

  /**
   * `uniqueWordPercentage` has no guard: it is `NaN` exactly when there are
   * no words, and otherwise a finite percentage in `(0, 100]`.
   */
  lemma UniqueWordPercentage(text: string)
    ensures var r := AnalyzeText(text);
            && (r.uniqueWordPercentage.NaN? <==> r.wordCount == 0)
            && (r.wordCount > 0 ==>
                  r.uniqueWordPercentage.Finite? && Valid(r.uniqueWordPercentage)
                  && 0.0 < Value(r.uniqueWordPercentage) <= 100.0)
  {
    var r := AnalyzeText(text);
    UniqueWordCount(text);
    if r.wordCount > 0 {
      PercentBounds(r.uniqueWordCount, r.wordCount);
    }
  }

  // ----- Distinct words -----

  lemma DistinctWords(ws: seq<string>)
    ensures |set w | w in ws| == |Tally(ws)| <= |ws|
    ensures |ws| > 0 ==> |set w | w in ws| >= 1
  {
    TallySize(ws);
    UniqueAtMostTotal(ws);
    if |ws| > 0 {
      assert ws[0] in (set w | w in ws);
    }
  }

  /**
   * `uniqueWordCount` is the number of distinct lower-cased words: at most
   * `wordCount`, at least one when there are words, and the number of keys
   * in the frequency object.
   */
  lemma UniqueWordCount(text: string)
    ensures var r := AnalyzeText(text);
            && r.uniqueWordCount == |Tally(LowerAll(Tokens(StripTags(text))))|
            && r.uniqueWordCount <= r.wordCount
            && (r.wordCount > 0 ==> r.uniqueWordCount >= 1)
  {
    DistinctWords(LowerAll(Tokens(StripTags(text))));
  }

  /** Lower-cased words contain no upper-case letter. */
  lemma LowerAllIsLowerCase(ws: seq<string>)
    ensures forall w :: w in LowerAll(ws) ==> IsLowerCase(w)
  {
  }

  /**
   * Two words are counted under the same frequency key exactly when they are
   * equal up to ASCII case.
   */
  lemma LowerAllMerges(ws: seq<string>, i: nat, j: nat)
    requires i < |ws| && j < |ws|
    ensures LowerAll(ws)[i] == LowerAll(ws)[j] <==> EqualIgnoringCase(ws[i], ws[j])
  {
    LowerEqualIff(ws[i], ws[j]);
  }

  /**
   * The frequency object of the lower-cased words: its counts are positive,
   * add up to `wordCount` and count the occurrences of each key, which is a
   * lower-case word.
   */
  lemma FrequencyCounts(text: string)
    ensures var lowered := LowerAll(Tokens(StripTags(text)));
            var freq := Tally(lowered);
            && Total(freq) == AnalyzeText(text).wordCount
            && (forall i :: 0 <= i < |freq| ==> freq[i].count == multiset(lowered)[freq[i].word] >= 1)
            && (forall i :: 0 <= i < |freq| ==> IsLowerCase(freq[i].word))
  {
    var lowered := LowerAll(Tokens(StripTags(text)));
    var freq := Tally(lowered);
    TallyEntries(lowered);
    LowerAllIsLowerCase(Tokens(StripTags(text)));
    forall i | 0 <= i < |freq|
      ensures IsLowerCase(freq[i].word)
    {
      assert freq[i].word in Keys(freq);
    }
  }

  // ----- Keywords -----

  /** The listed words are words of `ws` with distinct spellings, sorted by their exact counts. */
  lemma KeywordEntries(ws: seq<string>)
    ensures var kd := KeywordDensity(Tally(ws), |ws|);
            && |kd| == Min(KeywordLimit, |set w | w in ws|)
            && (forall i, j :: 0 <= i < j < |kd| ==> kd[i].count >= kd[j].count)
            && (forall i, j :: 0 <= i < j < |kd| ==> kd[i].word != kd[j].word)
            && (forall i :: 0 <= i < |kd| ==> kd[i].word in ws && kd[i].count == multiset(ws)[kd[i].word] >= 1)
  {
    DistinctWords(ws);
    ListedCounts(ws);
  }

  /** Each listed word occurs in `ws`, as often as its count says. */
  lemma ListedCounts(ws: seq<string>)
    ensures var kd := KeywordDensity(Tally(ws), |ws|);
            forall i :: 0 <= i < |kd| ==> kd[i].word in ws && kd[i].count == multiset(ws)[kd[i].word] >= 1
  {
    var freq := Tally(ws);
    var kd := KeywordDensity(freq, |ws|);
    TallyEntries(ws);
    forall i | 0 <= i < |kd|
      ensures kd[i].word in ws && kd[i].count == multiset(ws)[kd[i].word] >= 1
    {
      var p :| 0 <= p < |freq| && freq[p] == Entry(kd[i].word, kd[i].count);
      assert freq[p].word in Keys(freq);
    }
  }

  /** No word left off the list occurs more often than a listed one. */
  lemma KeywordsAreTop(ws: seq<string>)
    ensures var kd := KeywordDensity(Tally(ws), |ws|);
            forall w, i :: w in ws && 0 <= i < |kd| && !Listed(kd, w) ==> multiset(ws)[w] <= kd[i].count
  {
    var freq := Tally(ws);
    var kd := KeywordDensity(freq, |ws|);
    KeywordListIsTop(freq, |ws|);
    forall w, i | w in ws && 0 <= i < |kd| && !Listed(kd, w)
      ensures multiset(ws)[w] <= kd[i].count
    {
      assert w in Keys(freq);
      var p :| 0 <= p < |freq| && freq[p].word == w;
      CountAtKey(freq, p);
      assert freq[p] in freq;
    }
  }

  /** Each density is the finite percentage `count / |ws| * 100`. */
  lemma KeywordDensities(ws: seq<string>)
    ensures var kd := KeywordDensity(Tally(ws), |ws|);
            forall i :: 0 <= i < |kd| ==> IsQuotient(kd[i].density, 100 * kd[i].count, |ws|)
  {
    var kd := KeywordDensity(Tally(ws), |ws|);
    KeywordEntries(ws);
    forall i | 0 <= i < |kd|
      ensures IsQuotient(kd[i].density, 100 * kd[i].count, |ws|)
    {
      assert kd[i].word in ws;
      PercentOfQuotient(kd[i].count, |ws|);
    }
  }

  /**
   * The report's keyword list: `min(10, uniqueWordCount)` distinct
   * lower-case words sorted by count from high to low, each with its count
   * among the lower-cased words and density `count / wordCount * 100`; no
   * word left off outnumbers a listed one.
   */
  lemma KeywordDensityFacts(text: string)
    ensures var r := AnalyzeText(text);
            var lowered := LowerAll(Tokens(StripTags(text)));
            var kd := r.keywordDensity;
            && |kd| == Min(KeywordLimit, r.uniqueWordCount)
            && (forall i, j :: 0 <= i < j < |kd| ==> kd[i].count >= kd[j].count)
            && (forall i, j :: 0 <= i < j < |kd| ==> kd[i].word != kd[j].word)
            && (forall i :: 0 <= i < |kd| ==> IsLowerCase(kd[i].word) && kd[i].count == multiset(lowered)[kd[i].word] >= 1)
            && (forall i :: 0 <= i < |kd| ==> IsQuotient(kd[i].density, 100 * kd[i].count, r.wordCount))
            && (forall w, i :: w in lowered && 0 <= i < |kd| && !Listed(kd, w) ==> multiset(lowered)[w] <= kd[i].count)
  {
    var lowered := LowerAll(Tokens(StripTags(text)));
    KeywordEntries(lowered);
    KeywordsAreTop(lowered);
    KeywordDensities(lowered);
    LowerAllIsLowerCase(Tokens(StripTags(text)));
  }

  // ----- Time labels -----

  /** Both labels say "Less than a minute" exactly when there are no words, and "1 minute" up to one minute's worth. */
  lemma TimeLabelsOfReport(text: string)
    ensures var r := AnalyzeText(text);
            && (r.readingTime == LessThanAMinute <==> r.wordCount == 0)
            && (r.speakingTime == LessThanAMinute <==> r.wordCount == 0)
            && (r.readingTime == OneMinute <==> 1 <= r.wordCount <= ReadingWordsPerMinute)
            && (r.speakingTime == OneMinute <==> 1 <= r.wordCount <= SpeakingWordsPerMinute)
  {
    var n := AnalyzeText(text).wordCount;
    TimeLabelCases(n, ReadingWordsPerMinute);
    TimeLabelCases(n, SpeakingWordsPerMinute);
  }

  /** Among non-empty words the longest is empty exactly when there are none. */
  lemma LongestWordEmptyIff(ws: seq<string>)
    requires forall i :: 0 <= i < |ws| ==> |ws[i]| > 0
    ensures LongestWord(ws) == "" <==> |ws| == 0
  {
    if |ws| > 0 {
      assert |ws[0]| <= |LongestWord(ws)|;
    }
  }

  /**
   * `longestWord` is empty exactly when there are no words; otherwise it is
   * one of the words, the first of the greatest length.
   */
  lemma LongestWordOfReport(text: string)
    ensures var r := AnalyzeText(text);
            var ws := Tokens(StripTags(text));
            && (r.longestWord == "" <==> r.wordCount == 0)
            && (r.wordCount > 0 ==> FirstLongest(ws, r.longestWord))
            && NoneLonger(ws, r.longestWord)
  {
    var ws := Tokens(StripTags(text));
    var r := AnalyzeText(text);
    assert r.longestWord == LongestWord(ws) && r.wordCount == |ws|;
    LongestWordEmptyIff(ws);
  }

  // ----- Whole reports -----

  /** Analysing text whose tags were already removed gives the same report. */
  lemma AnalyzeStrippedText(text: string)
    ensures AnalyzeText(StripTags(text)) == AnalyzeText(text)
  {
    StripTagsIdempotent(text);
  }

  /** The empty text yields zero counts, no keywords, no longest word, and `NaN` for the unguarded percentage. */
  lemma AnalyzeEmpty()
    ensures var r := AnalyzeText("");
            && r.wordCount == 0 && r.characterCount == 0 && r.characterCountNoSpaces == 0
            && r.sentenceCount == 0 && r.paragraphCount == 0 && r.uniqueWordCount == 0
            && r.longestWord == "" && r.keywordDensity == []
            && r.averageWordsPerSentence == Zero && r.averageCharactersPerWord == Zero
            && r.uniqueWordPercentage == NaN
            && r.readingTime == "Less than a minute" && r.speakingTime == "Less than a minute"
  {
    assert StripTags("") == "";
    assert Tokens("") == [];
    assert SplitSentences("") == [""];
    assert IsBlank("");
    assert Sentences("") == [];
    assert FindBreak("", 0) == None;
    assert SplitParagraphs("") == [""];
    assert Paragraphs("") == [];
    TimeLabelsOfReport("");
    UniqueWordCount("");
    KeywordDensityFacts("");
  }
}
