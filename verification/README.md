# Text statistics and diff summary, modelled in Dafny

This project models the text-analysis core of a browser-based writing tool.

`analyzeText` takes a text that may contain HTML markup and reports:
- word, character, sentence and paragraph counts;
- averages and the percentage of unique words;
- the longest word;
- the ten most frequent words with their densities;
- reading-time and speaking-time labels.

`compareTexts` takes two texts and a character diff of them (with tags removed) and reports:
- the inserted and deleted character totals;
- the differences of the two texts' word and character counts;
- the entry lists that the inline view and the two side-by-side columns render.

Every regular expression of the code is modelled as the JavaScript engine matches it on text whose characters each fit one UTF-16 code unit:
- tag removal `/<[^>]*>/g`;
- the word pattern `/\b[\w']+\b/g`;
- the sentence split `/[.!?]+/` and the paragraph split `/\n\s*\n/`;
- `\s` and `trim()` with JavaScript's whitespace set.

Word tokenisation has two definitions, proved equal:
- a run-based tokeniser;
- a step-by-step model of the regular-expression engine's global match loop, with word boundaries and backtracking.

The frequency object keeps insertion order. `Object.entries` lists array-index keys first, in ascending numeric order, and the rest in insertion order, and the model follows that. The sort by count is stable.

Numbers that JavaScript computes by division are exact fractions in the model, or `NaN`/`Infinity` for a zero divisor.

Modules, one per file:
- `Basics`: option type, `filter`, `join`.
- `Chars`: character classes and `toLowerCase`.
- `Markup`: tag removal.
- `Words`: tokens.
- `Segments`: sentence and paragraph splits.
- `Decimal`: numerals and array-index keys.
- `Frequency`: the frequency object.
- `Keywords`: `Object.entries`, sorting and the top ten.
- `JsNumbers`: division and percentages.
- `ReadingTime`: the time labels.
- `TextAnalysis`: the report.
- `TextComparison`: the diff summary and views.

`uniqueWordPercentage` has no zero guard in the code: with no words it divides 0 by 0, so the value is `NaN` (`0 / 0 * 100`). The model follows the code: see `TextAnalysis.UniqueWordPercentage` and `TextAnalysis.AnalyzeEmpty`.

## Model

| member | source | states |
|---|---|---|
| Markup.StripTags | src/utils/text-analysis.ts:2 | Removing tags never lengthens the text, keeps only characters of the input, and leaves text without `<` unchanged |
| Markup.StripTagsIsTagFree | src/utils/text-analysis.ts:2 | After removal no `<` has a `>` anywhere after it, so the pattern has nothing left to match |
| Markup.StripTagsKeepsTagFree | src/utils/text-analysis.ts:2 | Text in which the pattern cannot match is returned unchanged |
| Markup.StripTagsIdempotent | src/utils/text-analysis.ts:2 | Removing tags twice gives the same text as removing them once |
| Markup.StripTagsPlainPrefix | src/utils/text-analysis.ts:2 | Text before the first `<` survives unchanged, and stripping carries on with the rest |
| Markup.StripTagsTagFirst | src/utils/text-analysis.ts:2 | A `<`, everything up to the first `>` after it, and that `>` are deleted together |
| Markup.StripTagsRemovesTag | src/utils/text-analysis.ts:2 | In `a<t>b` with no `<` in `a` and no `>` in `t`, exactly the tag is removed: the result is `a` followed by the stripped `b` |
| Words.Tokens | src/utils/text-analysis.ts:3 | Every word is non-empty, uses only letters, digits, `_` and `'`, and starts and ends with a `\w` character |
| Words.RunMatches | src/utils/text-analysis.ts:3 | One maximal run of `[\w']` yields exactly one match (the run with outer apostrophes trimmed), or none if only apostrophes remain |
| Words.RegexMatchesAreTokens | src/utils/text-analysis.ts:3 | The regular-expression engine's global match loop for `\b[\w']+\b` returns exactly the run-based tokens, in order |
| Words.TrimKeepsWordChars | src/utils/text-analysis.ts:3 | Trimming apostrophes from a run loses no `\w` character |
| Words.TokensKeepWordChars | src/utils/text-analysis.ts:3 | The `\w` characters of the words, in order, are exactly those of the text |
| Words.NoTokensIffNoWordChar | src/utils/text-analysis.ts:3 | `match(...) \|\| []` is empty exactly when the text has no `\w` character |
| Chars.ToLower | src/utils/text-analysis.ts:9 | An upper-case ASCII letter becomes the letter 32 code points up, its lower-case form; every other character is unchanged, and the `\w` class is kept |
| Chars.Lower | src/utils/text-analysis.ts:9 | `toLowerCase` of a word is lower-case, equal to the word up to ASCII case, and leaves a lower-case word unchanged |
| Chars.LowerUnique | src/utils/text-analysis.ts:9 | The lower-case form is the only lower-case spelling equal to the word up to case |
| Chars.LowerEqualIff | src/utils/text-analysis.ts:9 | Two words have the same lower-case form exactly when they are equal up to ASCII case |
| Segments.SplitSentences | src/utils/text-analysis.ts:5 | `split(/[.!?]+/)` yields at least one fragment, and no fragment contains a terminator |
| Segments.SplitSentencesKeepsText | src/utils/text-analysis.ts:5 | The fragments joined are the text with every terminator removed |
| Segments.SeparatorDropped | src/utils/text-analysis.ts:5 | Removing the terminators from a text keeps a terminator-free prefix whole and drops the run of terminators after it |
| Segments.SentenceSplitHead | src/utils/text-analysis.ts:5 | A terminator-free piece followed by a whole run of terminators is the first fragment, and that run the first separator |
| Segments.SplitSentencesCuts | src/utils/text-analysis.ts:5 | The fragments with the separators between them spell the text; every separator is a whole run of terminators, and no fragment holds a terminator |
| Segments.SentenceSplitUnique | src/utils/text-analysis.ts:5 | Any cut of the text at every maximal run of terminators is the one the split makes, fragments and separators alike |
| Segments.Sentences | src/utils/text-analysis.ts:5 | A fragment of the split is counted exactly when it is not blank |
| Segments.SomeSentence | src/utils/text-analysis.ts:5 | A character that is neither whitespace nor a terminator makes at least one sentence |
| Segments.BreakEndAt | src/utils/text-analysis.ts:6 | A match of `\n\s*\n` at a position covers a newline, whitespace and a newline, and is greedy: no longer such stretch starts there |
| Segments.BlankLineMatches | src/utils/text-analysis.ts:6 | Wherever newline, whitespace, newline starts, the separator matches |
| Segments.FindBreak | src/utils/text-analysis.ts:6 | The separator found is the leftmost match, and none exists when nothing is found |
| Segments.SplitParagraphs | src/utils/text-analysis.ts:6 | `split(/\n\s*\n/)` yields at least one fragment, and no fragment contains a blank line |
| Segments.BreakIsSpace | src/utils/text-analysis.ts:6 | The separator between two fragments is whitespace only |
| Segments.SplitParagraphsKeepsText | src/utils/text-analysis.ts:6 | The non-space characters of the fragments are those of the text, in order |
| Segments.NoBlankLineOnePiece | src/utils/text-analysis.ts:6 | A text without a blank line is one fragment, with no separator |
| Segments.FindBreakAtSeparator | src/utils/text-analysis.ts:6 | After a piece with no blank line and no newline in its trailing whitespace, a separator followed by whitespace without a newline is the leftmost match |
| Segments.ParagraphSplitHead | src/utils/text-analysis.ts:6 | Such a piece is the first fragment, and the separator after it the first one removed |
| Segments.SplitParagraphsCuts | src/utils/text-analysis.ts:6 | The fragments with the separators between them spell the text; every separator is newline, whitespace, newline, the whitespace around it holds no other newline, and no fragment between two separators is blank |
| Segments.ParagraphSplitUnique | src/utils/text-analysis.ts:6 | Any cut of the text at every leftmost, longest blank-line match is the one the split makes, fragments and separators alike |
| Segments.Paragraphs | src/utils/text-analysis.ts:6 | A fragment of the split is counted exactly when it is not blank, and no counted paragraph has a blank line inside |
| Segments.SomeParagraph | src/utils/text-analysis.ts:6 | A non-space character makes at least one paragraph |
| Frequency.Bump | src/utils/text-analysis.ts:10 | One increment keeps keys distinct and counts positive; a new word is appended as the last key, otherwise the keys are unchanged |
| Frequency.BumpCounts | src/utils/text-analysis.ts:10 | One increment adds one to the count of the word and changes no other count |
| Frequency.Tally | src/utils/text-analysis.ts:7-11 | The frequency object's count for every word is its number of occurrences; its keys are exactly the words, distinct, with counts adding up to the number of words |
| Frequency.TallyOrder | src/utils/text-analysis.ts:7-11 | The keys are listed in the order of the words' first occurrences |
| Frequency.TallyEntries | src/utils/text-analysis.ts:7-11 | Each entry's count is its word's number of occurrences, at least one |
| Frequency.TallySize | src/utils/text-analysis.ts:20 | There is one key per distinct word, as many as `new Set(words).size` |
| Frequency.UniqueAtMostTotal | src/utils/text-analysis.ts:20 | There are never more distinct words than words |
| Decimal.NatToStringRoundTrip | src/utils/text-analysis.ts:46 | The printed number of minutes reads back as that number |
| Decimal.DecimalValueRoundTrip | src/utils/text-analysis.ts:12 | A canonical numeral key is the printed form of its value |
| Decimal.CanonicalIffRoundTrip | src/utils/text-analysis.ts:12 | A digit string is canonical exactly when printing its value gives it back, which is what makes a key an array index |
| Keywords.InsertAscending | src/utils/text-analysis.ts:12 | Inserting an array-index entry keeps the sequence ascending by numeric key and adds exactly that entry |
| Keywords.EnumerationOrder | src/utils/text-analysis.ts:12 | `Object.entries` lists every entry of the object exactly once |
| Keywords.EnumerationOrderIndexFirst | src/utils/text-analysis.ts:12 | Array-index keys come first, in ascending numeric order |
| Keywords.EnumerationOrderNamedKept | src/utils/text-analysis.ts:12 | The other keys follow in insertion order |
| Keywords.InsertByCount | src/utils/text-analysis.ts:18 | Inserting an entry keeps the sequence sorted by descending count and adds exactly that entry |
| Keywords.SortByCount | src/utils/text-analysis.ts:18 | The sort is a permutation sorted by descending count |
| Keywords.InsertByCountStable | src/utils/text-analysis.ts:18 | The inserted entry comes first among the entries with its count, and the others with that count keep their order |
| Keywords.SortByCountStable | src/utils/text-analysis.ts:18 | Entries with equal counts keep their relative order |
| Keywords.TopEntriesLength | src/utils/text-analysis.ts:19 | The list has `min(10, number of keys)` entries |
| Keywords.TopEntriesFromObject | src/utils/text-analysis.ts:12-19 | Every listed entry is an entry of the object, and the list is sorted by descending count |
| Keywords.TopEntriesAreTop | src/utils/text-analysis.ts:18-19 | No entry left off the list has a larger count than a listed one |
| Keywords.TopEntriesDistinct | src/utils/text-analysis.ts:12-19 | Listed words are distinct |
| Keywords.KeywordDensity | src/utils/text-analysis.ts:12-19 | For an object with distinct keys, the list has `min(10, keys)` entries of the object with distinct words, sorted by descending count, each with density `100 * count / words.length` |
| Keywords.KeywordListIsTop | src/utils/text-analysis.ts:18-19 | A word that is not listed has a count no higher than any listed word's |
| JsNumbers.Divide | src/utils/text-analysis.ts:16 | `a / b` is finite exactly when `b > 0`, `NaN` for `0 / 0` and `Infinity` for a positive count over zero |
| JsNumbers.DivideValue | src/utils/text-analysis.ts:16 | Dividing by a positive count gives the exact quotient |
| JsNumbers.Percent | src/utils/text-analysis.ts:16 | Scaling by 100 keeps finiteness and `NaN` |
| JsNumbers.PercentOfQuotient | src/utils/text-analysis.ts:16 | `count / total * 100` is the exact quotient `100 * count / total` |
| JsNumbers.PercentBounds | src/utils/text-analysis.ts:33 | The percentage of a part `1 <= u <= w` lies in `(0, 100]` |
| ReadingTime.CeilDiv | src/utils/text-analysis.ts:43 | `Math.ceil(n / d)` is the least number of whole minutes covering `n` words |
| ReadingTime.CeilDivCases | src/utils/text-analysis.ts:43 | No words take zero minutes, up to one minute's worth takes one |
| ReadingTime.TimeLabelCases | src/utils/text-analysis.ts:41-47 | "Less than a minute" exactly for no words, "1 minute" exactly up to one minute's worth, otherwise the number of minutes (at least two) and " minutes" |
| ReadingTime.TimeLabelReadsBack | src/utils/text-analysis.ts:46 | The digits of a several-minute label read back as the minutes |
| ReadingTime.TimeLabelExamples | src/utils/text-analysis.ts:41-55 | 500 words read in "3 minutes", 150 in "1 minute", and 151 words are spoken in "2 minutes" |
| TextAnalysis.LowerAll | src/utils/text-analysis.ts:9 | Each word is replaced by a lower-case word equal to it up to ASCII case |
| TextAnalysis.LowerAllMerges | src/utils/text-analysis.ts:8-11 | Two words are counted under the same frequency key exactly when they are equal up to ASCII case |
| TextAnalysis.LowerAllIsLowerCase | src/utils/text-analysis.ts:9 | Lower-cased words contain no upper-case letter |
| TextAnalysis.LongestWord | src/utils/text-analysis.ts:21-23 | The `reduce` returns `""` for no words, otherwise the first word of the greatest length, and no word is longer |
| TextAnalysis.LongestWordEmptyIff | src/utils/text-analysis.ts:21-23 | Among non-empty words, the longest is empty exactly when there are none |
| TextAnalysis.LongestWordOfReport | src/utils/text-analysis.ts:21-23 | `longestWord` is empty exactly when there are no words; otherwise it is the first longest word |
| TextAnalysis.Average | src/utils/text-analysis.ts:30-31 | The guarded average is finite: 0 when the divisor is 0, otherwise the exact quotient |
| TextAnalysis.WordCountZeroIff | src/utils/text-analysis.ts:25 | `wordCount` is 0 exactly when the text, tags removed, has no letter, digit or `_` |
| TextAnalysis.CharacterCounts | src/utils/text-analysis.ts:26-27 | `characterCount` is the length of the text with tags removed; the count without spaces is at most that, and equal exactly when there is no whitespace |
| TextAnalysis.FilterLengthIff | src/utils/text-analysis.ts:27 | Removing whitespace keeps the length exactly when there is no whitespace |
| TextAnalysis.WordsGiveSegments | src/utils/text-analysis.ts:5-6 | A text with a word has at least one sentence and one paragraph |
| TextAnalysis.WordsImplySentenceAndParagraph | src/utils/text-analysis.ts:28-29 | A report with a word counts at least one sentence and one paragraph |
| TextAnalysis.AverageGuards | src/utils/text-analysis.ts:30-31 | Both averages are finite: 0 when their divisor is 0, otherwise words per sentence and characters per word exactly |
| TextAnalysis.UniqueWordPercentage | src/utils/text-analysis.ts:33 | The unguarded percentage is `NaN` exactly when there are no words, otherwise it lies in `(0, 100]` |
| TextAnalysis.DistinctWords | src/utils/text-analysis.ts:20 | The number of distinct words equals the number of frequency keys, is at most the number of words, and is at least one when there are words |
| TextAnalysis.UniqueWordCount | src/utils/text-analysis.ts:32 | `uniqueWordCount` is the number of frequency keys: at most `wordCount`, at least one when there are words |
| TextAnalysis.FrequencyCounts | src/utils/text-analysis.ts:7-11 | The frequency object's counts add up to `wordCount`, count each lower-case key's occurrences, and are positive |
| TextAnalysis.KeywordEntries | src/utils/text-analysis.ts:12-19 | Listed words are distinct words of the text, sorted by count, each with its exact number of occurrences |
| TextAnalysis.KeywordsAreTop | src/utils/text-analysis.ts:18-19 | No word left off the list occurs more often than a listed one |
| TextAnalysis.KeywordDensities | src/utils/text-analysis.ts:16 | Each density is `count / words * 100` exactly |
| TextAnalysis.KeywordDensityFacts | src/utils/text-analysis.ts:12-19 | The report's keyword list: `min(10, uniqueWordCount)` distinct lower-case words sorted by count, with exact counts and densities, and no unlisted word more frequent |
| TextAnalysis.TimeLabelsOfReport | src/utils/text-analysis.ts:36-37 | Both labels say "Less than a minute" exactly when there are no words, and "1 minute" exactly up to one minute's worth |
| TextAnalysis.AnalyzeStrippedText | src/utils/text-analysis.ts:2 | Analysing a text whose tags were already removed gives the same report |
| TextAnalysis.AnalyzeEmpty | src/utils/text-analysis.ts:1-38 | The empty text gives zero counts, no keywords, an empty longest word, zero averages and a `NaN` unique-word percentage |
| TextComparison.CountChanges | src/components/text-comparison.tsx:34-43 | The `forEach` loop totals the lengths of the insertions and of the deletions |
| TextComparison.TaggedLengthZero | src/components/text-comparison.tsx:37-43 | A total is 0 exactly when every entry with that tag is empty |
| TextComparison.UntaggedCountsNothing | src/components/text-comparison.tsx:37-43 | With no insertions nothing is added, and with no deletions nothing is removed |
| TextComparison.NetChange | src/components/text-comparison.tsx:37-47 | The new text is longer than the old one by the inserted characters less the deleted ones |
| TextComparison.CompareTexts | src/components/text-comparison.tsx:26-52 | For a diff of the two texts with tags removed, `characterCountDiff == addedChars - removedChars` |
| TextComparison.ComparisonCounts | src/components/text-comparison.tsx:26-52 | The totals are the insertion and deletion lengths, and the differences are second text minus first in words and tag-free characters |
| TextComparison.CompareWithItself | src/components/text-comparison.tsx:26-52 | A text compared with itself through an all-equal diff shows no difference |
| TextComparison.CatCatsExample | src/components/text-comparison.tsx:37-43 | The diff of "cat" and "cats" adds one character and removes none |
| TextComparison.Classify | src/components/text-comparison.tsx:54-64 | Tag 0 is unchanged and 1 is inserted; every other tag is rendered as deleted |
| TextComparison.RenderFrom | src/components/text-comparison.tsx:54-64 | One span per entry, keyed by position and styled by its tag |
| TextComparison.RenderKeepsText | src/components/text-comparison.tsx:54-64 | The spans show exactly the diff's text, in order |
| TextComparison.LeftViewText | src/components/text-comparison.tsx:177 | The left column's entries spell the first text |
| TextComparison.RightViewText | src/components/text-comparison.tsx:180 | The right column's entries spell the second text |
| TextComparison.SideBySide | src/components/text-comparison.tsx:174-182 | The left column shows the first text and marks nothing as added; the right column shows the second and, for the library's tags, marks nothing as removed |

## Left out

- The diff library (`diff_main`, `diff_cleanupSemantic`) is third-party code. The diff is a parameter of `TextComparison.CompareTexts`, and the lemmas assume only that it reconstructs both texts (`IsDiffOf`).
- Floating point: a finite division result is an exact fraction, not an IEEE double. Rounding of `count / total * 100` and of `Math.ceil` on a double is not modelled; the labels use exact integer ceiling division, which agrees with the double computation for all word counts below 2^40.
- Strings: JavaScript strings are sequences of UTF-16 code units, while a Dafny `char` is a Unicode scalar value. The two agree on every code unit outside the surrogate range U+D800 to U+DFFF. A character beyond U+FFFF (an emoji, say) is one `char` in the model but two code units in JavaScript. So on such text `characterCount`, `characterCountNoSpaces`, `averageCharactersPerWord` and the diff totals `addedChars` and `removedChars` count it once where the program counts it twice, and a diff entry that splits a surrogate pair, or a lone surrogate, cannot be represented. Non-ASCII letters are not lower-cased, because `\w` only admits ASCII and no word can contain them.
- Frequency object: writes to the key `__proto__` and reads of inherited names such as `constructor` behave differently on a plain object. The model treats every word as an ordinary own property.
- I/O and UI: file import and export, React state, the JSX and the rendering of spans as HTML are left out. The rich-text editor, the footer, the page and the presentational `DiffLine` component are not part of this model.
- SplitSentencesKeepsText: fixes only the joined text of the fragments, not where the cuts fall; the cuts are fixed by `Segments.SplitSentencesCuts` and `Segments.SentenceSplitUnique`.
- SplitParagraphsKeepsText: fixes only the non-space characters of the fragments; where the cuts fall, and which whitespace each separator takes, is fixed by `Segments.SplitParagraphsCuts` and `Segments.ParagraphSplitUnique`.
- TextComparison.CatCatsExample: states the example for the diff alone; the report-level counts of that pair follow from `TextComparison.ComparisonCounts` instead of being evaluated on the literals.
