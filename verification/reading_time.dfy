/** `calculateReadingTime` and `calculateSpeakingTime`: word counts turned into time labels. */
module ReadingTime {
  import opened Decimal

  const ReadingWordsPerMinute: nat := 200
  const SpeakingWordsPerMinute: nat := 150

  /** `Math.ceil(n / d)`: the least number of whole minutes that covers `n` words at `d` words a minute. */
  function CeilDiv(n: nat, d: nat): (m: nat)
    requires d > 0
    ensures m * d >= n
    ensures m > 0 ==> (m - 1) * d < n
  {
    (n + d - 1) / d
  }

  /** No words take zero minutes, up to one minute's worth takes one, and anything more takes at least two. */
  lemma CeilDivCases(n: nat, d: nat)
    requires d > 0
    ensures CeilDiv(n, d) == 0 <==> n == 0
    ensures CeilDiv(n, d) == 1 <==> 1 <= n <= d
  {
    var m := CeilDiv(n, d);
    if m >= 2 {
      assert (m - 1) * d >= d by {
        assert (m - 1) * d == (m - 2) * d + d;
      }
    }
    if m == 0 {
      assert m * d == 0;
    }
    if m == 1 {
      assert m * d == d;
    }
  }

  const LessThanAMinute: string := "Less than a minute"
  const OneMinute: string := "1 minute"
  const MinutesSuffix: string := " minutes"

  /** The shared body of both label functions, at a rate of `wordsPerMinute`. */
  function TimeLabel(wordCount: nat, wordsPerMinute: nat): string
    requires wordsPerMinute > 0
  {
    var minutes := CeilDiv(wordCount, wordsPerMinute);
    if minutes < 1 then LessThanAMinute
    else if minutes == 1 then OneMinute
    else NatToString(minutes) + MinutesSuffix
  }

  function CalculateReadingTime(wordCount: nat): string
  {
    TimeLabel(wordCount, ReadingWordsPerMinute)
  }

  function CalculateSpeakingTime(wordCount: nat): string
  {
    TimeLabel(wordCount, SpeakingWordsPerMinute)
  }

  /**
   * The three label forms: no words read in less than a minute, up to one
   * minute's worth reads in one minute, and more reads as the number of
   * whole minutes (at least two) followed by " minutes".
   */
  lemma TimeLabelCases(n: nat, rate: nat)
    requires rate > 0
    ensures TimeLabel(n, rate) == LessThanAMinute <==> n == 0
    ensures TimeLabel(n, rate) == OneMinute <==> 1 <= n <= rate
    ensures n > rate ==> CeilDiv(n, rate) >= 2 && TimeLabel(n, rate) == NatToString(CeilDiv(n, rate)) + MinutesSuffix
  {
    var m := CeilDiv(n, rate);
    CeilDivCases(n, rate);
    if n > rate {
      var shown := NatToString(m) + MinutesSuffix;
      assert shown[0] != LessThanAMinute[0];
      assert |shown| > |OneMinute|;
    }
  }

  /** A label of several minutes reads back: its leading digits are the number of minutes. */
  lemma TimeLabelReadsBack(n: nat, rate: nat)
    requires rate > 0 && n > rate
    ensures var shown := TimeLabel(n, rate);
            var digits := shown[..|shown| - |MinutesSuffix|];
            && |shown| > |MinutesSuffix|
            && shown[|shown| - |MinutesSuffix|..] == MinutesSuffix
            && AllDigits(digits)
            && DecimalValue(digits) == CeilDiv(n, rate)
  {
    var m := CeilDiv(n, rate);
    TimeLabelCases(n, rate);
    var shown := NatToString(m) + MinutesSuffix;
    assert shown[..|shown| - |MinutesSuffix|] == NatToString(m);
    assert shown[|shown| - |MinutesSuffix|..] == MinutesSuffix;
    NatToStringRoundTrip(m);
  }

  /** 500 words read in three minutes; 150 words read in one and are spoken in one; nothing takes less than a minute. */
  lemma TimeLabelExamples()
    ensures CalculateReadingTime(500) == "3 minutes"
    ensures CalculateReadingTime(150) == "1 minute"
    ensures CalculateSpeakingTime(150) == "1 minute"
    ensures CalculateSpeakingTime(151) == "2 minutes"
    ensures CalculateReadingTime(0) == "Less than a minute"
  {
    assert NatToString(3) == "3";
    assert NatToString(2) == "2";
  }
}
