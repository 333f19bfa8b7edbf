/**
 * Character classes used by the regular expressions of the text analysis.
 * A JavaScript string is a sequence of UTF-16 code units; here it is a
 * sequence of `char`s, which agree with code units outside the surrogate
 * range; a character beyond U+FFFF is one `char` but two code units.
 */
module Chars {

  /** `\w` in a JavaScript regular expression without the `u` flag: ASCII letters, digits and `_`. */
  predicate IsWordChar(c: char)
  {
    ('A' <= c <= 'Z') || ('a' <= c <= 'z') || ('0' <= c <= '9') || c == '_'
  }

  /** A member of the class `[\w']`. */
  predicate IsTokenChar(c: char)
  {
    IsWordChar(c) || c == '\''
  }

  predicate IsDigit(c: char)
  {
    '0' <= c <= '9'
  }

  /**
   * JavaScript's `\s`, which is also the set `String.prototype.trim` removes:
   * the WhiteSpace and LineTerminator code points of ECMAScript.
   */
  predicate IsSpace(c: char)
  {
    || c == '\t' || c == '\n' || c == '\U{000B}' || c == '\U{000C}' || c == '\r' || c == ' '
    || c == '\U{00A0}' || c == '\U{1680}' || ('\U{2000}' <= c <= '\U{200A}')
    || c == '\U{2028}' || c == '\U{2029}' || c == '\U{202F}' || c == '\U{205F}'
    || c == '\U{3000}' || c == '\U{FEFF}'
  }

  predicate IsNotSpace(c: char)
  {
    !IsSpace(c)
  }

  /** A member of the class `[.!?]` that ends a sentence. */
  predicate IsSentenceEnd(c: char)
  {
    c == '.' || c == '!' || c == '?'
  }

  predicate IsNotSentenceEnd(c: char)
  {
    !IsSentenceEnd(c)
  }

  /** `s` holds only whitespace, so trimming it leaves nothing. */
  predicate IsBlank(s: string)
  {
    forall i :: 0 <= i < |s| ==> IsSpace(s[i])
  }

  predicate IsNotBlank(s: string)
  {
    !IsBlank(s)
  }

  /** No upper-case ASCII letter. */
  predicate IsLowerCase(w: string)
  {
    forall k :: 0 <= k < |w| ==> !('A' <= w[k] <= 'Z')
  }

  /** `a` and `b` are the same character, or the same ASCII letter in the two cases. */
  predicate SameIgnoringCase(a: char, b: char)
  {
    || a == b
    || ('A' <= a <= 'Z' && b as int == a as int + 32)
    || ('A' <= b <= 'Z' && a as int == b as int + 32)
  }

  /** `s` and `t` spell the same word up to ASCII case. */
  predicate EqualIgnoringCase(s: string, t: string)
  {
    |s| == |t| && forall i :: 0 <= i < |s| ==> SameIgnoringCase(s[i], t[i])
  }

  /** `toLowerCase` restricted to ASCII, which is all a word token can contain. */
  function ToLower(c: char): (r: char)
    ensures !('A' <= r <= 'Z')
    ensures 'A' <= c <= 'Z' ==> r as int == c as int + 32
    ensures !('A' <= c <= 'Z') ==> r == c
    ensures IsWordChar(c) <==> IsWordChar(r)
  {
    if 'A' <= c <= 'Z' then (c as int + 32) as char else c
  }

  /** Two characters lower-case to the same character exactly when they differ at most in case. */
  lemma ToLowerSameIff(a: char, b: char)
    ensures ToLower(a) == ToLower(b) <==> SameIgnoringCase(a, b)
  {
  }

  /**
   * `toLowerCase` of a word: a lower-case spelling of the same word, so the
   * only result that is both lower-case and equal to `s` up to case.
   */
  function Lower(s: string): (r: string)
    ensures IsLowerCase(r)
    ensures EqualIgnoringCase(s, r)
    ensures IsLowerCase(s) ==> r == s
  {
    seq(|s|, i requires 0 <= i < |s| => ToLower(s[i]))
  }

  /** Lower-casing is determined by the word up to case: it is the unique lower-case variant. */
  lemma LowerUnique(s: string, r: string)
    requires IsLowerCase(r) && EqualIgnoringCase(s, r)
    ensures Lower(s) == r
  {
    forall i | 0 <= i < |s|
      ensures Lower(s)[i] == r[i]
    {
      assert SameIgnoringCase(s[i], r[i]);
    }
  }

  /** Two words have the same lower-case form exactly when they are equal up to ASCII case. */
  lemma LowerEqualIff(s: string, t: string)
    ensures Lower(s) == Lower(t) <==> EqualIgnoringCase(s, t)
  {
    if Lower(s) == Lower(t) {
      forall i | 0 <= i < |s|
        ensures SameIgnoringCase(s[i], t[i])
      {
        assert Lower(s)[i] == Lower(t)[i];
        ToLowerSameIff(s[i], t[i]);
      }
    }
    if EqualIgnoringCase(s, t) {
      forall i | 0 <= i < |s|
        ensures Lower(s)[i] == Lower(t)[i]
      {
        ToLowerSameIff(s[i], t[i]);
      }
    }
  }
}
