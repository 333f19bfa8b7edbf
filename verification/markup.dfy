/**
 * Removal of markup tags: every match of `/<[^>]*>/g` is deleted.
 *
 * The regular expression matches a `<` together with everything up to and
 * including the first `>` after it; a `<` with no later `>` does not match
 * and is kept.
 */
module Markup {

  import opened Basics

  function StripTags(s: string): (r: string)
    ensures |r| <= |s|
    ensures forall c :: c in r ==> c in s
    ensures '<' !in s ==> r == s
    decreases |s|
  {
    if |s| == 0 then ""
    else if s[0] == '<' && '>' in s[1..] then
      StripTags(s[1..][FirstIndex(s[1..], '>') + 1..])
    else
      [s[0]] + StripTags(s[1..])
  }

  /** No `<` is followed, anywhere later, by a `>`: the tag pattern has nothing left to match. */
  predicate TagFree(s: string)
  {
    forall i, j :: 0 <= i < j < |s| && s[i] == '<' ==> s[j] != '>'
  }

  lemma {:induction false} StripTagsIsTagFree(s: string)
    ensures TagFree(StripTags(s))
    decreases |s|
  {
    if |s| == 0 {
    } else if s[0] == '<' && '>' in s[1..] {
      StripTagsIsTagFree(s[1..][FirstIndex(s[1..], '>') + 1..]);
    } else {
      StripTagsIsTagFree(s[1..]);
      assert StripTags(s) == [s[0]] + StripTags(s[1..]);
      ConsTagFree(s[0], StripTags(s[1..]));
    }
  }

  /** Putting a character in front of tag-free text keeps it tag-free unless it opens a tag the text closes. */
  lemma ConsTagFree(c: char, rest: string)
    requires TagFree(rest)
    requires c == '<' ==> '>' !in rest
    ensures TagFree([c] + rest)
  {
    var r := [c] + rest;
    forall i, j | 0 <= i < j < |r| && r[i] == '<'
      ensures r[j] != '>'
    {
      assert r[j] == rest[j - 1];
      if i > 0 {
        assert r[i] == rest[i - 1];
      }
    }
  }

  /** Text the pattern cannot match is returned unchanged. */
  lemma {:induction false} StripTagsKeepsTagFree(s: string)
    requires TagFree(s)
    ensures StripTags(s) == s
    decreases |s|
  {
    if |s| > 0 {
      var rest := s[1..];
      assert s[0] == '<' ==> '>' !in rest by {
        if s[0] == '<' {
          forall k | 0 <= k < |rest|
            ensures rest[k] != '>'
          {
            assert rest[k] == s[k + 1];
          }
        }
      }
      assert TagFree(rest) by {
        forall i, j | 0 <= i < j < |rest| && rest[i] == '<'
          ensures rest[j] != '>'
        {
          assert rest[i] == s[i + 1] && rest[j] == s[j + 1];
        }
      }
      StripTagsKeepsTagFree(rest);
    }
  }

  /** Stripping twice is the same as stripping once. */
  lemma {:induction false} StripTagsIdempotent(s: string)
    ensures StripTags(StripTags(s)) == StripTags(s)
  {
    StripTagsIsTagFree(s);
    StripTagsKeepsTagFree(StripTags(s));
  }

  /** The first `>` of `t + ">" + b`, when `t` has none, is the one after `t`. */
  lemma FirstCloseAfter(t: string, b: string)
    requires '>' !in t
    ensures FirstIndex(t + ">" + b, '>') == |t|
  {
    var u := t + ">" + b;
    assert forall k | 0 <= k < |t| :: u[k] == t[k];
    assert u[|t|] == '>';
  }

  /** A tag at the very front is deleted, brackets included. */
  lemma StripTagsTagFirst(t: string, b: string)
    requires '>' !in t
    ensures StripTags("<" + t + ">" + b) == StripTags(b)
  {
    var s := "<" + t + ">" + b;
    var u := t + ">" + b;
    assert s[1..] == u;
    FirstCloseAfter(t, b);
    assert u[|t|] == '>';
    assert u[|t| + 1..] == b;
  }

  /** Text with no `<` in front of the rest survives stripping unchanged. */
  lemma {:induction false} StripTagsPlainPrefix(a: string, w: string)
    requires '<' !in a
    ensures StripTags(a + w) == a + StripTags(w)
    decreases |a|
  {
    if |a| > 0 {
      assert (a + w)[0] == a[0];
      assert (a + w)[1..] == a[1..] + w;
      StripTagsPlainPrefix(a[1..], w);
      assert a == [a[0]] + a[1..];
    } else {
      assert a + w == w;
    }
  }

  /**
   * A tag is removed together with its brackets, and the text around it
   * survives: with no `<` in `a` and no `>` in `t`, the tag `<t>` after `a`
   * is deleted and stripping carries on after it.
   */
  lemma StripTagsRemovesTag(a: string, t: string, b: string)
    requires '<' !in a && '>' !in t
    ensures StripTags(a + "<" + t + ">" + b) == a + StripTags(b)
  {
    var w := "<" + t + ">" + b;
    assert a + "<" + t + ">" + b == a + w;
    StripTagsPlainPrefix(a, w);
    StripTagsTagFirst(t, b);
  }
}
