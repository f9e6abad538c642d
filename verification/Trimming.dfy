/** What the text helpers of the asset parser take off a string, exactly. */
module Trimming {
  import opened Symbol
  import opened Asset

  predicate AllSpace(s: string) {
    forall i :: 0 <= i < |s| ==> IsSpace(s[i])
  }

  /** Tab, line feed, vertical tab, form feed, carriage return and space. */
  lemma SpaceCharacters(c: char)
    ensures IsSpace(c) <==> c as int in {9, 10, 11, 12, 13, 32}
  {
  }

  /** Neither end is white space. */
  predicate Trimmed(s: string) {
    s == "" || (!IsSpace(s[0]) && !IsSpace(s[|s| - 1]))
  }

  lemma {:induction false} TrimLeftOff(pre: string, s: string)
    requires AllSpace(pre) && (s == "" || !IsSpace(s[0]))
    ensures TrimLeft(pre + s) == s
  {
    if pre == "" {
      assert pre + s == s;
    } else {
      assert (pre + s)[1..] == pre[1..] + s;
      TrimLeftOff(pre[1..], s);
    }
  }

  lemma {:induction false} TrimRightOff(s: string, post: string)
    requires AllSpace(post) && (s == "" || !IsSpace(s[|s| - 1]))
    ensures TrimRight(s + post) == s
  {
    if post == "" {
      assert s + post == s;
    } else {
      assert (s + post)[..|s + post| - 1] == s + post[..|post| - 1];
      TrimRightOff(s, post[..|post| - 1]);
    }
  }

  /** White space around a text without white space at its ends comes off, all of it. */
  lemma TrimTakesOff(pre: string, s: string, post: string)
    requires AllSpace(pre) && AllSpace(post) && Trimmed(s)
    ensures Trim(pre + s + post) == s
  {
    if s == "" {
      assert pre + s + post == (pre + post) + "";
      TrimLeftOff(pre + post, "");
    } else {
      assert pre + s + post == pre + (s + post);
      TrimLeftOff(pre, s + post);
      TrimRightOff(s, post);
    }
  }

  /** Nothing else comes off: what is left, with white space around it, is the whole text. */
  lemma TrimLeaves(s: string) returns (pre: string, post: string)
    ensures s == pre + Trim(s) + post && AllSpace(pre) && AllSpace(post) && Trimmed(Trim(s))
  {
    var i := 0;
    while i < |s| && IsSpace(s[i])
      invariant i <= |s| && AllSpace(s[..i])
    {
      assert s[..i + 1] == s[..i] + [s[i]];
      i := i + 1;
    }
    var j := |s|;
    while i < j && IsSpace(s[j - 1])
      invariant i <= j <= |s| && AllSpace(s[j..]) && (i < |s| ==> !IsSpace(s[i]))
    {
      assert s[j - 1..] == [s[j - 1]] + s[j..];
      j := j - 1;
    }
    pre, post := s[..i], s[j..];
    assert s == pre + s[i..j] + post;
    TrimTakesOff(pre, s[i..j], post);
  }

  /** The text up to its first null character, or all of it if there is none, is `shown`. */
  predicate Shows(s: string, shown: string) {
    '\0' !in shown && (s == shown || shown + ['\0'] <= s)
  }

  lemma {:induction false} CStringShows(s: string)
    ensures Shows(s, CString(s))
  {
    if s != "" && s[0] != '\0' {
      CStringShows(s[1..]);
      assert s == [s[0]] + s[1..];
    }
  }

  lemma {:induction false} ShownIsUnique(s: string, shown: string)
    requires Shows(s, shown)
    ensures shown == CString(s)
  {
    if s != "" && s[0] != '\0' {
      if shown != s { assert (shown + ['\0'])[0] == s[0]; }
      assert shown != "" && shown[0] == s[0];
      if shown != s {
        assert (shown + ['\0'])[1..] == shown[1..] + ['\0'];
        assert shown[1..] + ['\0'] <= s[1..];
      }
      ShownIsUnique(s[1..], shown[1..]);
    }
  }

  /** `c_str` cuts at the first null character. */
  lemma CStringExactly(s: string, shown: string)
    ensures CString(s) == shown <==> Shows(s, shown)
  {
    CStringShows(s);
    if Shows(s, shown) { ShownIsUnique(s, shown); }
  }
}
