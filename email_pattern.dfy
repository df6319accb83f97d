/**
 * The address check of handlePasswordReset in src/pages/SignIn.jsx: the
 * regular expression ^[^\s@]+@[^\s@]+\.[^\s@]+$ tested against the text the
 * user typed. PatternLanguage reads the language off the pattern; Test is
 * the check by splitting at the first '@'; the two are proved equal.
 */
module EmailPattern {
  import opened Wrappers

  /** The class \s of JavaScript regular expressions: ECMAScript white space and line terminators. */
  predicate IsSpace(c: char)
  {
    c == '\t' || c == '\n' || c == '\U{000B}' || c == '\U{000C}' || c == '\r' || c == ' ' ||
    c == '\U{00A0}' || c == '\U{1680}' || ('\U{2000}' <= c <= '\U{200A}') ||
    c == '\U{2028}' || c == '\U{2029}' || c == '\U{202F}' || c == '\U{205F}' ||
    c == '\U{3000}' || c == '\U{FEFF}'
  }

  /** One character of the class [^\s@]. */
  predicate WordChar(c: char)
  {
    !IsSpace(c) && c != '@'
  }

  /** Every character of s is in [^\s@]. */
  predicate AllWordChars(s: string)
  {
    forall k :: 0 <= k < |s| ==> WordChar(s[k])
  }

  /** s matches [^\s@]+. */
  predicate Run(s: string)
  {
    |s| > 0 && AllWordChars(s)
  }

  /** s matches the whole pattern with the literal '@' at index i and the literal '.' at index j. */
  predicate MatchAt(s: string, i: nat, j: nat)
  {
    i < j < |s| && s[i] == '@' && s[j] == '.' &&
    Run(s[..i]) && Run(s[i + 1..j]) && Run(s[j + 1..])
  }

  /** The language of ^[^\s@]+@[^\s@]+\.[^\s@]+$. */
  ghost predicate PatternLanguage(s: string)
  {
    exists i: nat, j: nat :: MatchAt(s, i, j)
  }

  /** The index of the first occurrence of c in s, if any. */
  function IndexOf(s: string, c: char): (r: Option<nat>)
    ensures r.Some? ==> r.value < |s| && s[r.value] == c &&
                        forall k :: 0 <= k < r.value ==> s[k] != c
    ensures r.None? ==> forall k :: 0 <= k < |s| ==> s[k] != c
  {
    if s == [] then None
    else if s[0] == c then Some(0)
    else match IndexOf(s[1..], c)
      case None => None
      case Some(k) => Some(k + 1)
  }

  /** The domain holds a '.' that is neither its first nor its last character. */
  predicate HasInnerDot(domain: string)
  {
    exists k :: 0 < k < |domain| - 1 && domain[k] == '.'
  }

  /**
   * emailPattern.test(s): split at the first '@'; the part before it is
   * non-empty, neither part holds white space or another '@', and the part
   * after it has an inner '.'.
   */
  predicate Test(s: string)
  {
    match IndexOf(s, '@')
    case None => false
    case Some(i) => 0 < i && AllWordChars(s[..i]) && AllWordChars(s[i + 1..]) && HasInnerDot(s[i + 1..])
  }

  /** Number of occurrences of c in s. */
  function Count(s: string, c: char): (n: nat)
    ensures n <= |s|
    ensures n == 0 <==> forall k :: 0 <= k < |s| ==> s[k] != c
  {
    if s == [] then 0 else (if s[0] == c then 1 else 0) + Count(s[1..], c)
  }

  lemma {:induction false} CountAppend(a: string, b: string, c: char)
    ensures Count(a + b, c) == Count(a, c) + Count(b, c)
    decreases |a|
  {
    if a == [] {
      assert a + b == b;
    } else {
      assert (a + b)[1..] == a[1..] + b;
      CountAppend(a[1..], b, c);
    }
  }

  /** What the check accepts is exactly the language of the pattern. */
  lemma TestIsPattern(s: string)
    ensures Test(s) <==> PatternLanguage(s)
  {
    if Test(s) {
      var i := IndexOf(s, '@').value;
      var domain := s[i + 1..];
      var k :| 0 < k < |domain| - 1 && domain[k] == '.';
      var j := i + 1 + k;
      assert s[i + 1..j] == domain[..k];
      assert s[j + 1..] == domain[k + 1..];
      assert MatchAt(s, i, j);
    }
    if PatternLanguage(s) {
      var i: nat, j: nat :| MatchAt(s, i, j);
      assert forall k :: 0 <= k < i ==> s[k] == s[..i][k];
      var r := IndexOf(s, '@');
      assert r == Some(i);
      var domain := s[i + 1..];
      assert domain == s[i + 1..j] + [s[j]] + s[j + 1..];
      assert domain[j - i - 1] == '.';
      assert HasInnerDot(domain);
      assert AllWordChars(domain);
    }
  }

  /** A slice consists of word characters exactly when each of its positions in s does. */
  lemma SliceWordChars(s: string, lo: nat, hi: nat)
    requires lo <= hi <= |s|
    ensures AllWordChars(s[lo..hi]) <==> forall k :: lo <= k < hi ==> WordChar(s[k])
  {
    assert forall k :: lo <= k < hi ==> s[lo..hi][k - lo] == s[k];
  }

  /** Splitting s around index i: the '@' count adds up over the two sides. */
  lemma CountAround(s: string, i: nat, c: char)
    requires i < |s|
    ensures Count(s, c) == Count(s[..i], c) + (if s[i] == c then 1 else 0) + Count(s[i + 1..], c)
  {
    assert s == s[..i] + [s[i]] + s[i + 1..];
    CountAppend(s[..i] + [s[i]], s[i + 1..], c);
    CountAppend(s[..i], [s[i]], c);
  }

  /** An accepted address holds exactly one '@' and no white space. */
  lemma AcceptedHasOneAtNoSpace(s: string)
    requires Test(s)
    ensures Count(s, '@') == 1
    ensures forall k :: 0 <= k < |s| ==> !IsSpace(s[k])
  {
    var i := IndexOf(s, '@').value;
    var before, after := s[..i], s[i + 1..];
    assert AllWordChars(before) && AllWordChars(after);
    assert Count(before, '@') == 0 && Count(after, '@') == 0;
    CountAround(s, i, '@');
    forall k | 0 <= k < |s|
      ensures !IsSpace(s[k])
    {
      if k < i {
        assert s[k] == before[k] && WordChar(before[k]);
      } else if k > i {
        assert s[k] == after[k - i - 1] && WordChar(after[k - i - 1]);
      }
    }
  }

  /**
   * For the text around its one '@': an address is accepted exactly when
   * the part before the '@' is non-empty and the part after it has a '.'
   * that is neither its first nor its last character.
   */
  lemma AcceptedIffParts(s: string, i: nat)
    requires i < |s| && s[i] == '@' && Count(s, '@') == 1
    requires forall k :: 0 <= k < |s| ==> !IsSpace(s[k])
    ensures Test(s) <==> 0 < i && HasInnerDot(s[i + 1..])
  {
    CountAround(s, i, '@');
    assert forall k :: 0 <= k < i ==> s[..i][k] == s[k];
    assert forall k :: i < k < |s| ==> s[i + 1..][k - i - 1] == s[k];
    assert IndexOf(s, '@') == Some(i);
    SliceWordChars(s, 0, i);
    SliceWordChars(s, i + 1, |s|);
    assert s[..i] == s[0..i] && s[i + 1..] == s[i + 1..|s|];
  }

  /** A cancelled prompt gives null, which the test reads as the text "null": rejected. */
  lemma CancelledPromptRejected()
    ensures !Test("null")
  {
    assert forall k :: 0 <= k < |"null"| ==> "null"[k] != '@';
  }

  /** A few inputs, each checked against the pattern. */
  lemma Examples()
    ensures Test("a@b.c")
    ensures !Test("a@b") && !Test("@b.c") && !Test("a@.c") && !Test("a@b.") && !Test("a @b.c")
  {
    assert Test("a@b.c") by {
      assert MatchAt("a@b.c", 1, 3);
      TestIsPattern("a@b.c");
    }
    assert !Test("a@b") by {
      assert IndexOf("a@b", '@') == Some(1);
      assert "a@b"[2..] == "b";
    }
    assert !Test("@b.c") by {
      assert IndexOf("@b.c", '@') == Some(0);
    }
    assert !Test("a@.c") by {
      assert IndexOf("a@.c", '@') == Some(1);
      assert "a@.c"[2..] == ".c";
    }
    assert !Test("a@b.") by {
      assert IndexOf("a@b.", '@') == Some(1);
      assert "a@b."[2..] == "b.";
    }
    assert !Test("a @b.c") by {
      assert IndexOf("a @b.c", '@') == Some(2);
      assert "a @b.c"[..2][1] == ' ';
    }
  }
}
