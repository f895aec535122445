/**
 * The e-mail shape check. The server's `validateEmail` and the client form's
 * `validateForm` test the same regular expression, ^[^\s@]+@[^\s@]+\.[^\s@]+$,
 * so the model defines it once and both sides use it.
 */
module Email {
  import opened Text

  /** The character class [^\s@]. */
  predicate IsAtomChar(c: char) {
    !IsWhitespace(c) && c != '@'
  }

  predicate AllAtom(s: string) {
    forall i :: 0 <= i < |s| ==> IsAtomChar(s[i])
  }

  /** The regular expression read literally: three non-empty runs of [^\s@],
      the first two separated by '@' and the last two by '.'. */
  ghost predicate MatchesPattern(s: string) {
    exists at: int, dot: int ::
      && 0 < at && at + 1 < dot && dot + 1 < |s|
      && s[at] == '@' && s[dot] == '.'
      && AllAtom(s[..at]) && AllAtom(s[at + 1..dot]) && AllAtom(s[dot + 1..])
  }

  /** The domain part has a '.' that is neither its first nor its last character. */
  predicate HasInnerDot(domain: string) {
    exists k | 0 < k < |domain| - 1 :: domain[k] == '.'
  }

  /** The check as a scan: no white space, exactly one '@', a non-empty local
      part, and an inner '.' in the domain part. */
  predicate ValidateEmail(s: string)
    ensures ValidateEmail(s) ==> 5 <= |s| && '@' in s && s[0] != '@'
  {
    && NoWhitespace(s)
    && CountOf(s, '@') == 1
    && var at := IndexOf(s, '@');
       0 < at && HasInnerDot(s[at + 1..])
  }

  /** Every character of `s` outside index `at` is in [^\s@]. */
  lemma AtomExcept(s: string, at: int)
    requires 0 <= at < |s| && s[at] == '@' && CountOf(s, '@') == 1 && NoWhitespace(s)
    ensures forall i :: 0 <= i < |s| && i != at ==> IsAtomChar(s[i])
  {
    OnlyOccurrence(s, '@', at);
  }

  lemma SliceAtom(s: string, lo: int, hi: int)
    requires 0 <= lo <= hi <= |s|
    requires forall i :: lo <= i < hi ==> IsAtomChar(s[i])
    ensures AllAtom(s[lo..hi])
  {
    var m := s[lo..hi];
    forall i | 0 <= i < |m| ensures IsAtomChar(m[i]) {
      assert m[i] == s[lo + i];
    }
  }

  lemma ScanImpliesPattern(s: string)
    requires ValidateEmail(s)
    ensures MatchesPattern(s)
  {
    var at := IndexOf(s, '@');
    var d := s[at + 1..];
    var k :| 0 < k < |d| - 1 && d[k] == '.';
    var dot := at + 1 + k;
    AtomExcept(s, at);
    assert s[dot] == '.';
    SliceAtom(s, 0, at);
    SliceAtom(s, at + 1, dot);
    SliceAtom(s, dot + 1, |s|);
    assert s[..at] == s[0..at];
    assert s[dot + 1..] == s[dot + 1..|s|];
  }

  lemma PatternImpliesScan(s: string, at: int, dot: int)
    requires 0 < at && at + 1 < dot && dot + 1 < |s|
    requires s[at] == '@' && s[dot] == '.'
    requires AllAtom(s[..at]) && AllAtom(s[at + 1..dot]) && AllAtom(s[dot + 1..])
    ensures ValidateEmail(s)
  {
    forall i | 0 <= i < |s| && i != at
      ensures IsAtomChar(s[i])
    {
      if i < at {
        assert s[i] == s[..at][i];
      } else if i < dot {
        assert s[i] == s[at + 1..dot][i - at - 1];
      } else if i > dot {
        assert s[i] == s[dot + 1..][i - dot - 1];
      }
    }
    assert NoWhitespace(s);
    assert s == s[..at] + s[at..];
    CountOfConcat(s[..at], s[at..], '@');
    assert s[at..][1..] == s[at + 1..];
    CountOfZero(s[..at], '@');
    CountOfZero(s[at + 1..], '@');
    assert CountOf(s, '@') == 1;
    assert IndexOf(s, '@') == at;
    assert s[at + 1..][dot - at - 1] == '.';
  }

  /** The scan accepts exactly the strings the regular expression matches. */
  lemma ValidateEmailMatchesPattern(s: string)
    ensures ValidateEmail(s) <==> MatchesPattern(s)
  {
    if ValidateEmail(s) {
      ScanImpliesPattern(s);
    }
    if MatchesPattern(s) {
      var at: int, dot: int :|
        && 0 < at && at + 1 < dot && dot + 1 < |s|
        && s[at] == '@' && s[dot] == '.'
        && AllAtom(s[..at]) && AllAtom(s[at + 1..dot]) && AllAtom(s[dot + 1..]);
      PatternImpliesScan(s, at, dot);
    }
  }
}
