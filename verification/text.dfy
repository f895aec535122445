/**
 * String helpers with JavaScript semantics: the white-space class shared by the
 * regular-expression escape `\s` and `String.prototype.trim`, trimming,
 * lower-casing, counting and searching for a character, prefixes and substrings.
 */
module Text {

  /** White space as ECMAScript defines it for `\s` and `trim`: the WhiteSpace
      and LineTerminator code points. */
  predicate IsWhitespace(c: char) {
    var n := c as int;
    n == 0x09 || n == 0x0A || n == 0x0B || n == 0x0C || n == 0x0D || n == 0x20
    || n == 0xA0 || n == 0x1680 || (0x2000 <= n <= 0x200A) || n == 0x2028
    || n == 0x2029 || n == 0x202F || n == 0x205F || n == 0x3000 || n == 0xFEFF
  }

  predicate AllWhitespace(s: string) {
    forall i :: 0 <= i < |s| ==> IsWhitespace(s[i])
  }

  predicate NoWhitespace(s: string) {
    forall i :: 0 <= i < |s| ==> !IsWhitespace(s[i])
  }

  /** Drops leading white space: the result is a suffix of `s`, everything
      dropped is white space, and the result does not start with white space. */
  function TrimStart(s: string): (r: string)
    ensures |r| <= |s| && r == s[|s| - |r|..]
    ensures AllWhitespace(s[..|s| - |r|])
    ensures |r| > 0 ==> !IsWhitespace(r[0])
  {
    if |s| > 0 && IsWhitespace(s[0]) then
      var r := TrimStart(s[1..]);
      TrimStartStep(s, r);
      r
    else
      s
  }

  /** One step of `TrimStart`: a white-space character in front of what the
      rest trims to is dropped too. */
  lemma TrimStartStep(s: string, r: string)
    requires |s| > 0 && IsWhitespace(s[0]) && |r| <= |s| - 1
    requires r == s[1..][|s| - 1 - |r|..] && AllWhitespace(s[1..][..|s| - 1 - |r|])
    ensures r == s[|s| - |r|..] && AllWhitespace(s[..|s| - |r|])
  {
    var k := |s| - |r|;
    forall i | 0 <= i < k ensures IsWhitespace(s[i]) {
      if i > 0 {
        assert s[i] == s[1..][..k - 1][i - 1];
      }
    }
  }

  /** Drops trailing white space: the result is a prefix of `s`, everything
      dropped is white space, and the result does not end with white space. */
  function TrimEnd(s: string): (r: string)
    ensures |r| <= |s| && r == s[..|r|]
    ensures AllWhitespace(s[|r|..])
    ensures |r| > 0 ==> !IsWhitespace(r[|r| - 1])
  {
    if |s| > 0 && IsWhitespace(s[|s| - 1]) then
      var r := TrimEnd(s[..|s| - 1]);
      assert s[|r|..] == s[..|s| - 1][|r|..] + [s[|s| - 1]];
      r
    else
      s
  }

  /** `String.prototype.trim`. */
  function Trim(s: string): string {
    TrimEnd(TrimStart(s))
  }

  /** Trimming leaves nothing exactly when the string is white space only. */
  lemma TrimEmptyIff(s: string)
    ensures Trim(s) == [] <==> AllWhitespace(s)
  {
    var t := TrimStart(s);
    if Trim(s) == [] {
      assert AllWhitespace(t[0..]);
      assert |t| == 0;
      assert s[..|s|] == s;
    }
    if |t| > 0 {
      assert t[0] == s[|s| - |t|];
    }
  }

  /** ASCII lower-casing of one character. */
  function LowerChar(c: char): char {
    if 'A' <= c <= 'Z' then (c as int + 32) as char else c
  }

  /** `String.prototype.toLowerCase`, restricted to ASCII letters. */
  function ToLower(s: string): (r: string)
    ensures |r| == |s|
    ensures forall i :: 0 <= i < |s| ==> r[i] == LowerChar(s[i])
  {
    seq(|s|, i requires 0 <= i < |s| => LowerChar(s[i]))
  }

  lemma ToLowerSlice(s: string, i: int, j: int)
    requires 0 <= i <= j <= |s|
    ensures ToLower(s[i..j]) == ToLower(s)[i..j]
  {
  }

  /** Number of occurrences of `c` in `s`. */
  function CountOf(s: string, c: char): (n: nat)
    ensures n == 0 <==> c !in s
  {
    if |s| == 0 then 0 else (if s[0] == c then 1 else 0) + CountOf(s[1..], c)
  }

  lemma {:induction false} CountOfConcat(a: string, b: string, c: char)
    ensures CountOf(a + b, c) == CountOf(a, c) + CountOf(b, c)
  {
    if |a| > 0 {
      assert (a + b)[0] == a[0];
      assert (a + b)[1..] == a[1..] + b;
      CountOfConcat(a[1..], b, c);
    } else {
      assert a + b == b;
    }
  }

  lemma {:induction false} CountOfZero(s: string, c: char)
    ensures CountOf(s, c) == 0 <==> forall i :: 0 <= i < |s| ==> s[i] != c
  {
    if |s| > 0 {
      CountOfZero(s[1..], c);
      assert forall i :: 1 <= i < |s| ==> s[i] == s[1..][i - 1];
    }
  }

  /** A character counted exactly once occurs at no other index. */
  lemma OnlyOccurrence(s: string, c: char, at: int)
    requires 0 <= at < |s| && s[at] == c && CountOf(s, c) == 1
    ensures forall j :: 0 <= j < |s| && j != at ==> s[j] != c
  {
    assert s == s[..at] + s[at..];
    CountOfConcat(s[..at], s[at..], c);
    assert s[at..][1..] == s[at + 1..];
    CountOfZero(s[..at], c);
    CountOfZero(s[at + 1..], c);
    forall j | 0 <= j < |s| && j != at
      ensures s[j] != c
    {
      if j < at {
        assert s[j] == s[..at][j];
      } else {
        assert s[j] == s[at + 1..][j - at - 1];
      }
    }
  }

  /** Index of the first occurrence of `c` in `s`. */
  function IndexOf(s: string, c: char): (k: nat)
    requires c in s
    ensures k < |s| && s[k] == c
    ensures forall j :: 0 <= j < k ==> s[j] != c
  {
    if s[0] == c then 0 else 1 + IndexOf(s[1..], c)
  }

  predicate StartsWith(s: string, prefix: string) {
    |prefix| <= |s| && s[..|prefix|] == prefix
  }

  predicate EndsWith(s: string, suffix: string) {
    |suffix| <= |s| && s[|s| - |suffix|..] == suffix
  }

  /** `t` occurs in `s` starting at index `i`. */
  predicate OccursAt(s: string, t: string, i: int) {
    0 <= i <= |s| - |t| && s[i..i + |t|] == t
  }

  /** `String.prototype.includes`. */
  predicate Contains(s: string, t: string) {
    exists i | 0 <= i <= |s| - |t| :: OccursAt(s, t, i)
  }

  lemma StartsWithContains(s: string, t: string)
    requires StartsWith(s, t)
    ensures Contains(s, t)
  {
    assert OccursAt(s, t, 0);
  }

  /** No carriage return and no line feed. */
  predicate NoLineBreak(s: string) {
    forall i :: 0 <= i < |s| ==> s[i] != '\r' && s[i] != '\n'
  }

  /** Bytes one character takes in UTF-8. */
  function Utf8Width(c: char): nat {
    var n := c as int;
    if n < 0x80 then 1 else if n < 0x800 then 2 else if n < 0x10000 then 3 else 4
  }

  /** Length in bytes of the UTF-8 encoding of `s`: one byte per character
      exactly when every character is ASCII, and never more than four. */
  function Utf8Length(s: string): (n: nat)
    ensures |s| <= n <= 4 * |s|
    ensures n == |s| <==> forall i :: 0 <= i < |s| ==> s[i] as int < 0x80
  {
    if |s| == 0 then 0
    else
      assert forall i :: 1 <= i < |s| ==> s[i] == s[1..][i - 1];
      Utf8Width(s[0]) + Utf8Length(s[1..])
  }

  /** A text not holding the first character of `t` does not contain `t`. */
  lemma NotContainsFirst(s: string, t: string)
    requires |t| > 0 && t[0] !in s
    ensures !Contains(s, t)
  {
    forall i | 0 <= i <= |s| - |t|
      ensures !OccursAt(s, t, i)
    {
      assert s[i] in s;
      assert s[i..i + |t|][0] == s[i];
    }
  }
}
