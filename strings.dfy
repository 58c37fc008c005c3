/**
 * Python's `str.strip()` without arguments, as applied to every manufacturer
 * name after it is converted to text.
 */
module Strings {

  /** Python's `str.isspace` for one character: the characters `strip()` removes. */
  predicate IsSpace(c: char) {
    || c == ' '
    || ('\t' <= c <= '\r')
    || ('\U{1C}' <= c <= '\U{1F}')
    || c == '\U{85}' || c == '\U{A0}' || c == '\U{1680}'
    || ('\U{2000}' <= c <= '\U{200A}')
    || c == '\U{2028}' || c == '\U{2029}' || c == '\U{202F}' || c == '\U{205F}' || c == '\U{3000}'
  }

  predicate AllSpace(s: string) {
    forall i :: 0 <= i < |s| ==> IsSpace(s[i])
  }

  /** Neither the first nor the last character is whitespace. */
  predicate NoEdgeSpace(s: string) {
    |s| == 0 || (!IsSpace(s[0]) && !IsSpace(s[|s| - 1]))
  }

  function TrimStart(s: string): string {
    if |s| > 0 && IsSpace(s[0]) then TrimStart(s[1..]) else s
  }

  function TrimEnd(s: string): string {
    if |s| > 0 && IsSpace(s[|s| - 1]) then TrimEnd(s[..|s| - 1]) else s
  }

  function Strip(s: string): string {
    TrimEnd(TrimStart(s))
  }

  /** TrimStart drops exactly the leading run of whitespace. */
  lemma {:induction false} TrimStartDropsLeadingRun(s: string) returns (n: nat)
    ensures n <= |s| && TrimStart(s) == s[n..] && AllSpace(s[..n]) && (n < |s| ==> !IsSpace(s[n]))
  {
    if |s| > 0 && IsSpace(s[0]) {
      var i := TrimStartDropsLeadingRun(s[1..]);
      assert s[1..][i..] == s[i + 1..];
      var head := s[..i + 1];
      assert head == [s[0]] + s[1..][..i];
      assert AllSpace(head);
      n := i + 1;
    } else {
      n := 0;
    }
  }

  /** TrimEnd drops exactly the trailing run of whitespace. */
  lemma {:induction false} TrimEndDropsTrailingRun(s: string) returns (n: nat)
    ensures n <= |s| && TrimEnd(s) == s[..n] && AllSpace(s[n..]) && (n > 0 ==> !IsSpace(s[n - 1]))
  {
    if |s| > 0 && IsSpace(s[|s| - 1]) {
      var t := s[..|s| - 1];
      var j := TrimEndDropsTrailingRun(t);
      assert t[..j] == s[..j];
      assert AllSpace(s[j..]) by {
        forall k | 0 <= k < |s[j..]| ensures IsSpace(s[j..][k]) {
          if k < |t[j..]| { assert s[j..][k] == t[j..][k]; }
        }
      }
      n := j;
    } else {
      n := |s|;
    }
  }

  /**
   * strip() keeps one contiguous slice of its input, unchanged: everything
   * before it and after it is whitespace, and the slice itself neither starts
   * nor ends with whitespace.
   */
  lemma StripKeepsInterior(s: string)
    ensures exists i, j :: 0 <= i <= j <= |s| && Strip(s) == s[i..j]
              && AllSpace(s[..i]) && AllSpace(s[j..]) && NoEdgeSpace(s[i..j])
  {
    var i := TrimStartDropsLeadingRun(s);
    var t := s[i..];
    var j := TrimEndDropsTrailingRun(t);
    var core := s[i..i + j];
    assert t[..j] == core;
    var tail := s[i + j..];
    assert tail == t[j..];
    assert Strip(s) == core;
    assert NoEdgeSpace(core) by {
      if j > 0 { assert core[0] == s[i] && core[j - 1] == t[j - 1]; }
    }
    assert 0 <= i <= i + j <= |s| && Strip(s) == s[i..i + j]
      && AllSpace(s[..i]) && AllSpace(s[i + j..]) && NoEdgeSpace(s[i..i + j]);
  }

  /** After strip() there is no leading or trailing whitespace. */
  lemma StripHasNoEdgeSpace(s: string)
    ensures NoEdgeSpace(Strip(s))
  {
    StripKeepsInterior(s);
  }

  /** A string without edge whitespace is left as it is. */
  lemma StripKeepsClean(s: string)
    requires NoEdgeSpace(s)
    ensures Strip(s) == s
  {
    assert TrimStart(s) == s;
    assert TrimEnd(s) == s;
  }

  /** Stripping twice is stripping once. */
  lemma StripIdempotent(s: string)
    ensures Strip(Strip(s)) == Strip(s)
  {
    StripHasNoEdgeSpace(s);
    StripKeepsClean(Strip(s));
  }
}
