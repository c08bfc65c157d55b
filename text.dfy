/** Python's `str.strip()` with no argument, as both core functions use it on every line
    and on every captured value. */
module Text {

  /** The characters for which Python's `str.isspace()` is true: the ones `str.strip()`
      removes from both ends when it is called without an argument. */
  predicate IsSpace(c: char) {
    || c == ' '
    || ('\t' <= c <= '\r')            // \t \n \v \f \r
    || ('\U{1C}' <= c <= '\U{1F}')    // the four ASCII information separators
    || c == '\U{85}' || c == '\U{A0}' || c == '\U{1680}'
    || ('\U{2000}' <= c <= '\U{200A}')
    || c == '\U{2028}' || c == '\U{2029}' || c == '\U{202F}' || c == '\U{205F}' || c == '\U{3000}'
  }

  predicate AllSpace(s: string) {
    forall i :: 0 <= i < |s| ==> IsSpace(s[i])
  }

  /** A string that `strip()` leaves as it is: empty, or neither end is whitespace. */
  predicate IsStripped(s: string) {
    s == [] || (!IsSpace(s[0]) && !IsSpace(s[|s| - 1]))
  }

  /** The number of whitespace characters `s` starts with. */
  function Leading(s: string): (n: nat)
    ensures n <= |s|
  {
    if s != [] && IsSpace(s[0]) then 1 + Leading(s[1..]) else 0
  }

  /** The number of whitespace characters `s` ends with. */
  function Trailing(s: string): (n: nat)
    ensures n <= |s|
  {
    if s != [] && IsSpace(s[|s| - 1]) then 1 + Trailing(s[..|s| - 1]) else 0
  }

  /** `Leading(s)` counts exactly the run of whitespace `s` starts with. */
  lemma {:induction false} LeadingRun(s: string)
    ensures AllSpace(s[..Leading(s)])
    ensures Leading(s) < |s| ==> !IsSpace(s[Leading(s)])
    decreases |s|
  {
    if s != [] && IsSpace(s[0]) {
      LeadingRun(s[1..]);
      assert s[..Leading(s)] == [s[0]] + s[1..][..Leading(s[1..])];
    }
  }

  /** `Trailing(s)` counts exactly the run of whitespace `s` ends with. */
  lemma {:induction false} TrailingRun(s: string)
    ensures AllSpace(s[|s| - Trailing(s)..])
    ensures Trailing(s) < |s| ==> !IsSpace(s[|s| - 1 - Trailing(s)])
    decreases |s|
  {
    if s != [] && IsSpace(s[|s| - 1]) {
      var t := s[..|s| - 1];
      TrailingRun(t);
      assert |s| - Trailing(s) == |t| - Trailing(t);
      assert s[|s| - Trailing(s)..] == t[|t| - Trailing(t)..] + [s[|s| - 1]];
    }
  }

  /** `s.strip()`: `s` without the whitespace it starts with, and then without the whitespace
      that is left at its end. */
  function Strip(s: string): (r: string)
    ensures |r| <= |s|
  {
    var rest := s[Leading(s)..];
    rest[..|rest| - Trailing(rest)]
  }

  /** What `strip()` returns has no whitespace at either end. */
  lemma StripIsStripped(s: string)
    ensures IsStripped(Strip(s))
  {
    var rest := s[Leading(s)..];
    LeadingRun(s);
    TrailingRun(rest);
    var r := Strip(s);
    if r != [] {
      assert r[0] == s[Leading(s)];
      assert r[|r| - 1] == rest[|rest| - 1 - Trailing(rest)];
    }
  }

  /** Only whitespace is removed, and only at the two ends: `strip()` returns the infix of
      `s` that starts after its leading whitespace, and what it drops on either side is all
      whitespace. */
  lemma StripRemovesOnlyEnds(s: string)
    ensures var r := Strip(s); var a := Leading(s);
      a + |r| <= |s| && r == s[a..a + |r|] && AllSpace(s[..a]) && AllSpace(s[a + |r|..])
  {
    var a := Leading(s);
    var rest := s[a..];
    var r := Strip(s);
    assert r == rest[..|rest| - Trailing(rest)];
    assert r == s[a..a + |r|];
    LeadingRun(s);
    assert AllSpace(s[a + |r|..]) by {
      TrailingRun(rest);
      assert s[a + |r|..] == rest[|rest| - Trailing(rest)..];
    }
  }

  /** A line strips to the empty string exactly when it is all whitespace. */
  lemma StripEmptyIffAllSpace(s: string)
    ensures Strip(s) == [] <==> AllSpace(s)
  {
    var a := Leading(s);
    LeadingRun(s);
    if a < |s| {
      var rest := s[a..];
      TrailingRun(rest);
      assert rest[0] == s[a];
      assert Trailing(rest) < |rest| by {
        assert !IsSpace(rest[|rest| - 1 - (|rest| - 1)]);
      }
    } else {
      assert s[..a] == s;
    }
  }

  /** A stripped string is its own strip; in particular stripping twice is stripping once. */
  lemma StripKeepsStripped(s: string)
    requires IsStripped(s)
    ensures Strip(s) == s
  {
    if s != [] {
      assert Leading(s) == 0;
      assert s[0..] == s;
      assert Trailing(s) == 0;
    }
  }
}
