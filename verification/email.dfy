/** The newsletter form's address check, the pattern
    `^[^\s@]+@[^\s@]+\.[^\s@]+$` (no flags: `$` anchors at the end of
    the whole input). Three readings of it are defined here and proved
    to agree: the pattern's own split into three parts, a description
    by whitespace, `@` and `.` positions, and the scanning checker the
    form calls. */
module Email {
  import opened Wrappers
  import opened Text

  /** A character of the class `[^\s@]`. */
  predicate IsAddressChar(c: char) {
    !IsSpace(c) && c != '@'
  }

  predicate AllAddressChars(s: string) {
    forall k :: 0 <= k < |s| ==> IsAddressChar(s[k])
  }

  /** One way for the pattern to match `s`: the literal `@` sits at `at`,
      the literal `.` at `dot`, and the three `[^\s@]+` parts before,
      between and after them are non-empty. */
  ghost predicate PatternSplit(s: string, at: int, dot: int) {
    && 0 < at && at + 1 < dot && dot + 1 < |s|
    && s[at] == '@' && s[dot] == '.'
    && AllAddressChars(s[..at])
    && AllAddressChars(s[at + 1..dot])
    && AllAddressChars(s[dot + 1..])
  }

  /** `emailRegex.test(s)`. */
  ghost predicate MatchesPattern(s: string) {
    exists at, dot :: PatternSplit(s, at, dot)
  }

  /** `at` is the one and only `@` of `s`. */
  predicate SoleAtSign(s: string, at: int) {
    && 0 <= at < |s|
    && s[at] == '@'
    && forall k :: 0 <= k < |s| && k != at ==> s[k] != '@'
  }

  /** `d` has a `.` that is neither its first nor its last character. */
  predicate HasInnerDot(d: string) {
    exists k :: 0 < k < |d| - 1 && d[k] == '.'
  }

  /** The accepted shape in words: no whitespace, exactly one `@`, something
      before it, and an inner `.` in what follows it. */
  ghost predicate EmailShape(s: string) {
    && NoSpace(s)
    && exists at :: SoleAtSign(s, at) && at > 0 && HasInnerDot(s[at + 1..])
  }

  /** Whether some index in `[lo, hi)` holds a `.`. */
  function DotBetween(s: string, lo: nat, hi: nat): (r: bool)
    requires hi <= |s|
    ensures r <==> exists k :: lo <= k < hi && s[k] == '.'
    decreases hi - lo
  {
    if lo >= hi then false
    else s[lo] == '.' || DotBetween(s, lo + 1, hi)
  }

  /** Whether `s[from..]` is free of whitespace. */
  function SpaceFreeFrom(s: string, from: nat): (r: bool)
    ensures r <==> forall k :: from <= k < |s| ==> !IsSpace(s[k])
    decreases |s| - from
  {
    from >= |s| || (!IsSpace(s[from]) && SpaceFreeFrom(s, from + 1))
  }

  /** The check as the form runs it: find the first `@`, make sure there is
      no second one and no whitespace, and look for an inner `.` after it. */
  function IsValidEmail(s: string): (r: bool)
    ensures r <==> EmailShape(s)
  {
    match IndexOfChar(s, '@', 0)
    case None => false
    case Some(at) =>
      var r :=
        && at > 0
        && SpaceFreeFrom(s, 0)
        && IndexOfChar(s, '@', at + 1).None?
        && DotBetween(s, at + 2, |s| - 1);
      assert r <==> EmailShape(s) by {
        if r {
          var k :| at + 2 <= k < |s| - 1 && s[k] == '.';
          assert s[at + 1..][k - at - 1] == '.';
          assert SoleAtSign(s, at);
        }
        if EmailShape(s) {
          var at' :| SoleAtSign(s, at') && at' > 0 && HasInnerDot(s[at' + 1..]);
          assert at' == at;
          var d := s[at + 1..];
          var k :| 0 < k < |d| - 1 && d[k] == '.';
          assert s[at + 1 + k] == '.';
        }
      }
      r
  }

  /** The description in words is exactly what the pattern accepts. */
  lemma ShapeIffPattern(s: string)
    ensures EmailShape(s) <==> MatchesPattern(s)
  {
    if EmailShape(s) {
      var at :| SoleAtSign(s, at) && at > 0 && HasInnerDot(s[at + 1..]);
      var d := s[at + 1..];
      var k :| 0 < k < |d| - 1 && d[k] == '.';
      var dot := at + 1 + k;
      assert s[dot] == '.';
      forall m | 0 <= m < |s| && m != at ensures IsAddressChar(s[m]) { }
      assert AllAddressChars(s[..at]);
      assert AllAddressChars(s[at + 1..dot]);
      assert AllAddressChars(s[dot + 1..]);
      assert PatternSplit(s, at, dot);
    }
    if MatchesPattern(s) {
      var at, dot :| PatternSplit(s, at, dot);
      forall m | 0 <= m < |s| && m != at ensures IsAddressChar(s[m]) {
        if m < at {
          assert s[m] == s[..at][m];
        } else if m < dot {
          assert s[m] == s[at + 1..dot][m - at - 1];
        } else if m > dot {
          assert s[m] == s[dot + 1..][m - dot - 1];
        }
      }
      assert SoleAtSign(s, at);
      assert s[at + 1..][dot - at - 1] == '.';
      assert HasInnerDot(s[at + 1..]);
    }
  }

  /** The checker decides the pattern. */
  lemma CheckerDecidesPattern(s: string)
    ensures IsValidEmail(s) <==> MatchesPattern(s)
  {
    ShapeIffPattern(s);
  }

  /** An accepted address contains no whitespace, so `trim` leaves it as it is. */
  lemma ValidIsTrimmed(s: string)
    requires IsValidEmail(s)
    ensures Trim(s) == s
  {
  }

  /** Addresses the check accepts, including a doubled dot. */
  lemma AcceptedExamples()
    ensures IsValidEmail("a@b.c")
    ensures IsValidEmail("a@b..c")
    ensures IsValidEmail("a@b.co")
  {
    assert SoleAtSign("a@b.c", 1) && "a@b.c"[2..][1] == '.';
    assert SoleAtSign("a@b..c", 1) && "a@b..c"[2..][1] == '.';
    assert SoleAtSign("a@b.co", 1) && "a@b.co"[2..][1] == '.';
  }

  /** A dot right after the `@`, a dot at the very end, a second `@` and a
      space each make the check fail. */
  lemma RejectedExamples()
    ensures !IsValidEmail("a@.c")
    ensures !IsValidEmail("a@b.")
    ensures !IsValidEmail("a@@b.c")
    ensures !IsValidEmail("a b@c.d")
  {
    assert "a@.c"[1] == '@' && "a@.c"[0] != '@' && "a@.c"[2] != '@' && "a@.c"[3] != '@';
    assert "a@b."[1] == '@' && "a@b."[0] != '@' && "a@b."[2] != '@' && "a@b."[3] != '@';
    assert "a@@b.c"[1] == '@' && "a@@b.c"[2] == '@';
    assert IsSpace("a b@c.d"[1]);
  }

  /** A string with no `@` at all is rejected. */
  lemma NoAtSignRejected(s: string)
    requires forall k :: 0 <= k < |s| ==> s[k] != '@'
    ensures !IsValidEmail(s)
  {
  }
}
