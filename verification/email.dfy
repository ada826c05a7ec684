/** The contact form's email check, the regular expression
    `^[^\s@]+@[^\s@]+\.[^\s@]+$` applied to the trimmed email field. */
module Email {
  import opened JsText

  /** One character of the class `[^\s@]`. */
  predicate IsAddressChar(c: char) {
    !IsJsSpace(c) && c != '@'
  }

  /** The regular expression matches `s` with its `@` at index `at` and its literal
      `\.` at index `dot`: three non-empty runs of `[^\s@]` around those two. A dot
      inside a run is allowed, since `.` is itself in `[^\s@]`. */
  ghost predicate MatchesAt(s: string, at: int, dot: int) {
    && 0 < at && at + 1 < dot && dot + 1 < |s|
    && s[at] == '@' && s[dot] == '.'
    && (forall k | 0 <= k < |s| && k != at :: IsAddressChar(s[k]))
  }

  /** The language of the regular expression (anchored at both ends). */
  ghost predicate MatchesPattern(s: string) {
    exists at: int, dot: int :: MatchesAt(s, at, dot)
  }

  /** Number of occurrences of `c` in `s`. */
  function Count(s: string, c: char): nat {
    if s == [] then 0 else (if s[0] == c then 1 else 0) + Count(s[1..], c)
  }

  /** Index of the first `c` in `s`, or `|s|` when there is none. */
  function IndexOf(s: string, c: char): (i: nat)
    ensures i <= |s|
    ensures i < |s| ==> s[i] == c
    ensures forall k | 0 <= k < i :: s[k] != c
  {
    if s == [] then 0 else if s[0] == c then 0 else 1 + IndexOf(s[1..], c)
  }

  /** `d` has a `.` that is neither its first nor its last character. */
  predicate HasInnerDot(d: string) {
    exists j | 0 < j < |d| - 1 :: d[j] == '.'
  }

  /** The check stated by its parts: no whitespace, exactly one `@` with a non-empty
      local part before it, and a domain part with an inner dot. */
  predicate IsValidEmail(s: string) {
    && (forall k | 0 <= k < |s| :: !IsJsSpace(s[k]))
    && Count(s, '@') == 1
    && var at := IndexOf(s, '@');
       0 < at < |s| && HasInnerDot(s[at + 1..])
  }

  /** A character occurs once in `s` exactly when no index but its known one holds it. */
  lemma {:induction false} CountOnce(s: string, c: char, i: nat)
    requires i < |s| && s[i] == c
    ensures Count(s, c) == 1 <==> forall k | 0 <= k < |s| && k != i :: s[k] != c
  {
    if i == 0 {
      assert Count(s, c) == 1 + Count(s[1..], c);
      CountAbsent(s[1..], c);
      assert forall k | 0 <= k < |s[1..]| :: s[1..][k] == s[k + 1];
    } else {
      CountOnce(s[1..], c, i - 1);
      CountAbsent(s[1..], c);
      assert forall k | 0 < k < |s| :: s[1..][k - 1] == s[k];
    }
  }

  /** No occurrence counts as zero. */
  lemma {:induction false} CountAbsent(s: string, c: char)
    ensures Count(s, c) == 0 <==> forall k | 0 <= k < |s| :: s[k] != c
  {
    if s != [] {
      CountAbsent(s[1..], c);
      assert forall k | 0 < k < |s| :: s[1..][k - 1] == s[k];
    }
  }

  /** The executable check accepts exactly the language of the regular expression. */
  lemma {:induction false} ValidEmailIffPattern(s: string)
    ensures IsValidEmail(s) <==> MatchesPattern(s)
  {
    if IsValidEmail(s) {
      var at := IndexOf(s, '@');
      CountOnce(s, '@', at);
      var d := s[at + 1..];
      var j :| 0 < j < |d| - 1 && d[j] == '.';
      assert MatchesAt(s, at, at + 1 + j);
    }
    if MatchesPattern(s) {
      var at, dot :| MatchesAt(s, at, dot);
      CountOnce(s, '@', at);
      assert IndexOf(s, '@') == at;
      assert s[at + 1..][dot - at - 1] == '.';
    }
  }

  /** Sample addresses the pattern accepts and rejects. */
  lemma EmailExamples()
    ensures MatchesPattern("a@b.co")
    ensures !MatchesPattern("a@b")
    ensures !MatchesPattern("ab.co")
    ensures !MatchesPattern("")
  {
    assert MatchesAt("a@b.co", 1, 3);
    ValidEmailIffPattern("ab.co");
    assert Count("ab.co", '@') == 0;
  }
}
