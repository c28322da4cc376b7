/** The e-mail check of the contact form, the regular expression
    `^[^\s@]+@[^\s@]+\.[^\s@]+$` tested against the raw (untrimmed) field.
    `Matches` reads the expression as the language it denotes; `IsEmail` is
    the check the form runs; `IsEmailIffMatches` says they agree. */
module EmailPattern {
  import opened JsString

  /** The class `[^\s@]`: neither whitespace nor the at-sign. */
  predicate IsPlain(c: char)
  {
    !IsWhitespace(c) && c != '@'
  }

  /** `[^\s@]+` spanning positions `lo` up to (not including) `hi`. */
  ghost predicate PlainRun(s: string, lo: int, hi: int)
  {
    0 <= lo < hi <= |s| && forall k :: lo <= k < hi ==> IsPlain(s[k])
  }

  /** The whole of `s` is a plain run, then `@` at `at`, a plain run, `.` at
      `dot`, and a plain run to the end. */
  ghost predicate MatchesAt(s: string, at: int, dot: int)
  {
    && 0 <= at < dot < |s|
    && PlainRun(s, 0, at) && s[at] == '@'
    && PlainRun(s, at + 1, dot) && s[dot] == '.'
    && PlainRun(s, dot + 1, |s|)
  }

  /** The anchored regular expression matches `s` for some split. */
  ghost predicate Matches(s: string)
  {
    exists at, dot :: MatchesAt(s, at, dot)
  }

  /** The check as the form runs it: no whitespace anywhere, exactly one `@`,
      something before it, and after it a domain with a `.` that is neither its
      first nor its last character. */
  predicate IsEmail(s: string)
  {
    && (forall c | c in s :: !IsWhitespace(c))
    && '@' in s
    && var at := IndexOf(s, '@');
       var domain := s[at + 1..];
       && at > 0
       && '@' !in domain
       && |domain| >= 3
       && '.' in domain[1..|domain| - 1]
  }

  /** The check accepts exactly the strings the regular expression matches. */
  lemma IsEmailIffMatches(s: string)
    ensures IsEmail(s) <==> Matches(s)
  {
    if IsEmail(s) {
      var at := IndexOf(s, '@');
      var domain := s[at + 1..];
      var inner := domain[1..|domain| - 1];
      var j := IndexOf(inner, '.');
      var dot := at + 2 + j;
      assert s[dot] == inner[j];
      forall k | 0 <= k < |s| && k != at ensures IsPlain(s[k]) {
        assert s[k] in s;
        if k < at {
          assert s[k] == s[..at][k];
        } else {
          assert s[k] == domain[k - at - 1];
        }
      }
      assert MatchesAt(s, at, dot);
    }
    if Matches(s) {
      var at, dot :| MatchesAt(s, at, dot);
      assert forall k :: 0 <= k < |s| && k != at ==> IsPlain(s[k]);
      assert '@' in s by { assert s[at] == '@'; }
      assert IndexOf(s, '@') == at;
      var domain := s[at + 1..];
      assert '@' !in domain by {
        forall k | 0 <= k < |domain| ensures domain[k] != '@' {
          assert domain[k] == s[at + 1 + k];
        }
      }
      assert '.' in domain[1..|domain| - 1] by {
        assert domain[1..|domain| - 1][dot - at - 2] == s[dot];
      }
      forall c | c in s ensures !IsWhitespace(c) {
        var k :| 0 <= k < |s| && s[k] == c;
        if k != at { assert IsPlain(s[k]); }
      }
    }
  }
}
