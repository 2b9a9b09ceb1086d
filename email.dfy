/**
 * The e-mail pattern `^[a-zA-Z0-9._%+-]+@[a-zA-Z0-9.-]+\.[a-zA-Z]{2,}$`,
 * which the contact form and the registration form both use.
 */
module Email {
  import opened Wrappers
  import opened Text

  /** `[a-zA-Z0-9._%+-]` */
  predicate IsLocalChar(c: char) {
    IsAlphanumeric(c) || c == '.' || c == '_' || c == '%' || c == '+' || c == '-'
  }

  /** `[a-zA-Z0-9.-]` */
  predicate IsDomainChar(c: char) {
    IsAlphanumeric(c) || c == '.' || c == '-'
  }

  /**
   * `s` reads as local part, `@` at `at`, domain, `.` at `dot`, then the
   * top-level label: one way for the pattern to match `s`.
   */
  predicate SplitsAt(s: string, at: int, dot: int) {
    0 < at && at + 1 < dot && dot + 2 < |s|
    && s[at] == '@' && s[dot] == '.'
    && (forall k :: 0 <= k < at ==> IsLocalChar(s[k]))
    && (forall k :: at < k < dot ==> IsDomainChar(s[k]))
    && (forall k :: dot < k < |s| ==> IsAsciiLetter(s[k]))
  }

  /** The pattern as a regular expression reads it: some way of cutting `s` fits. */
  predicate EmailPattern(s: string) {
    exists at, dot | 0 <= at < |s| && 0 <= dot < |s| :: SplitsAt(s, at, dot)
  }

  /** Any fitting cut puts `@` at the first `@` and `.` at the last `.`. */
  lemma SplitIsFirstAtLastDot(s: string, at: int, dot: int)
    requires SplitsAt(s, at, dot)
    ensures IndexOf(s, '@') == Some(at) && LastIndexOf(s, '.') == Some(dot)
  {
    forall k | 0 <= k < at ensures s[..at][k] != '@' {
      assert IsLocalChar(s[k]);
    }
    IndexOfAt(s, '@', at);
    forall k | dot < k < |s| ensures s[k] != '.' {
      assert IsAsciiLetter(s[k]);
    }
    LastIndexOfAt(s, '.', dot);
  }

  /** `validateEmail`: cuts at the first `@` and the last `.` and checks each part. */
  function ValidateEmail(s: string): bool {
    var at := IndexOf(s, '@');
    var dot := LastIndexOf(s, '.');
    at.Some? && dot.Some? && SplitsAt(s, at.value, dot.value)
  }

  /** The direct check accepts exactly the strings the pattern matches. */
  lemma ValidateEmailIffPattern(s: string)
    ensures ValidateEmail(s) <==> EmailPattern(s)
  {
    if EmailPattern(s) {
      var a, d :| 0 <= a < |s| && 0 <= d < |s| && SplitsAt(s, a, d);
      SplitIsFirstAtLastDot(s, a, d);
    }
  }

  /** Neither the local part nor the domain admits `@`, so a valid address has exactly one. */
  lemma ValidEmailHasOneAt(s: string)
    requires ValidateEmail(s)
    ensures Occurrences(s, '@') == 1
  {
    var at := IndexOf(s, '@').value;
    var dot := LastIndexOf(s, '.').value;
    NoAtAfter(s, at, dot);
    OccursOnceAt(s, '@', at);
  }

  /** Past the `@` of a fitting cut come only domain characters, a `.` and letters. */
  lemma NoAtAfter(s: string, at: int, dot: int)
    requires SplitsAt(s, at, dot)
    ensures '@' !in s[at + 1..]
  {
    forall k | at + 1 <= k < |s| ensures s[k] != '@' {
      if k < dot {
        assert IsDomainChar(s[k]);
      } else if k > dot {
        assert IsAsciiLetter(s[k]);
      }
    }
  }
}
