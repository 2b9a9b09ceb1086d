/**
 * The registration form: one check per field, the ordered list of error
 * messages the submit handler shows, and the rule that leaving a blank field
 * never marks it.
 */
module Registration {
  import opened Wrappers
  import opened Text
  import Email
  import ContactForm

  // ---------------------------------------------------------------- full name

  /** `^[A-Za-z\s]+$` */
  predicate NamePattern(name: string) {
    |name| >= 1 && forall k :: 0 <= k < |name| ==> IsAsciiLetter(name[k]) || IsWhitespace(name[k])
  }

  /** `validateFullName`: the trimmed name is not empty and the pattern matches. */
  predicate ValidateFullName(name: string) {
    Trim(name) != "" && NamePattern(name)
  }

  /** A full name is letters and whitespace only, with at least one letter. */
  lemma FullNameNeedsALetter(name: string)
    ensures ValidateFullName(name) <==>
      (forall k :: 0 <= k < |name| ==> IsAsciiLetter(name[k]) || IsWhitespace(name[k]))
      && (exists k :: 0 <= k < |name| && IsAsciiLetter(name[k]))
  {
    TrimEmptyIffBlank(name);
    if !AllWhitespace(name) {
      var k :| 0 <= k < |name| && !IsWhitespace(name[k]);
      if NamePattern(name) {
        assert IsAsciiLetter(name[k]);
      }
    }
    if exists k :: 0 <= k < |name| && IsAsciiLetter(name[k]) {
      var k :| 0 <= k < |name| && IsAsciiLetter(name[k]);
      assert !IsWhitespace(name[k]);
    }
  }

  // ----------------------------------------------------------------- username

  /** `validateUsername`, the pattern `^[A-Za-z][A-Za-z0-9]{5,14}$`. */
  predicate ValidateUsername(username: string) {
    1 <= |username| && IsAsciiLetter(username[0])
    && 5 <= |username[1..]| <= 14
    && forall k :: 0 <= k < |username[1..]| ==> IsAlphanumeric(username[1..][k])
  }

  /**
   * What the field's comment promises: 6 to 15 characters, letters and digits
   * only, not starting with a digit.
   */
  lemma UsernameRule(username: string)
    ensures ValidateUsername(username) <==>
      6 <= |username| <= 15
      && (forall k :: 0 <= k < |username| ==> IsAlphanumeric(username[k]))
      && !IsDigit(username[0])
  {
    if 6 <= |username| <= 15 && (forall k :: 0 <= k < |username| ==> IsAlphanumeric(username[k])) {
      forall k | 0 <= k < |username[1..]| ensures IsAlphanumeric(username[1..][k]) {
        assert username[1..][k] == username[k + 1];
      }
    }
    if ValidateUsername(username) {
      forall k | 0 <= k < |username| ensures IsAlphanumeric(username[k]) {
        if k > 0 { assert username[k] == username[1..][k - 1]; }
      }
    }
  }

  // ----------------------------------------------------------------- password

  /** `[!@#$%^&*]` */
  predicate IsSpecial(c: char) {
    c == '!' || c == '@' || c == '#' || c == '$' || c == '%' || c == '^' || c == '&' || c == '*'
  }

  /** `[A-Za-z\d!@#$%^&*]` */
  predicate IsPasswordChar(c: char) {
    IsAsciiLetter(c) || IsDigit(c) || IsSpecial(c)
  }

  /** The four character classes the password's lookaheads ask for. */
  datatype Class = Lower | Upper | Digit | Special

  predicate InClass(c: char, cls: Class) {
    match cls
    case Lower => IsLower(c)
    case Upper => IsUpper(c)
    case Digit => IsDigit(c)
    case Special => IsSpecial(c)
  }

  /**
   * The lookahead `(?=.*[X])` at the start of the input: some character of
   * class X is preceded only by characters `.` matches, i.e. no line
   * terminator.
   */
  predicate LookaheadFinds(s: string, cls: Class) {
    exists k :: 0 <= k < |s| && InClass(s[k], cls)
      && forall j :: 0 <= j < k ==> !IsLineTerminator(s[j])
  }

  /** The password pattern as written, lookaheads included. */
  predicate PasswordPattern(s: string) {
    LookaheadFinds(s, Lower) && LookaheadFinds(s, Upper)
    && LookaheadFinds(s, Digit) && LookaheadFinds(s, Special)
    && 8 <= |s| <= 20 && forall k :: 0 <= k < |s| ==> IsPasswordChar(s[k])
  }

  predicate Contains(s: string, cls: Class) {
    exists k :: 0 <= k < |s| && InClass(s[k], cls)
  }

  /**
   * `validatePassword`: 8 to 20 characters from the allowed set, with at least
   * one lowercase letter, one uppercase letter, one digit and one special
   * character.
   */
  predicate ValidatePassword(s: string) {
    8 <= |s| <= 20 && (forall k :: 0 <= k < |s| ==> IsPasswordChar(s[k]))
    && Contains(s, Lower) && Contains(s, Upper) && Contains(s, Digit) && Contains(s, Special)
  }

  /** An allowed character is never a line terminator, so each lookahead reduces to a plain search. */
  lemma LookaheadIsContains(s: string, cls: Class)
    requires forall k :: 0 <= k < |s| ==> IsPasswordChar(s[k])
    ensures LookaheadFinds(s, cls) <==> Contains(s, cls)
  {
    if Contains(s, cls) {
      var k :| 0 <= k < |s| && InClass(s[k], cls);
      forall j | 0 <= j < k ensures !IsLineTerminator(s[j]) {
        assert IsPasswordChar(s[j]);
      }
    }
  }

  lemma ValidatePasswordIffPattern(s: string)
    ensures ValidatePassword(s) <==> PasswordPattern(s)
  {
    if forall k :: 0 <= k < |s| ==> IsPasswordChar(s[k]) {
      LookaheadIsContains(s, Lower);
      LookaheadIsContains(s, Upper);
      LookaheadIsContains(s, Digit);
      LookaheadIsContains(s, Special);
    }
  }

  /** `validatePasswordsMatch` */
  predicate ValidatePasswordsMatch(password: string, confirm: string) {
    password == confirm
  }

  // -------------------------------------------------------------------- phone

  /** `[-\s]` */
  predicate IsPhoneSeparator(c: char) {
    c == '-' || IsWhitespace(c)
  }

  /**
   * One way for `^(\(\d{3}\)|\d{3})[-\s]?\d{3}[-\s]?\d{4}$` to match: the
   * area code with or without parentheses, and each optional separator
   * present or not.
   */
  predicate PhoneShape(s: string, paren: bool, sep1: bool, sep2: bool) {
    var p := if paren then 5 else 3;
    var a := if sep1 then 1 else 0;
    var b := if sep2 then 1 else 0;
    |s| == p + a + 3 + b + 4
    && (if paren then s[0] == '(' && AllDigits(s[1..4]) && s[4] == ')' else AllDigits(s[..3]))
    && (sep1 ==> IsPhoneSeparator(s[p]))
    && AllDigits(s[p + a..p + a + 3])
    && (sep2 ==> IsPhoneSeparator(s[p + a + 3]))
    && AllDigits(s[p + a + 3 + b..|s|])
  }

  /** The phone pattern: some choice of its alternatives fits. */
  predicate PhonePattern(s: string) {
    exists paren: bool, sep1: bool, sep2: bool :: PhoneShape(s, paren, sep1, sep2)
  }

  /**
   * `validatePhoneNumber`, read left to right: a leading `(` selects the
   * parenthesised area code, and a separator is present exactly where a
   * non-digit stands.
   */
  predicate ValidatePhoneNumber(s: string) {
    var paren := |s| > 0 && s[0] == '(';
    var p := if paren then 5 else 3;
    var sep1 := |s| > p && IsPhoneSeparator(s[p]);
    var a := if sep1 then 1 else 0;
    var sep2 := |s| > p + a + 3 && IsPhoneSeparator(s[p + a + 3]);
    PhoneShape(s, paren, sep1, sep2)
  }

  /** The left-to-right reading accepts exactly what the pattern matches. */
  lemma ValidatePhoneNumberIffPattern(s: string)
    ensures ValidatePhoneNumber(s) <==> PhonePattern(s)
  {
    if PhonePattern(s) {
      var paren, sep1, sep2 :| PhoneShape(s, paren, sep1, sep2);
      var p := if paren then 5 else 3;
      var a := if sep1 then 1 else 0;
      if !paren {
        assert IsDigit(s[..3][0]);
      }
      if !sep1 {
        assert IsDigit(s[p + a..p + a + 3][0]);
      }
      if !sep2 {
        assert IsDigit(s[p + a + 3..|s|][0]);
      }
    }
  }

  /** How many digits `s[lo..hi]` holds. */
  function DigitCount(s: string, lo: nat, hi: nat): nat
    requires lo <= hi <= |s|
  {
    |DigitsOf(s[lo..hi])|
  }

  lemma DigitCountSplit(s: string, lo: nat, mid: nat, hi: nat)
    requires lo <= mid <= hi <= |s|
    ensures DigitCount(s, lo, hi) == DigitCount(s, lo, mid) + DigitCount(s, mid, hi)
  {
    assert s[lo..hi] == s[lo..mid] + s[mid..hi];
    DigitsOfAppend(s[lo..mid], s[mid..hi]);
  }

  lemma DigitCountOfDigits(s: string, lo: nat, hi: nat)
    requires lo <= hi <= |s| && AllDigits(s[lo..hi])
    ensures DigitCount(s, lo, hi) == hi - lo
  {
    DigitsOfDigits(s[lo..hi]);
  }

  lemma DigitCountOfNonDigit(s: string, i: nat)
    requires i < |s| && !IsDigit(s[i])
    ensures DigitCount(s, i, i + 1) == 0
  {
    assert s[i..i + 1] == [s[i]];
    assert s[i..i + 1][1..] == [];
  }

  /** The area code, with or without its parentheses, holds three digits. */
  lemma AreaCodeDigits(s: string, paren: bool, sep1: bool, sep2: bool)
    requires PhoneShape(s, paren, sep1, sep2)
    ensures DigitCount(s, 0, if paren then 5 else 3) == 3
  {
    if paren {
      DigitCountSplit(s, 0, 1, 5);
      DigitCountSplit(s, 1, 4, 5);
      DigitCountOfNonDigit(s, 0);
      DigitCountOfNonDigit(s, 4);
      DigitCountOfDigits(s, 1, 4);
    } else {
      DigitCountOfDigits(s, 0, 3);
    }
  }

  /** An optional separator at `i` followed by `n` digits holds `n` digits. */
  lemma SeparatedDigits(s: string, i: nat, sep: bool, n: nat)
    requires i + (if sep then 1 else 0) + n <= |s|
    requires sep ==> IsPhoneSeparator(s[i])
    requires AllDigits(s[i + (if sep then 1 else 0)..i + (if sep then 1 else 0) + n])
    ensures DigitCount(s, i, i + (if sep then 1 else 0) + n) == n
  {
    var a := if sep then 1 else 0;
    DigitCountSplit(s, i, i + a, i + a + n);
    if sep {
      DigitCountOfNonDigit(s, i);
    }
    DigitCountOfDigits(s, i + a, i + a + n);
  }

  /** What follows the area code holds seven digits. */
  lemma LocalNumberDigits(s: string, paren: bool, sep1: bool, sep2: bool)
    requires PhoneShape(s, paren, sep1, sep2)
    ensures DigitCount(s, if paren then 5 else 3, |s|) == 7
  {
    var p := if paren then 5 else 3;
    var q := p + (if sep1 then 1 else 0) + 3;
    SeparatedDigits(s, p, sep1, 3);
    SeparatedDigits(s, q, sep2, 4);
    DigitCountSplit(s, p, q, |s|);
  }

  /** Every accepted phone number carries exactly ten digits. */
  lemma PhonePatternHasTenDigits(s: string, paren: bool, sep1: bool, sep2: bool)
    requires PhoneShape(s, paren, sep1, sep2)
    ensures |DigitsOf(s)| == 10
  {
    var p := if paren then 5 else 3;
    AreaCodeDigits(s, paren, sep1, sep2);
    LocalNumberDigits(s, paren, sep1, sep2);
    DigitCountSplit(s, 0, p, |s|);
    assert s[0..|s|] == s;
  }

  /** A number the registration form accepts also passes the contact form's ten-digit check. */
  lemma AcceptedPhonePassesContactCheck(s: string)
    requires ValidatePhoneNumber(s)
    ensures ContactForm.ValidatePhone(s)
  {
    var paren := |s| > 0 && s[0] == '(';
    var p := if paren then 5 else 3;
    var sep1 := |s| > p && IsPhoneSeparator(s[p]);
    var a := if sep1 then 1 else 0;
    var sep2 := |s| > p + a + 3 && IsPhoneSeparator(s[p + a + 3]);
    PhonePatternHasTenDigits(s, paren, sep1, sep2);
  }

  /** The contact form's `(ddd) ddd-dddd` display form is one the registration form accepts. */
  lemma FormattedPhoneIsAccepted(d: string)
    requires |d| == 10 && AllDigits(d)
    ensures ValidatePhoneNumber(ContactForm.FormatPhone(d))
  {
    var s := ContactForm.FormatPhone(d);
    assert s[1..4] == d[..3] && s[6..9] == d[3..6] && s[10..|s|] == d[6..];
    assert PhoneShape(s, true, true, true);
  }

  // ------------------------------------------------------------ date of birth

  /** A calendar date as `getFullYear`, `getMonth` and `getDate` report it. */
  datatype Date = Date(year: int, month: int, day: int)

  /** `a` is not later than `b`. */
  predicate NotAfter(a: Date, b: Date) {
    a.year < b.year
    || (a.year == b.year && (a.month < b.month || (a.month == b.month && a.day <= b.day)))
  }

  /** The age computation of `validateDateOfBirth`: the year difference, less one before the birthday. */
  function AgeOn(birth: Date, today: Date): int {
    var age := today.year - birth.year;
    var monthDifference := today.month - birth.month;
    if monthDifference < 0 || (monthDifference == 0 && today.day < birth.day) then age - 1 else age
  }

  /** One is at least `n` years old exactly from the `n`-th birthday on. */
  lemma AgeAtLeastIffBirthdayPassed(birth: Date, today: Date, n: int)
    ensures AgeOn(birth, today) >= n <==> NotAfter(Date(birth.year + n, birth.month, birth.day), today)
  {
  }

  const MinimumAge: int := 18

  /**
   * `validateDateOfBirth`: `dob` is the date the input parses to, `None` when
   * it is not a valid date; `today` is the clock's date.
   */
  predicate ValidateDateOfBirth(dob: Option<Date>, today: Date) {
    dob.Some? && AgeOn(dob.value, today) >= MinimumAge
  }

  // ------------------------------------------------------------------- submit

  /** The form's inputs; `parsedDob` is the date-of-birth text parsed as a date. */
  datatype Fields = Fields(
    fullName: string, username: string, email: string, password: string,
    confirmPassword: string, phone: string, parsedDob: Option<Date>, terms: bool)

  /** The problems the submit handler reports, one per check, plus the failure of the handler itself. */
  datatype Problem =
    | BadFullName | BadUsername | BadEmail | WeakPassword | PasswordMismatch
    | BadPhone | Underage | TermsRefused | Unexpected

  /** The text shown for each problem. */
  function Message(p: Problem): string {
    match p
    case BadFullName => "Full Name should only contain letters and spaces."
    case BadUsername =>
      "Username must be 6-15 characters, contain only letters and numbers, and not start with a number."
    case BadEmail => "Please enter a valid email address (e.g., user@example.com)."
    case WeakPassword =>
      "Password must be 8-20 characters and include at least one uppercase letter, one lowercase letter, one number, and one special character (!@#$%^&*)."
    case PasswordMismatch => "Passwords do not match."
    case BadPhone => "Please enter a valid phone number (e.g., 123-456-7890)."
    case Underage => "You must be at least 18 years old to register."
    case TermsRefused => "You must agree to the terms and conditions."
    case Unexpected => "An unexpected error occurred. Please try again later."
  }

  /** The problem each check reports, in the order the handler runs the checks. */
  const Problems: seq<Problem> := [
    BadFullName, BadUsername, BadEmail, WeakPassword, PasswordMismatch, BadPhone, Underage, TermsRefused
  ]

  /** The verdict of each check, in the order the handler runs them. */
  function Checks(f: Fields, today: Date): (c: seq<bool>)
    ensures |c| == |Problems|
  {
    [ ValidateFullName(f.fullName), ValidateUsername(f.username), Email.ValidateEmail(f.email),
      ValidatePassword(f.password), ValidatePasswordsMatch(f.password, f.confirmPassword),
      ValidatePhoneNumber(f.phone), ValidateDateOfBirth(f.parsedDob, today), f.terms ]
  }

  /** The positions of the failed checks among the first `k`, in increasing order. */
  function Failed(checks: seq<bool>, k: nat): (idx: seq<nat>)
    requires k <= |checks|
    ensures forall j :: 0 <= j < |idx| ==> idx[j] < k
    ensures forall j1, j2 :: 0 <= j1 < j2 < |idx| ==> idx[j1] < idx[j2]
    ensures forall i :: 0 <= i < k ==> (i in idx <==> !checks[i])
  {
    if k == 0 then []
    else Failed(checks, k - 1) + (if checks[k - 1] then [] else [k - 1])
  }

  /**
   * The problems pushed for the first `k` checks: one for each failed check,
   * in check order.
   */
  function ErrorsUpTo(checks: seq<bool>, k: nat): seq<Problem>
    requires k <= |checks| <= |Problems|
  {
    if k == 0 then [] else ErrorsUpTo(checks, k - 1) + Report(checks[k - 1], k - 1)
  }

  /** What one check adds to the list: its problem if it failed. */
  function Report(ok: bool, i: nat): seq<Problem>
    requires i < |Problems|
  {
    if ok then [] else [Problems[i]]
  }

  /** The `j`-th problem listed is the problem of the `j`-th failed check. */
  lemma {:induction false} ErrorsFollowFailedChecks(checks: seq<bool>, k: nat)
    requires k <= |checks| <= |Problems|
    ensures |ErrorsUpTo(checks, k)| == |Failed(checks, k)|
    ensures forall j :: 0 <= j < |Failed(checks, k)| ==>
      ErrorsUpTo(checks, k)[j] == Problems[Failed(checks, k)[j]]
  {
    if k > 0 {
      ErrorsFollowFailedChecks(checks, k - 1);
      var prior, priorIdx := ErrorsUpTo(checks, k - 1), Failed(checks, k - 1);
      var errors, idx := ErrorsUpTo(checks, k), Failed(checks, k);
      if checks[k - 1] {
        assert errors == prior && idx == priorIdx;
      } else {
        assert errors == prior + [Problems[k - 1]] && idx == priorIdx + [k - 1];
        PushKeepsPairing(prior, priorIdx, k - 1);
      }
    }
  }

  /** Pushing problem `i` and index `i` together keeps the two lists paired. */
  lemma PushKeepsPairing(errors: seq<Problem>, idx: seq<nat>, i: nat)
    requires i < |Problems| && |errors| == |idx|
    requires forall j :: 0 <= j < |idx| ==> idx[j] < |Problems| && errors[j] == Problems[idx[j]]
    ensures forall j :: 0 <= j < |idx| + 1 ==> (errors + [Problems[i]])[j] == Problems[(idx + [i])[j]]
  {
    forall j | 0 <= j < |idx| + 1 ensures (errors + [Problems[i]])[j] == Problems[(idx + [i])[j]] {
      if j < |idx| {
        assert (errors + [Problems[i]])[j] == errors[j] && (idx + [i])[j] == idx[j];
      }
    }
  }

  /** No problem is listed exactly when every check passed. */
  lemma {:induction false} NoErrorsIffAllPass(checks: seq<bool>, k: nat)
    requires k <= |checks| <= |Problems|
    ensures ErrorsUpTo(checks, k) == [] <==> forall i :: 0 <= i < k ==> checks[i]
  {
    ErrorsFollowFailedChecks(checks, k);
    var idx := Failed(checks, k);
    if idx != [] {
      assert idx[0] in idx;
    }
  }

  /** The list for all eight checks, spelled out check by check. */
  lemma ErrorsUnrolled(c: seq<bool>)
    requires |c| == |Problems|
    ensures ErrorsUpTo(c, 8) ==
      [] + Report(c[0], 0) + Report(c[1], 1) + Report(c[2], 2) + Report(c[3], 3)
         + Report(c[4], 4) + Report(c[5], 5) + Report(c[6], 6) + Report(c[7], 7)
  {
    assert ErrorsUpTo(c, 1) == [] + Report(c[0], 0);
    assert ErrorsUpTo(c, 2) == ErrorsUpTo(c, 1) + Report(c[1], 1);
    assert ErrorsUpTo(c, 3) == ErrorsUpTo(c, 2) + Report(c[2], 2);
    assert ErrorsUpTo(c, 4) == ErrorsUpTo(c, 3) + Report(c[3], 3);
    assert ErrorsUpTo(c, 5) == ErrorsUpTo(c, 4) + Report(c[4], 4);
    assert ErrorsUpTo(c, 6) == ErrorsUpTo(c, 5) + Report(c[5], 5);
    assert ErrorsUpTo(c, 7) == ErrorsUpTo(c, 6) + Report(c[6], 6);
  }

  /** The error list the submit handler shows for a complete form. */
  function Errors(f: Fields, today: Date): seq<Problem> {
    ErrorsUpTo(Checks(f, today), |Problems|)
  }

  /**
   * The submit handler. `form` is `None` when one of the fields is missing
   * from the page, which makes the handler throw and show only the
   * unexpected-error message.
   */
  method Submit(form: Option<Fields>, today: Date) returns (errors: seq<Problem>, registered: bool)
    ensures form.None? ==> errors == [Unexpected] && !registered
    ensures form.Some? ==> errors == Errors(form.value, today)
    ensures registered <==> errors == []
    ensures form.Some? ==> (registered <==> forall i :: 0 <= i < |Problems| ==> Checks(form.value, today)[i])
  {
    errors := [];
    if form.None? {
      errors := errors + [Unexpected];
      registered := false;
      return;
    }
    var f := form.value;
    var c := Checks(f, today);
    errors := PushUnless(errors, c[0], 0);
    errors := PushUnless(errors, c[1], 1);
    errors := PushUnless(errors, c[2], 2);
    errors := PushUnless(errors, c[3], 3);
    errors := PushUnless(errors, c[4], 4);
    errors := PushUnless(errors, c[5], 5);
    errors := PushUnless(errors, c[6], 6);
    errors := PushUnless(errors, c[7], 7);
    ErrorsUnrolled(c);
    NoErrorsIffAllPass(c, |Problems|);
    registered := |errors| == 0;
  }

  /** One step of the submit handler: push problem `i` when its check failed. */
  method PushUnless(errors: seq<Problem>, ok: bool, i: nat) returns (r: seq<Problem>)
    requires i < |Problems|
    ensures r == errors + Report(ok, i)
  {
    r := errors;
    if !ok {
      r := r + [Problems[i]];
    }
  }

  // --------------------------------------------------------------------- blur

  /** The inputs the blur handler's `switch` tells apart. */
  datatype Input = FullNameInput | UsernameInput | EmailInput | PasswordInput
                 | ConfirmInput | PhoneInput | DobInput | OtherInput

  function InputNamed(name: string): Input {
    match name
    case "fullName" => FullNameInput
    case "username" => UsernameInput
    case "email" => EmailInput
    case "password" => PasswordInput
    case "confirmPassword" => ConfirmInput
    case "phone" => PhoneInput
    case "dob" => DobInput
    case _ => OtherInput
  }

  /**
   * Whether an input's value passes the check the blur handler applies to it;
   * the confirmation passes when the password input is missing, and inputs
   * with other names are not checked.
   */
  function Passes(input: Input, value: string, password: Option<string>,
                  parsedDob: Option<Date>, today: Date): bool {
    match input
    case FullNameInput => ValidateFullName(value)
    case UsernameInput => ValidateUsername(value)
    case EmailInput => Email.ValidateEmail(value)
    case PasswordInput => ValidatePassword(value)
    case ConfirmInput => password.None? || ValidatePasswordsMatch(password.value, value)
    case PhoneInput => ValidatePhoneNumber(value)
    case DobInput => ValidateDateOfBirth(parsedDob, today)
    case OtherInput => true
  }

  /**
   * The blur handler for the input named `name`: the field is marked when its
   * value fails its check and is not blank. `password` is the password
   * input's value, `None` when that input is missing; `parsedDob` is `value`
   * parsed as a date.
   */
  function BlurMarks(name: string, value: string, password: Option<string>,
                     parsedDob: Option<Date>, today: Date): (marked: bool)
    ensures marked <==> Trim(value) != "" && !Passes(InputNamed(name), value, password, parsedDob, today)
  {
    var blank := Trim(value) == "";
    match name
    case "fullName" => !ValidateFullName(value) && !blank
    case "username" => !ValidateUsername(value) && !blank
    case "email" => !Email.ValidateEmail(value) && !blank
    case "password" => !ValidatePassword(value) && !blank
    case "confirmPassword" =>
      password.Some? && !ValidatePasswordsMatch(password.value, value) && !blank
    case "phone" => !ValidatePhoneNumber(value) && !blank
    case "dob" => !ValidateDateOfBirth(parsedDob, today) && !blank
    case _ => false
  }
}
