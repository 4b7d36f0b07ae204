/**
 * The input validators: an e-mail shape check (a regular expression run
 * with `re.match`), a password length check, a name length check on the
 * whitespace-stripped name, and a builder of the ordered list of errors for
 * a registration payload.
 */
module Validators {
  import opened Wrappers

  const NameErrorMessage: string := "Name must be at least 2 characters long"
  const EmailErrorMessage: string := "Invalid email format"
  const PasswordErrorMessage: string := "Password must be at least 8 characters long"
  const NotADictMessage: string := "Input data must be a dictionary"

  // ------------------------------------------------------------------
  // E-mail: ^[a-zA-Z0-9._%+-]+@[a-zA-Z0-9.-]+\.[a-zA-Z]{2,}$

  predicate IsAsciiLetter(c: char) { 'a' <= c <= 'z' || 'A' <= c <= 'Z' }

  predicate IsAsciiDigit(c: char) { '0' <= c <= '9' }

  /** `[a-zA-Z0-9._%+-]` */
  predicate IsLocalChar(c: char) {
    IsAsciiLetter(c) || IsAsciiDigit(c) || c == '.' || c == '_' || c == '%' || c == '+' || c == '-'
  }

  /** `[a-zA-Z0-9.-]` */
  predicate IsDomainChar(c: char) {
    IsAsciiLetter(c) || IsAsciiDigit(c) || c == '.' || c == '-'
  }

  predicate LocalPart(s: string) {
    |s| >= 1 && forall k | 0 <= k < |s| :: IsLocalChar(s[k])
  }

  predicate DomainPart(s: string) {
    |s| >= 1 && forall k | 0 <= k < |s| :: IsDomainChar(s[k])
  }

  /** `[a-zA-Z]{2,}` */
  predicate TopLevelPart(s: string) {
    |s| >= 2 && forall k | 0 <= k < |s| :: IsAsciiLetter(s[k])
  }

  /** `s` reads as local part, `@` at `at`, domain, `.` at `dot`, top-level part. */
  predicate SplitsAt(s: string, at: int, dot: int) {
    && 0 <= at < dot < |s|
    && s[at] == '@' && s[dot] == '.'
    && LocalPart(s[..at]) && DomainPart(s[at + 1..dot]) && TopLevelPart(s[dot + 1..])
  }

  /** The whole of `s` matches the pattern between `^` and `$`. */
  predicate MatchesEmailPattern(s: string) {
    exists at, dot | 0 <= at < dot < |s| :: SplitsAt(s, at, dot)
  }

  /**
   * `re.match` anchors at the start; Python's `$` matches at the end of the
   * string or just before one final newline, so one trailing `\n` passes.
   */
  predicate ValidateEmail(email: string) {
    || MatchesEmailPattern(email)
    || (|email| > 0 && email[|email| - 1] == '\n' && MatchesEmailPattern(email[..|email| - 1]))
  }

  /** Where `c` first occurs in `s`, or `|s|`. */
  function IndexOf(s: string, c: char): (k: nat)
    ensures k <= |s|
    ensures k < |s| ==> s[k] == c
    ensures forall m | 0 <= m < k :: s[m] != c
  {
    if s == [] then 0
    else if s[0] == c then 0
    else 1 + IndexOf(s[1..], c)
  }

  /** Where `c` last occurs in `s`, or -1. */
  function LastIndexOf(s: string, c: char): (k: int)
    ensures -1 <= k < |s|
    ensures 0 <= k ==> s[k] == c
    ensures forall m | k < m < |s| :: s[m] != c
  {
    if s == [] then -1
    else if s[|s| - 1] == c then |s| - 1
    else LastIndexOf(s[..|s| - 1], c)
  }

  /** A one-pass reading of the pattern: split at the first `@` and at the last `.`. */
  predicate EmailShape(s: string) {
    var at := IndexOf(s, '@');
    var dot := LastIndexOf(s, '.');
    at < dot && SplitsAt(s, at, dot)
  }

  /**
   * The pattern can only split at the first `@` and the last `.`: no part
   * may hold an `@`, and the top-level part holds no `.`.  So the
   * backtracking match and the one-pass reading accept the same strings.
   */
  lemma EmailShapeMatchesPattern(s: string)
    ensures EmailShape(s) <==> MatchesEmailPattern(s)
  {
    if MatchesEmailPattern(s) {
      var at, dot :| 0 <= at < dot < |s| && SplitsAt(s, at, dot);
      assert forall k | 0 <= k < at :: s[k] == s[..at][k];
      assert forall k | dot < k < |s| :: s[k] == s[dot + 1..][k - dot - 1];
      assert IndexOf(s, '@') == at && LastIndexOf(s, '.') == dot;
    }
  }

  function CountOf(s: string, c: char): nat {
    if s == [] then 0 else (if s[0] == c then 1 else 0) + CountOf(s[1..], c)
  }

  lemma {:induction false} CountOfConcat(a: string, b: string, c: char)
    ensures CountOf(a + b, c) == CountOf(a, c) + CountOf(b, c)
  {
    if a != [] {
      assert (a + b)[1..] == a[1..] + b;
      CountOfConcat(a[1..], b, c);
    } else {
      assert a + b == b;
    }
  }

  lemma {:induction false} CountOfAbsent(s: string, c: char)
    requires forall k | 0 <= k < |s| :: s[k] != c
    ensures CountOf(s, c) == 0
  {
    if s != [] {
      CountOfAbsent(s[1..], c);
    }
  }

  lemma PatternHasOneAt(s: string)
    requires MatchesEmailPattern(s)
    ensures CountOf(s, '@') == 1
  {
    var at, dot :| 0 <= at < dot < |s| && SplitsAt(s, at, dot);
    var local, domain, top := s[..at], s[at + 1..dot], s[dot + 1..];
    assert s == local + [s[at]] + domain + [s[dot]] + top;
    CountOfAbsent(local, '@');
    CountOfAbsent(domain, '@');
    CountOfAbsent(top, '@');
    CountOfConcat(local, [s[at]], '@');
    CountOfConcat(local + [s[at]], domain, '@');
    CountOfConcat(local + [s[at]] + domain, [s[dot]], '@');
    CountOfConcat(local + [s[at]] + domain + [s[dot]], top, '@');
  }

  /** Every accepted address, trailing newline or not, holds exactly one `@`. */
  lemma ValidEmailHasOneAt(email: string)
    requires ValidateEmail(email)
    ensures CountOf(email, '@') == 1
  {
    if MatchesEmailPattern(email) {
      PatternHasOneAt(email);
    } else {
      var body := email[..|email| - 1];
      PatternHasOneAt(body);
      assert email == body + "\n";
      CountOfConcat(body, "\n", '@');
    }
  }

  /**
   * Exactly one trailing newline is tolerated: `s + "\n"` is accepted
   * precisely when `s` itself matches the pattern, and a match never ends in
   * a newline.
   */
  lemma ValidateEmailTrailingNewline(s: string)
    ensures ValidateEmail(s + "\n") <==> MatchesEmailPattern(s)
    ensures MatchesEmailPattern(s) ==> ValidateEmail(s) && s[|s| - 1] != '\n'
  {
    var t := s + "\n";
    assert t[..|t| - 1] == s;
    forall k | 1 <= k < |t|
      ensures !TopLevelPart(t[k..])
    {
      assert t[k..][|t| - k - 1] == '\n';
    }
    if MatchesEmailPattern(s) {
      var at, dot :| 0 <= at < dot < |s| && SplitsAt(s, at, dot);
      assert s[dot + 1..][|s| - dot - 2] == s[|s| - 1];
    }
  }

  // ------------------------------------------------------------------
  // Password and name

  predicate ValidatePassword(password: string) {
    |password| >= 8
  }

  /** Python's `str.isspace`, the characters `str.strip()` removes. */
  predicate IsSpace(c: char) {
    || ('\U{0009}' <= c <= '\U{000D}') || ('\U{001C}' <= c <= '\U{0020}')
    || c == '\U{0085}' || c == '\U{00A0}' || c == '\U{1680}'
    || ('\U{2000}' <= c <= '\U{200A}') || c == '\U{2028}' || c == '\U{2029}'
    || c == '\U{202F}' || c == '\U{205F}' || c == '\U{3000}'
  }

  // `str.strip(chars)`, for any test `drop` of the characters to remove.

  /** How many characters at the start of `s` are to be removed. */
  function LeadingRun(s: string, drop: char -> bool): (n: nat)
    ensures n <= |s|
    ensures forall k | 0 <= k < n :: drop(s[k])
    ensures n < |s| ==> !drop(s[n])
  {
    if s != [] && drop(s[0]) then 1 + LeadingRun(s[1..], drop) else 0
  }

  /** Where the run of characters to be removed at the end of `s` begins. */
  function TrailingStart(s: string, drop: char -> bool): (m: nat)
    ensures m <= |s|
    ensures forall k | m <= k < |s| :: drop(s[k])
    ensures 0 < m ==> !drop(s[m - 1])
  {
    if s != [] && drop(s[|s| - 1]) then TrailingStart(s[..|s| - 1], drop) else |s|
  }

  /** Removes the characters `drop` holds of from both ends. */
  function StripBy(s: string, drop: char -> bool): (r: string)
    ensures |r| <= |s|
    ensures r != [] ==> !drop(r[0]) && !drop(r[|r| - 1])
  {
    var a := LeadingRun(s, drop);
    var b := TrailingStart(s, drop);
    if b <= a then [] else s[a..b]
  }

  /**
   * What is left is the slice of `s` between a run of leading and a run of
   * trailing removed characters.
   */
  lemma StripBySlice(s: string, drop: char -> bool) returns (a: nat)
    ensures a + |StripBy(s, drop)| <= |s| && StripBy(s, drop) == s[a..a + |StripBy(s, drop)|]
    ensures forall k | 0 <= k < a :: drop(s[k])
    ensures forall k | a + |StripBy(s, drop)| <= k < |s| :: drop(s[k])
  {
    a := LeadingRun(s, drop);
    var b := TrailingStart(s, drop);
    if b <= a {
      assert forall k | 0 <= k < |s| :: drop(s[k]);
      a := |s|;
    }
  }

  lemma StripByIdempotent(s: string, drop: char -> bool)
    ensures StripBy(StripBy(s, drop), drop) == StripBy(s, drop)
  {
    var r := StripBy(s, drop);
    if r != [] {
      assert LeadingRun(r, drop) == 0;
      assert TrailingStart(r, drop) == |r|;
    }
  }

  /** `str.strip()` with no argument removes whitespace. */
  function Strip(s: string): string {
    StripBy(s, IsSpace)
  }

  predicate ValidateName(name: string) {
    |Strip(name)| >= 2
  }

  /** A name is accepted exactly when it holds two non-whitespace characters. */
  lemma ValidateNameSpec(name: string)
    ensures ValidateName(name) <==>
      exists i, j | 0 <= i < j < |name| :: !IsSpace(name[i]) && !IsSpace(name[j])
  {
    var r := Strip(name);
    var a := StripBySlice(name, IsSpace);
    if |r| >= 2 {
      assert r[0] == name[a] && r[|r| - 1] == name[a + |r| - 1];
    }
    if i, j :| 0 <= i < j < |name| && !IsSpace(name[i]) && !IsSpace(name[j]) {
      assert a <= i && j < a + |r|;
    }
  }

  // ------------------------------------------------------------------
  // The registration payload

  /** The payload: a dictionary of string fields, or any other value. */
  datatype Payload = Dict(fields: map<string, string>) | NotADict

  /** `data.get(key, '')` */
  function Field(fields: map<string, string>, key: string): string {
    if key in fields then fields[key] else ""
  }

  /** The position of each error in the fixed order name, email, password. */
  function ErrorRank(message: string): nat {
    if message == NameErrorMessage then 0
    else if message == EmailErrorMessage then 1
    else if message == PasswordErrorMessage then 2
    else 3
  }

  /** One check: a failing field adds its message to the errors so far. */
  function Report(errors: seq<string>, ok: bool, message: string): seq<string> {
    if ok then errors else errors + [message]
  }

  /** The errors reported for the three verdicts, in the order they are checked. */
  function ErrorList(nameOk: bool, emailOk: bool, passwordOk: bool): seq<string> {
    Report(Report(Report([], nameOk, NameErrorMessage), emailOk, EmailErrorMessage), passwordOk, PasswordErrorMessage)
  }

  /**
   * Each message is reported exactly when its field fails, every message is
   * one of the three, they come in rank order without repeats, and the list
   * is empty exactly when every field passes.
   */
  lemma ErrorListSpec(nameOk: bool, emailOk: bool, passwordOk: bool)
    ensures var errors := ErrorList(nameOk, emailOk, passwordOk);
      && (NameErrorMessage in errors <==> !nameOk)
      && (EmailErrorMessage in errors <==> !emailOk)
      && (PasswordErrorMessage in errors <==> !passwordOk)
      && (forall i | 0 <= i < |errors| :: ErrorRank(errors[i]) < 3)
      && (forall i, j | 0 <= i < j < |errors| :: ErrorRank(errors[i]) < ErrorRank(errors[j]))
      && (errors == [] <==> nameOk && emailOk && passwordOk)
  {
    assert NameErrorMessage[0] == 'N' && EmailErrorMessage[0] == 'I' && PasswordErrorMessage[0] == 'P';
    assert ErrorRank(NameErrorMessage) == 0;
    assert ErrorRank(EmailErrorMessage) == 1;
    assert ErrorRank(PasswordErrorMessage) == 2;
  }

  /**
   * The tests on the stripped fields agree with the validators on the raw
   * fields: an empty value fails its validator anyway, and stripping twice
   * changes nothing.
   */
  lemma FieldTests(name: string, email: string, password: string)
    ensures (|Strip(name)| == 0 || !ValidateName(Strip(name))) == !ValidateName(name)
    ensures (|email| == 0 || !ValidateEmail(email)) == !ValidateEmail(email)
    ensures (|password| == 0 || !ValidatePassword(password)) == !ValidatePassword(password)
  {
    StripByIdempotent(name, IsSpace);
    assert ValidateName(Strip(name)) == ValidateName(name);
    if |email| == 0 {
      assert !MatchesEmailPattern(email);
    }
  }

  /**
   * Appends one error per failing field, name first, then email, then
   * password.  The name and email are stripped first, the password is not;
   * a value that is not a dictionary is an error.
   */
  method ValidateUserData(data: Payload) returns (result: Result<seq<string>, string>)
    ensures data.NotADict? <==> result.Failure?
    ensures result.Failure? ==> result.error == NotADictMessage
    ensures result.Success? ==>
      result.value == ErrorList(
        ValidateName(Field(data.fields, "name")),
        ValidateEmail(Strip(Field(data.fields, "email"))),
        ValidatePassword(Field(data.fields, "password")))
  {
    if data.NotADict? {
      return Failure(NotADictMessage);
    }
    var name := Strip(Field(data.fields, "name"));
    var email := Strip(Field(data.fields, "email"));
    var password := Field(data.fields, "password");
    FieldTests(Field(data.fields, "name"), email, password);
    var errors: seq<string> := [];
    ghost var before := errors;
    if |name| == 0 || !ValidateName(name) {
      errors := errors + [NameErrorMessage];
    }
    assert errors == Report(before, ValidateName(Field(data.fields, "name")), NameErrorMessage);
    before := errors;
    if |email| == 0 || !ValidateEmail(email) {
      errors := errors + [EmailErrorMessage];
    }
    assert errors == Report(before, ValidateEmail(email), EmailErrorMessage);
    before := errors;
    if |password| == 0 || !ValidatePassword(password) {
      errors := errors + [PasswordErrorMessage];
    }
    assert errors == Report(before, ValidatePassword(password), PasswordErrorMessage);
    return Success(errors);
  }

  /** The module-level wrapper: a dictionary whose three fields all pass. */
  method UserDataIsValid(data: Payload) returns (valid: bool)
    ensures valid <==>
      && data.Dict?
      && ValidateName(Field(data.fields, "name"))
      && ValidateEmail(Strip(Field(data.fields, "email")))
      && ValidatePassword(Field(data.fields, "password"))
  {
    var result := ValidateUserData(data);
    match result
    case Failure(_) =>
      valid := false;
    case Success(errors) =>
      ErrorListSpec(
        ValidateName(Field(data.fields, "name")),
        ValidateEmail(Strip(Field(data.fields, "email"))),
        ValidatePassword(Field(data.fields, "password")));
      valid := |errors| == 0;
  }
}
