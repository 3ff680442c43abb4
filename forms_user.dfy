/** The settings forms of app/forms/user.py: their declared validator lists
    and the `validate_username` methods, as predicates over the submitted
    strings, the current user's username and the usernames already taken. */
module UserForms {
  import opened Text
  import opened Validators

  const NameChecks: seq<Check> := [DataRequired, Length(1, 30)]
  const WebsiteChecks: seq<Check> := [Optional, Length(0, 250)]
  const LocationChecks: seq<Check> := [Optional, Length(0, 50)]
  const BioChecks: seq<Check> := [Optional, Length(0, 250)]

  /** The username field exactly as declared: Python's `re.match` lets a
      final newline through the `$` anchor. */
  function UsernameChecksAsWritten(available: bool): seq<Check> {
    [DataRequired, Length(1, 30), AlnumRegexp, Inline(available)]
  }

  /** The username field as its message ('Only a-z A-Z 0-9') says it is
      meant: the pattern must cover the whole string. */
  function UsernameChecks(available: bool): seq<Check> {
    [DataRequired, Length(1, 30), AlnumFullMatch, Inline(available)]
  }

  /** `EditProfileForm.validate_username` passes: the username is kept, or
      nobody holds the new one. */
  predicate UsernameAvailable(data: string, current: string, taken: set<string>) {
    data == current || data !in taken
  }

  datatype ProfileForm = ProfileForm(name: string, username: string, website: string,
                                     location: string, bio: string)

  /** `EditProfileForm().validate()` for the user whose username is `current`,
      with the username field as declared. */
  predicate EditProfileValid(f: ProfileForm, current: string, taken: set<string>) {
    && FieldValid(f.name, NameChecks)
    && FieldValid(f.username, UsernameChecksAsWritten(UsernameAvailable(f.username, current, taken)))
    && FieldValid(f.website, WebsiteChecks)
    && FieldValid(f.location, LocationChecks)
    && FieldValid(f.bio, BioChecks)
  }

  lemma AlnumNotBlank(s: string)
    requires s != [] && AllAlnum(s)
    ensures !Blank(s)
  {
    assert AsciiAlnum(s[0]);
  }

  /** The name is required and 1..30 characters long, not all whitespace. */
  lemma NameRule(name: string)
    ensures FieldValid(name, NameChecks) <==> !Blank(name) && 1 <= |name| <= 30
  {
    Required1(name, Length(1, 30));
  }

  /** An optional field of at most `max` characters: blank input (including
      the empty string) passes, anything else must fit. */
  lemma OptionalRule(data: string, max: nat)
    ensures FieldValid(data, [Optional, Length(0, max)]) <==> Blank(data) || |data| <= max
    ensures FieldValid([], [Optional, Length(0, max)])
  {
    Optional1(data, Length(0, max));
    Optional1([], Length(0, max));
  }

  /** The declared username field: 1..30 characters, ASCII letters or digits
      with at most one final newline (but not the newline alone), and either
      the current username or held by nobody. */
  lemma UsernameRuleAsWritten(u: string, current: string, taken: set<string>)
    ensures FieldValid(u, UsernameChecksAsWritten(UsernameAvailable(u, current, taken))) <==>
              1 <= |u| <= 30 && RegexpMatches(u) && u != "\n" && (u == current || u !in taken)
  {
    Required3(u, Length(1, 30), AlnumRegexp, Inline(UsernameAvailable(u, current, taken)));
    if 1 <= |u| && RegexpMatches(u) { MatchBlankIffNewline(u); }
  }

  /** Among the strings the pattern matches, only the lone newline is blank. */
  lemma MatchBlankIffNewline(u: string)
    requires 1 <= |u| && RegexpMatches(u)
    ensures Blank(u) <==> u == "\n"
  {
    if u == "\n" {
      assert AllSpace(u) by { assert IsSpace(u[0]); }
    } else {
      assert AsciiAlnum(u[0]) by {
        if !AllAlnum(u) { assert u[..|u| - 1][0] == u[0]; }
      }
      assert !IsSpace(u[0]);
    }
  }

  /** The username as its message says it is meant: 1..30 ASCII letters or
      digits, and either the current one or held by nobody. */
  lemma UsernameRule(u: string, current: string, taken: set<string>)
    ensures FieldValid(u, UsernameChecks(UsernameAvailable(u, current, taken))) <==>
              1 <= |u| <= 30 && AllAlnum(u) && (u == current || u !in taken)
  {
    Required3(u, Length(1, 30), AlnumFullMatch, Inline(UsernameAvailable(u, current, taken)));
    if 1 <= |u| && AllAlnum(u) { AlnumNotBlank(u); }
  }

  /** Keeping one's own username never trips the uniqueness check, even
      though that username is among the taken ones. */
  lemma KeepUsernamePasses(current: string, taken: set<string>)
    requires 1 <= |current| <= 30 && RegexpMatches(current) && current != "\n"
    ensures FieldValid(current, UsernameChecksAsWritten(UsernameAvailable(current, current, taken)))
  {
    UsernameRuleAsWritten(current, current, taken);
  }

  /** The whole EditProfileForm as declared, field by field. */
  lemma EditProfileRule(f: ProfileForm, current: string, taken: set<string>)
    ensures EditProfileValid(f, current, taken) <==>
              && !Blank(f.name) && 1 <= |f.name| <= 30
              && 1 <= |f.username| <= 30 && RegexpMatches(f.username) && f.username != "\n"
              && (f.username == current || f.username !in taken)
              && (Blank(f.website) || |f.website| <= 250)
              && (Blank(f.location) || |f.location| <= 50)
              && (Blank(f.bio) || |f.bio| <= 250)
  {
    NameRule(f.name);
    UsernameRuleAsWritten(f.username, current, taken);
    OptionalRule(f.website, 250);
    OptionalRule(f.location, 50);
    OptionalRule(f.bio, 250);
  }

  /** As declared, the username field accepts "abc" followed by a newline. */
  lemma TrailingNewlineAccepted()
    ensures FieldValid("abc\n", UsernameChecksAsWritten(true))
    ensures !AllAlnum("abc\n")
  {
    var u := "abc\n";
    assert !IsSpace(u[0]);
    assert !Blank(u);
    assert AllAlnum(u[..|u| - 1]);
    Required3(u, Length(1, 30), AlnumRegexp, Inline(true));
    assert !AsciiAlnum(u[3]);
  }

  /** `ChangeEmailForm`: required, 1..50 characters, and well formed for
      the e-mail syntax check `isEmail` (WTForms' `Email()`). */
  function EmailChecks(data: string, isEmail: string -> bool): seq<Check> {
    [DataRequired, Length(1, 50), Email(isEmail(data))]
  }

  predicate ChangeEmailValid(email: string, isEmail: string -> bool) {
    FieldValid(email, EmailChecks(email, isEmail))
  }

  lemma ChangeEmailRule(email: string, isEmail: string -> bool)
    ensures ChangeEmailValid(email, isEmail) <==>
              !Blank(email) && 1 <= |email| <= 50 && isEmail(email)
  {
    Required2(email, Length(1, 50), Email(isEmail(email)));
  }

  datatype PasswordForm = PasswordForm(oldPassword: string, password: string, password2: string)

  /** `ChangePasswordForm().validate()`. */
  predicate ChangePasswordValid(f: PasswordForm) {
    && FieldValid(f.oldPassword, [DataRequired])
    && FieldValid(f.password, [DataRequired, Length(8, 128), EqualTo(f.password2)])
    && FieldValid(f.password2, [DataRequired, Length(8, 128)])
  }

  /** The new password is 8..128 characters, not blank, and typed twice the
      same; the old password is not blank. */
  lemma ChangePasswordRule(f: PasswordForm)
    ensures ChangePasswordValid(f) <==>
              && !Blank(f.oldPassword)
              && !Blank(f.password) && 8 <= |f.password| <= 128
              && f.password == f.password2
  {
    assert [DataRequired] == [DataRequired] + [];
    RequiredChain(f.oldPassword, []);
    Required2(f.password, Length(8, 128), EqualTo(f.password2));
    Required1(f.password2, Length(8, 128));
  }

  /** `DeleteAccountForm` exactly as declared: `Length(1, 20)`. */
  function DeleteAccountChecksAsWritten(typed: string, current: string): seq<Check> {
    [DataRequired, Length(1, 20), Inline(typed == current)]
  }

  /** `DeleteAccountForm` with the length bound of the usernames that
      EditProfileForm lets a user choose. */
  function DeleteAccountChecks(typed: string, current: string): seq<Check> {
    [DataRequired, Length(1, 30), Inline(typed == current)]
  }

  predicate DeleteAccountValidAsWritten(typed: string, current: string) {
    FieldValid(typed, DeleteAccountChecksAsWritten(typed, current))
  }

  predicate DeleteAccountValid(typed: string, current: string) {
    FieldValid(typed, DeleteAccountChecks(typed, current))
  }

  lemma DeleteAccountRuleAsWritten(typed: string, current: string)
    ensures DeleteAccountValidAsWritten(typed, current) <==>
              typed == current && !Blank(typed) && 1 <= |typed| <= 20
  {
    Required2(typed, Length(1, 20), Inline(typed == current));
  }

  /** The account is deleted only when the typed username is exactly the
      current one (and fits the field). */
  lemma DeleteAccountRule(typed: string, current: string)
    ensures DeleteAccountValid(typed, current) <==>
              typed == current && !Blank(typed) && 1 <= |typed| <= 30
  {
    Required2(typed, Length(1, 30), Inline(typed == current));
  }

  /** As declared, a user who picked a 21-character username on the profile
      page can never confirm the deletion of their account. */
  lemma LongUsernameCannotDelete()
    ensures var u := "abcdefghijklmnopqrstu";
            FieldValid(u, UsernameChecksAsWritten(true)) && !DeleteAccountValidAsWritten(u, u)
  {
    var u := "abcdefghijklmnopqrstu";
    assert AllAlnum(u);
    UsernameRuleAsWritten(u, u, {});
    DeleteAccountRuleAsWritten(u, u);
  }

  /** With the corrected bound, every username the profile form accepts can
      be typed to delete its account. */
  lemma ProfileUsernameCanDelete(u: string, available: bool)
    requires FieldValid(u, UsernameChecks(available))
    ensures DeleteAccountValid(u, u)
  {
    Required3(u, Length(1, 30), AlnumFullMatch, Inline(available));
    DeleteAccountRule(u, u);
  }
}
