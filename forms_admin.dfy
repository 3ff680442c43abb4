/** `EditProfileAdminForm` of app/forms/admin.py: the profile form's fields
    (inherited), an e-mail field, the role select whose choices are built
    from the role table at construction, and the two `validate_*` methods,
    which compare against the user being edited rather than the caller. */
module AdminForms {
  import opened Text
  import opened Validators
  import opened UserForms

  /** A row of the role table. */
  datatype Role = Role(id: int, name: string)

  type Choice = (int, string)

  predicate SortedByName(cs: seq<Choice>) {
    forall i, j :: 0 <= i < j < |cs| ==> LexLe(cs[i].1, cs[j].1)
  }

  /** The `(role.id, role.name)` pairs of the rows, in table order. */
  function Pairs(roles: seq<Role>): (ps: seq<Choice>)
    ensures |ps| == |roles|
    ensures forall i :: 0 <= i < |roles| ==> ps[i] == (roles[i].id, roles[i].name)
  {
    if roles == [] then [] else [(roles[0].id, roles[0].name)] + Pairs(roles[1..])
  }

  function InsertByName(x: Choice, cs: seq<Choice>): (r: seq<Choice>)
    ensures multiset(r) == multiset(cs) + multiset{x}
  {
    if cs == [] then [x]
    else if LexLe(x.1, cs[0].1) then [x] + cs
    else
      var rest := InsertByName(x, cs[1..]);
      assert cs == [cs[0]] + cs[1..];
      [cs[0]] + rest
  }

  /** Putting in front an entry that sorts before every entry keeps the order. */
  lemma {:induction false} ConsSorted(x: Choice, cs: seq<Choice>)
    requires SortedByName(cs)
    requires forall k :: 0 <= k < |cs| ==> LexLe(x.1, cs[k].1)
    ensures SortedByName([x] + cs)
  {
    var r := [x] + cs;
    forall i, j | 0 <= i < j < |r| ensures LexLe(r[i].1, r[j].1) {
      if i == 0 {
        assert r[j] == cs[j - 1];
      } else {
        assert r[i] == cs[i - 1] && r[j] == cs[j - 1];
      }
    }
  }

  lemma {:induction false} TailSorted(cs: seq<Choice>)
    requires cs != [] && SortedByName(cs)
    ensures SortedByName(cs[1..])
    ensures forall k :: 0 <= k < |cs[1..]| ==> LexLe(cs[0].1, cs[1..][k].1)
  {
    var tail := cs[1..];
    assert forall k :: 0 <= k < |tail| ==> tail[k] == cs[k + 1];
  }

  lemma {:induction false} InsertKeepsSorted(x: Choice, cs: seq<Choice>)
    requires SortedByName(cs)
    ensures SortedByName(InsertByName(x, cs))
    decreases |cs|
  {
    if cs == [] {
    } else if LexLe(x.1, cs[0].1) {
      TailSorted(cs);
      forall k | 0 <= k < |cs| ensures LexLe(x.1, cs[k].1) {
        if k > 0 {
          assert cs[k] == cs[1..][k - 1];
          LexLeTransitive(x.1, cs[0].1, cs[k].1);
        }
      }
      ConsSorted(x, cs);
    } else {
      LexLeTotal(x.1, cs[0].1);
      var tail := cs[1..];
      TailSorted(cs);
      InsertKeepsSorted(x, tail);
      var rest := InsertByName(x, tail);
      forall k | 0 <= k < |rest| ensures LexLe(cs[0].1, rest[k].1) {
        assert rest[k] in multiset(rest);
        if rest[k] != x {
          assert rest[k] in multiset(tail);
          var m :| 0 <= m < |tail| && tail[m] == rest[k];
        }
      }
      ConsSorted(cs[0], rest);
    }
  }

  /** `role.choices`: exactly the `(id, name)` pairs of all roles, ordered by
      name (`Role.query.order_by(Role.name)`); the order among equal names
      is left open, as SQL leaves it. */
  function RoleChoices(roles: seq<Role>): (choices: seq<Choice>)
    ensures SortedByName(choices)
    ensures multiset(choices) == multiset(Pairs(roles))
  {
    if roles == [] then []
    else
      var rest := RoleChoices(roles[1..]);
      InsertKeepsSorted((roles[0].id, roles[0].name), rest);
      assert Pairs(roles) == [(roles[0].id, roles[0].name)] + Pairs(roles[1..]);
      InsertByName((roles[0].id, roles[0].name), rest)
  }

  /** `EditProfileAdminForm.validate_email` passes: the address is exactly
      the edited user's, or no stored address equals its lower-cased form. */
  predicate EmailAvailable(data: string, edited: string, taken: set<string>) {
    data == edited || Lower(data) !in taken
  }

  function AdminEmailChecks(data: string, edited: string, taken: set<string>,
                            isEmail: string -> bool): seq<Check> {
    [DataRequired, Length(1, 50), Email(isEmail(data)), Inline(EmailAvailable(data, edited, taken))]
  }

  datatype AdminProfileForm = AdminProfileForm(profile: ProfileForm, email: string, role: int,
                                               active: bool, confirmed: bool)

  /** `coerce=int` select: the submitted id must be one of the choices. */
  predicate RoleIsChoice(role: int, choices: seq<Choice>) {
    exists k :: 0 <= k < |choices| && choices[k].0 == role
  }

  /** `EditProfileAdminForm(user).validate()`, where `user` has username
      `editedUsername` and e-mail `editedEmail`. The username check is the
      admin class's own `validate_username`, which overrides the inherited
      one and compares against the edited user. */
  predicate EditProfileAdminValid(f: AdminProfileForm, editedUsername: string, editedEmail: string,
                                  usernames: set<string>, emails: set<string>,
                                  choices: seq<Choice>, isEmail: string -> bool) {
    && FieldValid(f.profile.name, NameChecks)
    && FieldValid(f.profile.username,
                  UsernameChecksAsWritten(UsernameAvailable(f.profile.username, editedUsername, usernames)))
    && FieldValid(f.profile.website, WebsiteChecks)
    && FieldValid(f.profile.location, LocationChecks)
    && FieldValid(f.profile.bio, BioChecks)
    && FieldValid(f.email, AdminEmailChecks(f.email, editedEmail, emails, isEmail))
    && RoleIsChoice(f.role, choices)
  }

  /** The admin username check: an unchanged username passes; a changed one
      fails iff some user already holds it. */
  lemma AdminUsernameRule(u: string, edited: string, usernames: set<string>)
    requires 1 <= |u| <= 30 && RegexpMatches(u) && u != "\n"
    ensures u == edited ==> FieldValid(u, UsernameChecksAsWritten(UsernameAvailable(u, edited, usernames)))
    ensures u != edited ==>
              (FieldValid(u, UsernameChecksAsWritten(UsernameAvailable(u, edited, usernames))) <==> u !in usernames)
  {
    UsernameRuleAsWritten(u, edited, usernames);
  }

  /** The admin e-mail field: required, 1..50 characters, well formed, and
      either exactly unchanged or not held (lower-cased) by anyone. */
  lemma AdminEmailRule(e: string, edited: string, emails: set<string>, isEmail: string -> bool)
    ensures FieldValid(e, AdminEmailChecks(e, edited, emails, isEmail)) <==>
              && !Blank(e) && 1 <= |e| <= 50 && isEmail(e)
              && (e == edited || Lower(e) !in emails)
  {
    Required3(e, Length(1, 50), Email(isEmail(e)), Inline(EmailAvailable(e, edited, emails)));
  }

  /** Changing only the letter case of one's own lower-case address is
      refused: the lower-cased input is found, and it is not "unchanged". */
  lemma CaseOnlyChangeRefused(isEmail: string -> bool)
    ensures !FieldValid("A@b", AdminEmailChecks("A@b", "a@b", {"a@b"}, isEmail))
  {
    var e := "A@b";
    var low := Lower(e);
    assert low == "a@b" by {
      assert LowerChar('A') == 'a' && LowerChar('@') == '@' && LowerChar('b') == 'b';
      assert low == [LowerChar(e[0]), LowerChar(e[1]), LowerChar(e[2])];
    }
    assert e != "a@b" by { assert e[0] != 'a'; }
    AdminEmailRule(e, "a@b", {"a@b"}, isEmail);
  }

  /** The admin form is the profile form (checked against the edited user),
      plus the e-mail field and a role among the choices. */
  lemma AdminFormInheritsProfile(f: AdminProfileForm, editedUsername: string, editedEmail: string,
                                 usernames: set<string>, emails: set<string>,
                                 choices: seq<Choice>, isEmail: string -> bool)
    ensures EditProfileAdminValid(f, editedUsername, editedEmail, usernames, emails, choices, isEmail) <==>
              && EditProfileValid(f.profile, editedUsername, usernames)
              && !Blank(f.email) && 1 <= |f.email| <= 50 && isEmail(f.email)
              && (f.email == editedEmail || Lower(f.email) !in emails)
              && RoleIsChoice(f.role, choices)
  {
    AdminEmailRule(f.email, editedEmail, emails, isEmail);
  }

  /** Every role of the table can be chosen, and nothing else can. */
  lemma RoleChoiceRule(roles: seq<Role>, role: int)
    ensures RoleIsChoice(role, RoleChoices(roles)) <==>
              exists k :: 0 <= k < |roles| && roles[k].id == role
  {
    var cs := RoleChoices(roles);
    var ps := Pairs(roles);
    if RoleIsChoice(role, cs) {
      var k :| 0 <= k < |cs| && cs[k].0 == role;
      assert cs[k] in multiset(ps);
      var m :| 0 <= m < |ps| && ps[m] == cs[k];
      assert roles[m].id == role;
    }
    if exists k :: 0 <= k < |roles| && roles[k].id == role {
      var k :| 0 <= k < |roles| && roles[k].id == role;
      assert ps[k] in multiset(cs);
      var m :| 0 <= m < |cs| && cs[m] == ps[k];
    }
  }
}
