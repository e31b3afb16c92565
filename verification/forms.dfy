/**
 * Form validation (app/auth/forms.py, app/main/forms.py) as the form
 * library runs it: each field runs its validators in order, then the
 * form's inline `validate_<field>` method. A failing "required" check
 * stops the field's chain (so the inline check does not run either); every
 * other failing check adds its message and the chain continues. A form is
 * accepted when no field has an error.
 *
 * The email-format validator is a library; its verdict is an input.
 */
module Forms {
  import opened Wrappers
  import opened Text
  import opened Accounts
  import opened Permissions
  import opened Ordering

  datatype Check =
    | Required(msg: string)
    | Length(min: int, max: int, msg: string)
    | UsernamePattern(msg: string)
    | EmailFormat(ok: bool, msg: string)
    | EqualTo(other: string, msg: string)
    | Rejects(fails: bool, msg: string)

  const RequiredMsg := "This field is required."
  const EmailMsg := "Invalid email address."
  const Length1To64Msg := "Field must be between 1 and 64 characters long."
  const Length0To64Msg := "Field must be between 0 and 64 characters long."
  const UsernameMsg := "Usernames must have only letters, numbers, dots or underscores"
  const ChoiceMsg := "Not a valid choice"

  // ---------------------------------------------------------------- username syntax

  /** `[A-Za-z][A-Za-z0-9_.]*` matches the whole of `s`. */
  predicate UsernameCore(s: string) {
    |s| >= 1 && IsLetter(s[0]) && forall i :: 1 <= i < |s| ==> IsNameChar(s[i])
  }

  /**
   * `re.match('^[A-Za-z][A-Za-z0-9_.]*$', s)` succeeds. Python's `$` also
   * matches just before a single trailing newline, so `"bob\n"` is accepted.
   */
  predicate UsernameMatches(s: string) {
    UsernameCore(s) || (|s| >= 2 && s[|s| - 1] == '\n' && UsernameCore(s[..|s| - 1]))
  }

  /** The regular expression run as a left-to-right scan. */
  method MatchUsername(s: string) returns (ok: bool)
    ensures ok <==> UsernameMatches(s)
  {
    if |s| == 0 || !IsLetter(s[0]) {
      return false;
    }
    var i := 1;
    while i < |s| && IsNameChar(s[i])
      invariant 1 <= i <= |s|
      invariant forall k :: 1 <= k < i ==> IsNameChar(s[k])
    {
      i := i + 1;
    }
    ok := i == |s| || (i == |s| - 1 && s[i] == '\n');
    if !ok {
      assert !UsernameCore(s) by { assert !IsNameChar(s[i]); }
      if |s| >= 2 && s[|s| - 1] == '\n' {
        assert i < |s| - 1;
        assert s[..|s| - 1][i] == s[i];
      }
    }
  }

  // ---------------------------------------------------------------- validator chains

  predicate Passes(data: string, c: Check) {
    match c
    case Required(_) => !IsBlank(data)
    case Length(min, max, _) => min <= |data| && (max == -1 || |data| <= max)
    case UsernamePattern(_) => UsernameMatches(data)
    case EmailFormat(ok, _) => ok
    case EqualTo(other, _) => data == other
    case Rejects(fails, _) => !fails
  }

  /** The errors one field collects. */
  function RunChain(data: string, checks: seq<Check>): (errors: seq<string>)
    ensures |errors| <= |checks|
  {
    if |checks| == 0 then []
    else if checks[0].Required? then
      if IsBlank(data) then [checks[0].msg] else RunChain(data, checks[1..])
    else
      (if Passes(data, checks[0]) then [] else [checks[0].msg]) + RunChain(data, checks[1..])
  }

  /** A field has no errors exactly when every one of its checks passes. */
  lemma {:induction false} RunChainEmptyIff(data: string, checks: seq<Check>)
    ensures RunChain(data, checks) == [] <==> forall i :: 0 <= i < |checks| ==> Passes(data, checks[i])
    decreases |checks|
  {
    if |checks| > 0 {
      RunChainEmptyIff(data, checks[1..]);
      assert forall i :: 1 <= i < |checks| ==> checks[i] == checks[1..][i - 1];
    }
  }

  lemma ChainOfThree(data: string, a: Check, b: Check, c: Check)
    ensures RunChain(data, [a, b, c]) == [] <==> Passes(data, a) && Passes(data, b) && Passes(data, c)
  {
    var cs := [a, b, c];
    RunChainEmptyIff(data, cs);
    assert cs[0] == a && cs[1] == b && cs[2] == c;
  }

  lemma ChainOfFour(data: string, a: Check, b: Check, c: Check, d: Check)
    ensures RunChain(data, [a, b, c, d]) == [] <==> Passes(data, a) && Passes(data, b) && Passes(data, c) && Passes(data, d)
  {
    var cs := [a, b, c, d];
    RunChainEmptyIff(data, cs);
    assert cs[0] == a && cs[1] == b && cs[2] == c && cs[3] == d;
  }

  /** A blank value fails a leading required check with that check's message alone. */
  lemma RequiredStopsChain(data: string, msg: string, rest: seq<Check>)
    requires IsBlank(data)
    ensures RunChain(data, [Required(msg)] + rest) == [msg]
  {
  }

  datatype FieldErrors = FieldErrors(field: string, errors: seq<string>)

  predicate Accepted(fields: seq<FieldErrors>) {
    forall i :: 0 <= i < |fields| ==> fields[i].errors == []
  }

  lemma Accepted1(a: FieldErrors)
    ensures Accepted([a]) <==> a.errors == []
  {
    assert [a][0] == a;
  }

  lemma Accepted2(a: FieldErrors, b: FieldErrors)
    ensures Accepted([a, b]) <==> a.errors == [] && b.errors == []
  {
    var fs := [a, b];
    assert fs[0] == a && fs[1] == b;
  }

  lemma Accepted3(a: FieldErrors, b: FieldErrors, c: FieldErrors)
    ensures Accepted([a, b, c]) <==> a.errors == [] && b.errors == [] && c.errors == []
  {
    var fs := [a, b, c];
    assert fs[0] == a && fs[1] == b && fs[2] == c;
  }

  lemma Accepted4(a: FieldErrors, b: FieldErrors, c: FieldErrors, d: FieldErrors)
    ensures Accepted([a, b, c, d]) <==> a.errors == [] && b.errors == [] && c.errors == [] && d.errors == []
  {
    var fs := [a, b, c, d];
    assert fs[0] == a && fs[1] == b && fs[2] == c && fs[3] == d;
  }

  lemma Accepted5(a: FieldErrors, b: FieldErrors, c: FieldErrors, d: FieldErrors, e: FieldErrors)
    ensures Accepted([a, b, c, d, e]) <==> a.errors == [] && b.errors == [] && c.errors == [] && d.errors == [] && e.errors == []
  {
    var fs := [a, b, c, d, e];
    assert fs[0] == a && fs[1] == b && fs[2] == c && fs[3] == d && fs[4] == e;
  }

  lemma Accepted6(a: FieldErrors, b: FieldErrors, c: FieldErrors, d: FieldErrors, e: FieldErrors, f: FieldErrors)
    ensures Accepted([a, b, c, d, e, f]) <==> a.errors == [] && b.errors == [] && c.errors == [] && d.errors == [] && e.errors == [] && f.errors == []
  {
    var fs := [a, b, c, d, e, f];
    assert fs[0] == a && fs[1] == b && fs[2] == c && fs[3] == d && fs[4] == e && fs[5] == f;
  }

  /** `SelectField`'s check that the submitted value is among the choices. */
  function SelectErrors(value: int, choices: seq<int>): (errors: seq<string>)
    ensures errors == [] <==> value in choices
  {
    if value in choices then [] else [ChoiceMsg]
  }

  // ---------------------------------------------------------------- app/auth/forms.py

  function LoginErrors(email: string, password: string, emailOk: bool): seq<FieldErrors> {
    [ FieldErrors("email", RunChain(email, [Required("Email is required"), EmailFormat(emailOk, "Invalid email address")])),
      FieldErrors("password", RunChain(password, [Required("Password is required")])) ]
  }

  lemma LoginAcceptedIff(email: string, password: string, emailOk: bool)
    ensures Accepted(LoginErrors(email, password, emailOk)) <==> !IsBlank(email) && emailOk && !IsBlank(password)
  {
    var fs := LoginErrors(email, password, emailOk); Accepted2(fs[0], fs[1]);
    RunChainEmptyIff(email, [Required("Email is required"), EmailFormat(emailOk, "Invalid email address")]);
    RunChainEmptyIff(password, [Required("Password is required")]);
  }

  /** An empty login form reports both required-field messages. */
  lemma EmptyLoginMessages(emailOk: bool)
    ensures LoginErrors("", "", emailOk) == [FieldErrors("email", ["Email is required"]), FieldErrors("password", ["Password is required"])]
  {
  }

  datatype Registration = Registration(username: string, email: string, password: string, password2: string)

  function RegistrationErrors(f: Registration, emailOk: bool, users: seq<User>): seq<FieldErrors> {
    [ FieldErrors("username", RunChain(f.username, UsernameChecks(f.username, users))),
      FieldErrors("email", RunChain(f.email, RegistrationEmailChecks(f.email, emailOk, users))),
      FieldErrors("password", RunChain(f.password, [Required("Password is required"), EqualTo(f.password2, "Passwords must match.")])),
      FieldErrors("password2", RunChain(f.password2, [Required("Password match is required")])) ]
  }

  function UsernameChecks(username: string, users: seq<User>): seq<Check> {
    [ Required("Username is required"), Length(1, 64, Length1To64Msg), UsernamePattern(UsernameMsg),
      Rejects(UsernameTaken(users, username), "Username already registered.") ]
  }

  function RegistrationEmailChecks(email: string, emailOk: bool, users: seq<User>): seq<Check> {
    [ Required("Email is required"), Length(1, 64, Length1To64Msg), EmailFormat(emailOk, "Invalid email address"),
      Rejects(EmailTaken(users, email), "Email already registered.") ]
  }

  /** A username the registration and admin forms accept on syntax and length. */
  predicate UsernameSyntaxOk(username: string) {
    !IsBlank(username) && |username| <= 64 && UsernameMatches(username)
  }

  /** `you` passes the username rules, so another user may be called `you`. */
  lemma YouIsAValidUsername()
    ensures UsernameSyntaxOk("you")
  {
    assert UsernameCore("you");
  }

  /** A registration is accepted exactly when every field rule holds and neither the email nor the username is taken. */
  lemma RegistrationAcceptedIff(f: Registration, emailOk: bool, users: seq<User>)
    ensures Accepted(RegistrationErrors(f, emailOk, users)) <==>
      && UsernameSyntaxOk(f.username) && !UsernameTaken(users, f.username)
      && !IsBlank(f.email) && |f.email| <= 64 && emailOk && !EmailTaken(users, f.email)
      && !IsBlank(f.password) && f.password == f.password2
      && !IsBlank(f.password2)
  {
    var fs := RegistrationErrors(f, emailOk, users); Accepted4(fs[0], fs[1], fs[2], fs[3]);
    var u := UsernameChecks(f.username, users);
    ChainOfFour(f.username, u[0], u[1], u[2], u[3]);
    var e := RegistrationEmailChecks(f.email, emailOk, users);
    ChainOfFour(f.email, e[0], e[1], e[2], e[3]);
    RunChainEmptyIff(f.password, [Required("Password is required"), EqualTo(f.password2, "Passwords must match.")]);
    RunChainEmptyIff(f.password2, [Required("Password match is required")]);
  }

  /** An empty registration form reports the four required-field messages. */
  lemma EmptyRegistrationMessages(emailOk: bool, users: seq<User>)
    ensures RegistrationErrors(Registration("", "", "", ""), emailOk, users) ==
      [ FieldErrors("username", ["Username is required"]), FieldErrors("email", ["Email is required"]),
        FieldErrors("password", ["Password is required"]), FieldErrors("password2", ["Password match is required"]) ]
  {
  }

  datatype PasswordChange = PasswordChange(oldPassword: string, password: string, password2: string)

  function ChangePasswordErrors(f: PasswordChange): seq<FieldErrors> {
    [ FieldErrors("old_password", RunChain(f.oldPassword, [Required(RequiredMsg)])),
      FieldErrors("password", RunChain(f.password, [Required(RequiredMsg), EqualTo(f.password2, "Passwords must match")])),
      FieldErrors("password2", RunChain(f.password2, [Required(RequiredMsg)])) ]
  }

  lemma ChangePasswordAcceptedIff(f: PasswordChange)
    ensures Accepted(ChangePasswordErrors(f)) <==>
      !IsBlank(f.oldPassword) && !IsBlank(f.password) && f.password == f.password2 && !IsBlank(f.password2)
  {
    var fs := ChangePasswordErrors(f); Accepted3(fs[0], fs[1], fs[2]);
    RunChainEmptyIff(f.oldPassword, [Required(RequiredMsg)]);
    RunChainEmptyIff(f.password, [Required(RequiredMsg), EqualTo(f.password2, "Passwords must match")]);
    RunChainEmptyIff(f.password2, [Required(RequiredMsg)]);
  }

  function ResetRequestErrors(email: string, emailOk: bool): seq<FieldErrors> {
    [ FieldErrors("email", RunChain(email, [Required(RequiredMsg), EmailFormat(emailOk, EmailMsg)])) ]
  }

  lemma ResetRequestAcceptedIff(email: string, emailOk: bool)
    ensures Accepted(ResetRequestErrors(email, emailOk)) <==> !IsBlank(email) && emailOk
  {
    var fs := ResetRequestErrors(email, emailOk); Accepted1(fs[0]);
    RunChainEmptyIff(email, [Required(RequiredMsg), EmailFormat(emailOk, EmailMsg)]);
  }

  datatype PasswordReset = PasswordReset(email: string, password: string, password2: string)

  function ResetErrors(f: PasswordReset, emailOk: bool, users: seq<User>): seq<FieldErrors> {
    [ FieldErrors("email", RunChain(f.email, ResetEmailChecks(f.email, emailOk, users))),
      FieldErrors("password", RunChain(f.password, [Required(RequiredMsg), EqualTo(f.password2, "Passwords must match")])),
      FieldErrors("password2", RunChain(f.password2, [Required(RequiredMsg)])) ]
  }

  function ResetEmailChecks(email: string, emailOk: bool, users: seq<User>): seq<Check> {
    [ Required(RequiredMsg), EmailFormat(emailOk, EmailMsg), Rejects(!EmailTaken(users, email), "Unknown email address") ]
  }

  /** The reset form refuses an address no user has. */
  lemma ResetAcceptedIff(f: PasswordReset, emailOk: bool, users: seq<User>)
    ensures Accepted(ResetErrors(f, emailOk, users)) <==>
      !IsBlank(f.email) && emailOk && EmailTaken(users, f.email)
      && !IsBlank(f.password) && f.password == f.password2 && !IsBlank(f.password2)
  {
    var fs := ResetErrors(f, emailOk, users); Accepted3(fs[0], fs[1], fs[2]);
    var e := ResetEmailChecks(f.email, emailOk, users);
    ChainOfThree(f.email, e[0], e[1], e[2]);
    RunChainEmptyIff(f.password, [Required(RequiredMsg), EqualTo(f.password2, "Passwords must match")]);
    RunChainEmptyIff(f.password2, [Required(RequiredMsg)]);
  }

  function ChangeEmailErrors(email: string, password: string, emailOk: bool, users: seq<User>): seq<FieldErrors> {
    [ FieldErrors("email", RunChain(email, ChangeEmailChecks(email, emailOk, users))),
      FieldErrors("password", RunChain(password, [Required(RequiredMsg)])) ]
  }

  function ChangeEmailChecks(email: string, emailOk: bool, users: seq<User>): seq<Check> {
    [ Required(RequiredMsg), Length(1, 64, Length1To64Msg), EmailFormat(emailOk, EmailMsg),
      Rejects(EmailTaken(users, email), "Email already registered.") ]
  }

  /** The change-email form refuses an address some user already has. */
  lemma ChangeEmailAcceptedIff(email: string, password: string, emailOk: bool, users: seq<User>)
    ensures Accepted(ChangeEmailErrors(email, password, emailOk, users)) <==>
      !IsBlank(email) && |email| <= 64 && emailOk && !EmailTaken(users, email) && !IsBlank(password)
  {
    var fs := ChangeEmailErrors(email, password, emailOk, users); Accepted2(fs[0], fs[1]);
    var e := ChangeEmailChecks(email, emailOk, users);
    ChainOfFour(email, e[0], e[1], e[2], e[3]);
    RunChainEmptyIff(password, [Required(RequiredMsg)]);
  }

  // ---------------------------------------------------------------- app/main/forms.py

  function EditProfileErrors(name: string, location: string): seq<FieldErrors> {
    [ FieldErrors("name", RunChain(name, [Length(0, 64, Length0To64Msg)])),
      FieldErrors("location", RunChain(location, [Length(0, 64, Length0To64Msg)])) ]
  }

  lemma EditProfileAcceptedIff(name: string, location: string)
    ensures Accepted(EditProfileErrors(name, location)) <==> |name| <= 64 && |location| <= 64
  {
    var fs := EditProfileErrors(name, location); Accepted2(fs[0], fs[1]);
    RunChainEmptyIff(name, [Length(0, 64, Length0To64Msg)]);
    RunChainEmptyIff(location, [Length(0, 64, Length0To64Msg)]);
  }

  datatype AdminEdit = AdminEdit(email: string, username: string, role: int, name: string, location: string)

  /**
   * `EditProfileAdminForm` for the user `edited`: an email or username is
   * refused as taken only when it differs from the edited user's current one.
   */
  function AdminEditErrors(f: AdminEdit, edited: User, roleChoices: seq<int>, emailOk: bool, users: seq<User>): seq<FieldErrors> {
    [ FieldErrors("email", RunChain(f.email, AdminEmailChecks(f.email, edited, emailOk, users))),
      FieldErrors("username", RunChain(f.username, AdminUsernameChecks(f.username, edited, users))),
      FieldErrors("role", SelectErrors(f.role, roleChoices)),
      FieldErrors("name", RunChain(f.name, [Length(0, 64, Length0To64Msg)])),
      FieldErrors("location", RunChain(f.location, [Length(0, 64, Length0To64Msg)])) ]
  }

  function AdminEmailChecks(email: string, edited: User, emailOk: bool, users: seq<User>): seq<Check> {
    [ Required(RequiredMsg), Length(1, 64, Length1To64Msg), EmailFormat(emailOk, EmailMsg),
      Rejects(email != edited.email && EmailTaken(users, email), "Email already registered.") ]
  }

  function AdminUsernameChecks(username: string, edited: User, users: seq<User>): seq<Check> {
    [ Required(RequiredMsg), Length(1, 64, Length1To64Msg), UsernamePattern(UsernameMsg),
      Rejects(username != edited.username && UsernameTaken(users, username), "Username already in use.") ]
  }

  /**
   * The admin edit form accepts exactly: a well-formed email that is the
   * edited user's own or unused, a username with the registration syntax
   * that is the edited user's own or unused, a listed role, and short
   * name and location.
   */
  lemma AdminEditAcceptedIff(f: AdminEdit, edited: User, roleChoices: seq<int>, emailOk: bool, users: seq<User>)
    ensures Accepted(AdminEditErrors(f, edited, roleChoices, emailOk, users)) <==>
      && !IsBlank(f.email) && |f.email| <= 64 && emailOk
      && (f.email == edited.email || !EmailTaken(users, f.email))
      && UsernameSyntaxOk(f.username)
      && (f.username == edited.username || !UsernameTaken(users, f.username))
      && f.role in roleChoices
      && |f.name| <= 64 && |f.location| <= 64
  {
    var fs := AdminEditErrors(f, edited, roleChoices, emailOk, users); Accepted5(fs[0], fs[1], fs[2], fs[3], fs[4]);
    var e := AdminEmailChecks(f.email, edited, emailOk, users);
    ChainOfFour(f.email, e[0], e[1], e[2], e[3]);
    var u := AdminUsernameChecks(f.username, edited, users);
    ChainOfFour(f.username, u[0], u[1], u[2], u[3]);
    RunChainEmptyIff(f.name, [Length(0, 64, Length0To64Msg)]);
    RunChainEmptyIff(f.location, [Length(0, 64, Length0To64Msg)]);
  }

  /** Keeping the edited user's own (registered) email raises no email error; another user's email does. */
  lemma AdminEditOwnEmailAllowed(edited: User, other: User, f: AdminEdit, emailOk: bool, roleChoices: seq<int>, users: seq<User>)
    requires emailOk && !IsBlank(f.email) && |f.email| <= 64
    requires other in users && other.email == f.email
    ensures f.email == edited.email ==> AdminEditErrors(f, edited, roleChoices, emailOk, users)[0].errors == []
    ensures f.email != edited.email ==> AdminEditErrors(f, edited, roleChoices, emailOk, users)[0].errors == ["Email already registered."]
  {
    var e := AdminEmailChecks(f.email, edited, emailOk, users);
    ChainOfFour(f.email, e[0], e[1], e[2], e[3]);
    var k :| 0 <= k < |users| && users[k] == other;
    assert FindByEmail(users, f.email).Some?;
    if f.email != edited.email {
      assert RunChain(f.email, e[3..]) == ["Email already registered."];
      assert RunChain(f.email, e[2..]) == RunChain(f.email, e[2..][1..]);
      assert e[2..][1..] == e[3..];
      assert RunChain(f.email, e[1..]) == RunChain(f.email, e[1..][1..]);
      assert e[1..][1..] == e[2..];
      assert RunChain(f.email, e) == RunChain(f.email, e[1..]);
    }
  }

  /** `Role.query.order_by(Role.name)`: the (id, name) choices of the admin form, ordered by name. */
  function RoleChoices(roles: seq<Role>): (r: seq<Keyed<(nat, string)>>)
    ensures Sorted(r)
    ensures multiset(r) == multiset(RoleEntries(roles))
    ensures forall i :: 0 <= i < |r| ==> r[i].key == [Text(r[i].item.1)]
  {
    var entries := RoleEntries(roles);
    var r := SortByKey(entries);
    assert forall i :: 0 <= i < |r| ==> r[i] in multiset(entries);
    r
  }

  /** Each role as its (id, name) pair, keyed by its name. */
  function RoleEntries(roles: seq<Role>): (r: seq<Keyed<(nat, string)>>)
    ensures |r| == |roles|
    ensures forall i :: 0 <= i < |roles| ==> r[i] == Keyed([Text(roles[i].name)], (i, roles[i].name))
  {
    seq(|roles|, i requires 0 <= i < |roles| => Keyed([Text(roles[i].name)], (i, roles[i].name)))
  }

  /** The role ids the admin form offers are exactly the ids of the role table. */
  lemma RoleChoicesCoverRoles(roles: seq<Role>, id: nat)
    ensures (exists i :: 0 <= i < |RoleChoices(roles)| && RoleChoices(roles)[i].item.0 == id) <==> id < |roles|
  {
    var r := RoleChoices(roles);
    var e := RoleEntries(roles);
    if id < |roles| {
      assert e[id] in multiset(r);
      var i :| 0 <= i < |r| && r[i] == e[id];
    }
    if exists i :: 0 <= i < |r| && r[i].item.0 == id {
      var i :| 0 <= i < |r| && r[i].item.0 == id;
      assert r[i] in multiset(e);
      var j :| 0 <= j < |e| && e[j] == r[i];
    }
  }

  // ---------------------------------------------------------------- AddRecordForm

  /** Some choice has value `v`. */
  predicate Offers(choices: seq<(int, int)>, v: int) {
    exists i :: 0 <= i < |choices| && choices[i].0 == v
  }

  /**
   * The release-year choices: `(v, v)` for every year from 1950 to the
   * current year, newest first.
   */
  method YearChoices(currentYear: int) returns (choices: seq<(int, int)>)
    ensures |choices| == if currentYear >= 1950 then currentYear - 1949 else 0
    ensures forall i :: 0 <= i < |choices| ==> choices[i] == (currentYear - i, currentYear - i)
    ensures forall i, j :: 0 <= i < j < |choices| ==> choices[i].0 > choices[j].0
    ensures forall v :: Offers(choices, v) <==> 1950 <= v <= currentYear
  {
    choices := [];
    var v := currentYear;
    while v >= 1950
      invariant v <= currentYear
      invariant v >= 1949 || v == currentYear
      invariant |choices| == currentYear - v
      invariant forall i :: 0 <= i < |choices| ==> choices[i] == (currentYear - i, currentYear - i)
    {
      choices := choices + [(v, v)];
      v := v - 1;
    }
    forall y | 1950 <= y <= currentYear
      ensures Offers(choices, y)
    {
      assert choices[currentYear - y].0 == y;
    }
  }

  datatype RecordFields = RecordFields(artist: string, title: string, year: int, format: int, color: string, size: int)

  /**
   * `AddRecordForm`: artist, title and colour required; the year, format
   * and size must be among the offered choices. A year of 0 fails the
   * required check, which clears the choice error before it reports, so
   * that field then shows the required message alone.
   */
  function AddRecordErrors(f: RecordFields, years: seq<int>, formats: seq<int>, sizes: seq<int>): seq<FieldErrors> {
    [ FieldErrors("artist", RunChain(f.artist, [Required(RequiredMsg)])),
      FieldErrors("title", RunChain(f.title, [Required(RequiredMsg)])),
      FieldErrors("year", if f.year == 0 then [RequiredMsg] else SelectErrors(f.year, years)),
      FieldErrors("format", SelectErrors(f.format, formats)),
      FieldErrors("color", RunChain(f.color, [Required(RequiredMsg)])),
      FieldErrors("size", SelectErrors(f.size, sizes)) ]
  }

  lemma AddRecordAcceptedIff(f: RecordFields, years: seq<int>, formats: seq<int>, sizes: seq<int>)
    ensures Accepted(AddRecordErrors(f, years, formats, sizes)) <==>
      && !IsBlank(f.artist) && !IsBlank(f.title) && !IsBlank(f.color)
      && f.year in years && f.year != 0 && f.format in formats && f.size in sizes
  {
    var fs := AddRecordErrors(f, years, formats, sizes); Accepted6(fs[0], fs[1], fs[2], fs[3], fs[4], fs[5]);
    RunChainEmptyIff(f.artist, [Required(RequiredMsg)]);
    RunChainEmptyIff(f.title, [Required(RequiredMsg)]);
    RunChainEmptyIff(f.color, [Required(RequiredMsg)]);
  }

  /** A year of 0 reports the required message alone: the required check clears the choice error. */
  lemma ZeroYearOnlyRequired(f: RecordFields, years: seq<int>, formats: seq<int>, sizes: seq<int>)
    requires f.year == 0
    ensures AddRecordErrors(f, years, formats, sizes)[2] == FieldErrors("year", [RequiredMsg])
  {
  }
}
