/**
 * The account views of app/auth/views.py: the gate every request passes
 * (`before_request`), registration, confirmation, password change, the two
 * password-reset views and the email-change request. A view receives the
 * user table and the signed-in user's position in it (None when
 * anonymous), and returns what it reports together with the table
 * afterwards. Emails, flashes and redirects are reduced to the outcome.
 */
module AuthViews {
  import opened Wrappers
  import opened Text
  import opened Permissions
  import opened Accounts
  import opened Tokens
  import opened Forms
  import opened Store

  // ---------------------------------------------------------------- the gate

  /** Python's `e[:5]`: the first five characters, or all of a shorter string. */
  function Head5(e: string): (r: string)
    ensures |r| == if |e| < 5 then |e| else 5
    ensures r <= e
  {
    if |e| < 5 then e else e[..5]
  }

  /** `endpoint[:5] == 'auth.'` holds exactly for the endpoints of the auth blueprint. */
  predicate IsAuthEndpoint(e: string) {
    Head5(e) == "auth."
  }

  lemma IsAuthEndpointIffPrefix(e: string)
    ensures IsAuthEndpoint(e) <==> "auth." <= e
  {
    if "auth." <= e {
      assert e[..5] == "auth.";
    }
  }

  datatype GateOutcome = Proceed | ToUnconfirmed | TypeError

  /**
   * `before_request` as written. `request.endpoint` is None when the URL
   * matches no route; for a signed-in, unconfirmed user the expression
   * `request.endpoint[:5]` is then evaluated on None and raises.
   */
  function GateAsWritten(viewer: Option<User>, endpoint: Option<string>): (r: GateOutcome)
    ensures r == TypeError <==> viewer.Some? && !viewer.value.confirmed && endpoint.None?
    ensures r == ToUnconfirmed <==>
      viewer.Some? && !viewer.value.confirmed && endpoint.Some?
      && !IsAuthEndpoint(endpoint.value) && endpoint.value != "static"
  {
    if viewer.None? || viewer.value.confirmed then Proceed
    else match endpoint
      case None => TypeError
      case Some(e) => if !IsAuthEndpoint(e) && e != "static" then ToUnconfirmed else Proceed
  }

  /** An unconfirmed user who asks for a URL with no route gets a server error instead of the not-found page or the redirect. */
  lemma GateAsWrittenFailsOnUnroutedUrl(u: User)
    requires !u.confirmed
    ensures GateAsWritten(Some(u), None) == TypeError
  {
  }

  /**
   * The gate as intended: a signed-in, unconfirmed user is sent to the
   * "unconfirmed" page unless the request is for the auth blueprint or for
   * a static file; a request without an endpoint is neither.
   */
  function Gate(viewer: Option<User>, endpoint: Option<string>): (r: GateOutcome)
    ensures r != TypeError
    ensures r == ToUnconfirmed <==>
      viewer.Some? && !viewer.value.confirmed
      && !(endpoint.Some? && IsAuthEndpoint(endpoint.value)) && endpoint != Some("static")
  {
    if viewer.None? || viewer.value.confirmed then Proceed
    else if endpoint.Some? && (IsAuthEndpoint(endpoint.value) || endpoint.value == "static") then Proceed
    else ToUnconfirmed
  }

  /** Wherever the written gate does not raise, the intended one decides the same. */
  lemma GateAgreesWhereWrittenWorks(viewer: Option<User>, endpoint: Option<string>)
    requires GateAsWritten(viewer, endpoint) != TypeError
    ensures Gate(viewer, endpoint) == GateAsWritten(viewer, endpoint)
  {
  }

  /** Confirmed users, anonymous users and static files always pass the gate. */
  lemma GateLetsThrough(viewer: Option<User>, endpoint: Option<string>)
    ensures viewer.None? ==> Gate(viewer, endpoint) == Proceed
    ensures viewer.Some? && viewer.value.confirmed ==> Gate(viewer, endpoint) == Proceed
    ensures endpoint == Some("static") ==> Gate(viewer, endpoint) == Proceed
    ensures endpoint.Some? && "auth." <= endpoint.value ==> Gate(viewer, endpoint) == Proceed
  {
    if endpoint.Some? {
      IsAuthEndpointIffPrefix(endpoint.value);
    }
  }

  // ---------------------------------------------------------------- register

  datatype RegisterOutcome = Registered(token: Token) | ShowRegisterForm | RegisterRedirect

  datatype RegisterResult = RegisterResult(outcome: RegisterOutcome, users: seq<User>)

  /** The row `User(email=..., password=..., username=...)` creates, with the next id. */
  function NewUser(roles: seq<Role>, users: seq<User>, f: Registration, adminEmail: string): User {
    User(|users| + 1, f.email, f.username, HashOf(f.password), false,
         InitialRole(roles, None, f.email, adminEmail), "", "", "")
  }

  /**
   * `register`: a valid form creates an unconfirmed user with the
   * submitted email, username and password and issues a confirmation
   * token for them. The form is checked before the anonymity test, so a
   * signed-in user who submits a valid form also registers one. Without a
   * valid form an anonymous visitor sees the form and anyone else is
   * redirected; nothing changes.
   */
  function RegisterView(roles: seq<Role>, users: seq<User>, signedIn: bool, f: Registration, emailOk: bool,
                        adminEmail: string, secret: string, now: int): (r: RegisterResult)
    ensures r.outcome.Registered? <==> Accepted(RegistrationErrors(f, emailOk, users))
    ensures r.outcome.Registered? ==>
      && |r.users| == |users| + 1 && r.users[..|users|] == users
      && var u := r.users[|users|];
      && u.id == |users| + 1 && u.email == f.email && u.username == f.username
      && !u.confirmed && VerifyPassword(u, f.password)
      && u.roleId == InitialRole(roles, None, f.email, adminEmail)
      && r.outcome.token == ConfirmationToken(secret, u, now, DefaultExpiration)
    ensures !r.outcome.Registered? ==> r.users == users
    ensures r.outcome == RegisterRedirect <==> !r.outcome.Registered? && signedIn
  {
    if Accepted(RegistrationErrors(f, emailOk, users)) then
      var u := NewUser(roles, users, f, adminEmail);
      RegisterResult(Registered(ConfirmationToken(secret, u, now, DefaultExpiration)), users + [u])
    else if !signedIn then RegisterResult(ShowRegisterForm, users)
    else RegisterResult(RegisterRedirect, users)
  }

  /** Registration keeps user ids sequential and emails and usernames unique. */
  lemma RegisterKeepsUsersValid(roles: seq<Role>, users: seq<User>, signedIn: bool, f: Registration, emailOk: bool,
                                adminEmail: string, secret: string, now: int)
    requires UsersValid(users)
    ensures UsersValid(RegisterView(roles, users, signedIn, f, emailOk, adminEmail, secret, now).users)
  {
    var r := RegisterView(roles, users, signedIn, f, emailOk, adminEmail, secret, now);
    if r.outcome.Registered? {
      RegistrationAcceptedIff(f, emailOk, users);
      var u := r.users[|users|];
      assert r.users == users + [u];
      forall i | 0 <= i < |users|
        ensures users[i].email != u.email && users[i].username != u.username
      {
        assert !EmailTaken(users, f.email);
        assert !UsernameTaken(users, f.username);
      }
    }
  }

  /** The token sent on registration confirms the new account when used before it expires. */
  lemma RegisterThenConfirm(roles: seq<Role>, users: seq<User>, signedIn: bool, f: Registration, emailOk: bool,
                            adminEmail: string, secret: string, issued: int, now: int)
    requires Accepted(RegistrationErrors(f, emailOk, users))
    requires issued <= now <= issued + DefaultExpiration
    ensures var r := RegisterView(roles, users, signedIn, f, emailOk, adminEmail, secret, issued);
      var c := ConfirmView(r.users, |users|, r.outcome.token, secret, now);
      c.outcome == Confirmed && c.users[|users|].confirmed
  {
  }

  // ---------------------------------------------------------------- confirm

  datatype ConfirmOutcome = AlreadyConfirmed | Confirmed | InvalidOrExpired

  datatype ConfirmResult = ConfirmResult(outcome: ConfirmOutcome, users: seq<User>)

  /**
   * `confirm(token)` for the signed-in user at position `me`: a user who
   * is already confirmed is sent away without the token being looked at;
   * otherwise `User.confirm` decides.
   */
  function ConfirmView(users: seq<User>, me: nat, token: Token, secret: string, now: int): (r: ConfirmResult)
    requires me < |users|
    ensures users[me].confirmed ==> r == ConfirmResult(AlreadyConfirmed, users)
    ensures r.outcome == Confirmed <==> !users[me].confirmed && BindsTo(secret, token, now, "confirm", users[me].id)
    ensures r.outcome == Confirmed ==> r.users == users[me := users[me].(confirmed := true)]
    ensures r.outcome != Confirmed ==> r.users == users
  {
    if users[me].confirmed then ConfirmResult(AlreadyConfirmed, users)
    else
      var a := Confirm(users[me], token, secret, now);
      if a.ok then ConfirmResult(Confirmed, users[me := a.user]) else ConfirmResult(InvalidOrExpired, users)
  }

  /** A confirmed user stays confirmed whatever token they present, and so does everyone else's row. */
  lemma ConfirmViewNeverUnconfirms(users: seq<User>, me: nat, token: Token, secret: string, now: int, i: nat)
    requires me < |users| && i < |users|
    ensures var r := ConfirmView(users, me, token, secret, now);
      |r.users| == |users| && (users[i].confirmed ==> r.users[i].confirmed)
      && (i != me ==> r.users[i] == users[i])
  {
  }

  // ---------------------------------------------------------------- change password

  datatype PasswordOutcome = ShowPasswordForm | PasswordUpdated | InvalidPassword

  datatype PasswordResult = PasswordResult(outcome: PasswordOutcome, users: seq<User>)

  /**
   * `change_password` for the signed-in user at position `me`: with a
   * valid form, the password is replaced only when the old password
   * verifies; otherwise "invalid password" is reported and nothing changes.
   */
  function ChangePasswordView(users: seq<User>, me: nat, f: PasswordChange): (r: PasswordResult)
    requires me < |users|
    ensures r.outcome == PasswordUpdated <==>
      !IsBlank(f.oldPassword) && !IsBlank(f.password) && f.password == f.password2 && !IsBlank(f.password2)
      && VerifyPassword(users[me], f.oldPassword)
    ensures r.outcome == InvalidPassword <==> Accepted(ChangePasswordErrors(f)) && !VerifyPassword(users[me], f.oldPassword)
    ensures r.outcome == PasswordUpdated ==>
      && |r.users| == |users|
      && VerifyPassword(r.users[me], f.password)
      && r.users == users[me := users[me].(passwordHash := r.users[me].passwordHash)]
    ensures r.outcome != PasswordUpdated ==> r.users == users
  {
    ChangePasswordAcceptedIff(f);
    if !Accepted(ChangePasswordErrors(f)) then PasswordResult(ShowPasswordForm, users)
    else if VerifyPassword(users[me], f.oldPassword) then PasswordResult(PasswordUpdated, users[me := SetPassword(users[me], f.password)])
    else PasswordResult(InvalidPassword, users)
  }

  // ---------------------------------------------------------------- password reset

  datatype ResetRequestOutcome = ResetRequestRedirect | ShowResetRequestForm | ResetIssued(to: string, token: Token) | NoAccount

  /**
   * `password_reset_request`: signed-in users are sent away. With a valid
   * form, a reset token for the user holding the address is issued when
   * there is one; otherwise "no account" is reported. The user table is
   * never changed.
   */
  function PasswordResetRequestView(users: seq<User>, signedIn: bool, email: string, emailOk: bool,
                                    secret: string, now: int): (r: ResetRequestOutcome)
    ensures r == ResetRequestRedirect <==> signedIn
    ensures r.ResetIssued? <==> !signedIn && !IsBlank(email) && emailOk && EmailTaken(users, email)
    ensures r == NoAccount <==> !signedIn && !IsBlank(email) && emailOk && !EmailTaken(users, email)
    ensures r.ResetIssued? ==> r.to == email && r.token == ResetToken(secret, users[FindByEmail(users, email).value], now, DefaultExpiration)
  {
    ResetRequestAcceptedIff(email, emailOk);
    if signedIn then ResetRequestRedirect
    else if !Accepted(ResetRequestErrors(email, emailOk)) then ShowResetRequestForm
    else match FindByEmail(users, email)
      case Some(p) => ResetIssued(users[p].email, ResetToken(secret, users[p], now, DefaultExpiration))
      case None => NoAccount
  }

  datatype ResetOutcome = ResetRedirect | ShowResetForm | UnknownUser | PasswordWasReset | NotUpdated

  datatype ResetResult = ResetResult(outcome: ResetOutcome, users: seq<User>)

  /**
   * `password_reset(token)`: signed-in users are sent away. With a valid
   * form, the user holding the submitted address has their password
   * replaced when `User.reset_password` accepts the token; in every other
   * case no password changes.
   */
  function PasswordResetView(users: seq<User>, signedIn: bool, token: Token, f: Forms.PasswordReset, emailOk: bool,
                             secret: string, now: int): (r: ResetResult)
    ensures r.outcome == ResetRedirect <==> signedIn
    ensures r.outcome != PasswordWasReset ==> r.users == users
    ensures r.outcome == PasswordWasReset <==>
      && !signedIn && Accepted(ResetErrors(f, emailOk, users)) && EmailTaken(users, f.email)
      && BindsTo(secret, token, now, "reset", users[FindByEmail(users, f.email).value].id)
    ensures r.outcome == PasswordWasReset ==>
      var p := FindByEmail(users, f.email).value;
      users[p].email == f.email && r.users == users[p := SetPassword(users[p], f.password)]
  {
    if signedIn then ResetResult(ResetRedirect, users)
    else if !Accepted(ResetErrors(f, emailOk, users)) then ResetResult(ShowResetForm, users)
    else match FindByEmail(users, f.email)
      case None => ResetResult(UnknownUser, users)
      case Some(p) =>
        var a := ResetPassword(users[p], token, f.password, secret, now);
        if a.ok then ResetResult(PasswordWasReset, users[p := a.user])
        else ResetResult(NotUpdated, users)
  }

  /** The form already refuses unknown addresses, so the view's own "user is None" branch is never taken. */
  lemma ResetUnknownUserUnreachable(users: seq<User>, signedIn: bool, token: Token, f: Forms.PasswordReset, emailOk: bool,
                                    secret: string, now: int)
    ensures PasswordResetView(users, signedIn, token, f, emailOk, secret, now).outcome != UnknownUser
  {
    ResetAcceptedIff(f, emailOk, users);
  }

  /** The token a reset request sends resets that user's password when used, before it expires, with their address. */
  lemma ResetRequestThenReset(users: seq<User>, email: string, emailOk: bool, f: Forms.PasswordReset,
                              secret: string, issued: int, now: int)
    requires PasswordResetRequestView(users, false, email, emailOk, secret, issued).ResetIssued?
    requires f.email == email && Accepted(ResetErrors(f, emailOk, users))
    requires issued <= now <= issued + DefaultExpiration
    ensures var r := PasswordResetView(users, false, PasswordResetRequestView(users, false, email, emailOk, secret, issued).token,
                                       f, emailOk, secret, now);
      r.outcome == PasswordWasReset && exists p :: 0 <= p < |users| && users[p].email == email && VerifyPassword(r.users[p], f.password)
  {
    var t := PasswordResetRequestView(users, false, email, emailOk, secret, issued).token;
    var p := FindByEmail(users, email).value;
    assert BindsTo(secret, t, now, "reset", users[p].id);
  }

  // ---------------------------------------------------------------- change email

  datatype EmailRequestOutcome = ShowEmailForm | EmailChangeIssued(to: string, token: Token) | InvalidCredentials

  /**
   * `change_email_request` for the signed-in user at position `me`: with
   * a valid form and the right password, a token for the new address is
   * sent to that address; a wrong password is reported. The user table is
   * never changed here.
   */
  function ChangeEmailRequestView(users: seq<User>, me: nat, email: string, password: string, emailOk: bool,
                                  secret: string, now: int): (r: EmailRequestOutcome)
    requires me < |users|
    ensures r.EmailChangeIssued? <==>
      !IsBlank(email) && |email| <= 64 && emailOk && !EmailTaken(users, email) && !IsBlank(password)
      && VerifyPassword(users[me], password)
    ensures r.EmailChangeIssued? ==> r.to == email && r.token == EmailChangeToken(secret, users[me], email, now, DefaultExpiration)
    ensures r == InvalidCredentials <==> Accepted(ChangeEmailErrors(email, password, emailOk, users)) && !VerifyPassword(users[me], password)
  {
    ChangeEmailAcceptedIff(email, password, emailOk, users);
    if !Accepted(ChangeEmailErrors(email, password, emailOk, users)) then ShowEmailForm
    else if VerifyPassword(users[me], password) then EmailChangeIssued(email, EmailChangeToken(secret, users[me], email, now, DefaultExpiration))
    else InvalidCredentials
  }
}
