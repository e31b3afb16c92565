/**
 * Action tokens (app/models.py): `generate_confirmation_token` / `confirm`,
 * `generate_reset_token` / `reset_password`,
 * `generate_email_change_token` / `change_email`.
 *
 * The timed signing serializer is a library. It is represented by the
 * datatype `Token`: a token is either genuine (signed with some secret, and
 * carrying the dumped payload, the issue time and the lifetime) or any other
 * string. Loading succeeds exactly when the token is signed with the
 * server's secret and the clock has not passed `issuedAt + expiresIn`.
 * Nothing here models the signature or encoding bytes.
 */
module Tokens {
  import opened Wrappers
  import opened Accounts

  /** A JSON value of the payload dictionary. */
  datatype Value = IntV(i: int) | StrV(s: string) | NullV

  type Payload = map<string, Value>

  datatype Token =
    | Signed(secret: string, payload: Payload, issuedAt: int, expiresIn: int)
    | Forged(text: string)

  /** The lifetime every `generate_*_token` uses unless told otherwise, in seconds. */
  const DefaultExpiration: int := 3600

  /** `Serializer(secret, expiration).dumps(payload)` at clock `now`. */
  function Dumps(secret: string, payload: Payload, now: int, expiration: int): Token {
    Signed(secret, payload, now, expiration)
  }

  /** `Serializer(secret).loads(token)` at clock `now`; None stands for the raised exception. */
  function Loads(secret: string, token: Token, now: int): (r: Option<Payload>)
    ensures r.Some? <==> token.Signed? && token.secret == secret && now <= token.issuedAt + token.expiresIn
  {
    if token.Signed? && token.secret == secret && now <= token.issuedAt + token.expiresIn
    then Some(token.payload) else None
  }

  /** Loading a freshly dumped payload before it expires gives the payload back; after expiry, or under another secret, nothing. */
  lemma LoadsDumps(secret: string, payload: Payload, issued: int, expiration: int, now: int, other: string)
    requires other != secret
    ensures issued <= now <= issued + expiration ==> Loads(secret, Dumps(secret, payload, issued, expiration), now) == Some(payload)
    ensures now > issued + expiration ==> Loads(secret, Dumps(secret, payload, issued, expiration), now) == None
    ensures Loads(other, Dumps(secret, payload, issued, expiration), now) == None
  {
  }

  /** `data.get(key) != self.id` is false: the token names this user for this purpose. */
  predicate BindsTo(secret: string, token: Token, now: int, purpose: string, id: nat) {
    var data := Loads(secret, token, now);
    data.Some? && purpose in data.value && data.value[purpose] == IntV(id)
  }

  // ---------------------------------------------------------------- issuing

  function ConfirmationToken(secret: string, u: User, now: int, expiration: int): Token {
    Dumps(secret, map["confirm" := IntV(u.id)], now, expiration)
  }

  function ResetToken(secret: string, u: User, now: int, expiration: int): Token {
    Dumps(secret, map["reset" := IntV(u.id)], now, expiration)
  }

  function EmailChangeToken(secret: string, u: User, newEmail: string, now: int, expiration: int): Token {
    Dumps(secret, map["change_email" := IntV(u.id), "new_email" := StrV(newEmail)], now, expiration)
  }

  // ---------------------------------------------------------------- accepting

  /** The outcome of a token-consuming method: its boolean return and the user afterwards. */
  datatype Attempt = Attempt(ok: bool, user: User)

  /** `User.confirm`: sets `confirmed` only when the token is genuine, unexpired and a confirmation token for this user. */
  function Confirm(u: User, token: Token, secret: string, now: int): (r: Attempt)
    ensures r.ok <==> var data := Loads(secret, token, now);
      data.Some? && "confirm" in data.value && data.value["confirm"] == IntV(u.id)
    ensures r.ok ==> r.user == u.(confirmed := true)
    ensures !r.ok ==> r.user == u
  {
    if BindsTo(secret, token, now, "confirm", u.id) then Attempt(true, u.(confirmed := true))
    else Attempt(false, u)
  }

  /** `User.reset_password`: replaces the password only when the token is a genuine, unexpired reset token for this user. */
  function ResetPassword(u: User, token: Token, newPassword: string, secret: string, now: int): (r: Attempt)
    ensures r.ok <==> var data := Loads(secret, token, now);
      data.Some? && "reset" in data.value && data.value["reset"] == IntV(u.id)
    ensures r.ok ==> VerifyPassword(r.user, newPassword) && r.user == u.(passwordHash := r.user.passwordHash)
    ensures !r.ok ==> r.user == u
  {
    if BindsTo(secret, token, now, "reset", u.id) then Attempt(true, SetPassword(u, newPassword))
    else Attempt(false, u)
  }

  /**
   * `data.get('new_email')`: absent, or JSON null, reads as None. A
   * generated token always carries a string here; any other value is
   * treated as absent.
   */
  function NewEmail(data: Payload): Option<string> {
    if "new_email" in data && data["new_email"].StrV? then Some(data["new_email"].s) else None
  }

  /** The users table and the boolean `change_email` returns. */
  datatype EmailChange = EmailChange(ok: bool, users: seq<User>)

  /**
   * `User.change_email` for the user at position `me`: succeeds when the
   * token is a genuine, unexpired email-change token for this user whose
   * new address no user holds yet (the user's own current address
   * included), and then only that user's email changes.
   */
  function ChangeEmail(users: seq<User>, me: nat, token: Token, secret: string, now: int): (r: EmailChange)
    requires me < |users|
    ensures r.ok <==> var data := Loads(secret, token, now);
      && data.Some? && "change_email" in data.value && data.value["change_email"] == IntV(users[me].id)
      && NewEmail(data.value).Some?
      && forall j :: 0 <= j < |users| ==> users[j].email != NewEmail(data.value).value
    ensures r.ok ==> r.users == users[me := users[me].(email := NewEmail(Loads(secret, token, now).value).value)]
    ensures !r.ok ==> r.users == users
  {
    if !BindsTo(secret, token, now, "change_email", users[me].id) then EmailChange(false, users)
    else match NewEmail(Loads(secret, token, now).value)
      case None => EmailChange(false, users)
      case Some(e) =>
        if FindByEmail(users, e).Some? then EmailChange(false, users)
        else EmailChange(true, users[me := users[me].(email := e)])
  }

  // ---------------------------------------------------------------- properties

  /** Round trip: a confirmation token used before it expires confirms its own user. */
  lemma ConfirmRoundTrip(u: User, secret: string, issued: int, now: int)
    requires issued <= now <= issued + DefaultExpiration
    ensures Confirm(u, ConfirmationToken(secret, u, issued, DefaultExpiration), secret, now) == Attempt(true, u.(confirmed := true))
  {
  }

  /** Round trip: a reset token used before it expires sets the new password, and the old one no longer verifies. */
  lemma ResetRoundTrip(u: User, secret: string, issued: int, now: int, newPassword: string, oldPassword: string)
    requires issued <= now <= issued + DefaultExpiration
    requires oldPassword != newPassword
    ensures var r := ResetPassword(u, ResetToken(secret, u, issued, DefaultExpiration), newPassword, secret, now);
      r.ok && VerifyPassword(r.user, newPassword) && !VerifyPassword(r.user, oldPassword)
  {
  }

  /** Round trip: an email-change token for an unused address, used in time, moves the user to that address. */
  lemma ChangeEmailRoundTrip(users: seq<User>, me: nat, newEmail: string, secret: string, issued: int, now: int)
    requires me < |users|
    requires issued <= now <= issued + DefaultExpiration
    requires forall j :: 0 <= j < |users| ==> users[j].email != newEmail
    ensures var r := ChangeEmail(users, me, EmailChangeToken(secret, users[me], newEmail, issued, DefaultExpiration), secret, now);
      r.ok && r.users[me].email == newEmail && r.users[me] == users[me].(email := newEmail)
      && forall j :: 0 <= j < |users| && j != me ==> r.users[j] == users[j]
  {
  }

  /** Purpose separation: reset and email-change tokens never confirm an account. */
  lemma ConfirmRejectsOtherPurposes(u: User, v: User, secret: string, issued: int, expiration: int, now: int, e: string)
    ensures !Confirm(u, ResetToken(secret, v, issued, expiration), secret, now).ok
    ensures !Confirm(u, EmailChangeToken(secret, v, e, issued, expiration), secret, now).ok
  {
  }

  /** Purpose separation: confirmation and email-change tokens never reset a password. */
  lemma ResetRejectsOtherPurposes(u: User, v: User, secret: string, issued: int, expiration: int, now: int, e: string, pw: string)
    ensures ResetPassword(u, ConfirmationToken(secret, v, issued, expiration), pw, secret, now) == Attempt(false, u)
    ensures ResetPassword(u, EmailChangeToken(secret, v, e, issued, expiration), pw, secret, now) == Attempt(false, u)
  {
  }

  /** Purpose separation: confirmation and reset tokens never change an email. */
  lemma ChangeEmailRejectsOtherPurposes(users: seq<User>, me: nat, v: User, secret: string, issued: int, expiration: int, now: int)
    requires me < |users|
    ensures ChangeEmail(users, me, ConfirmationToken(secret, v, issued, expiration), secret, now) == EmailChange(false, users)
    ensures ChangeEmail(users, me, ResetToken(secret, v, issued, expiration), secret, now) == EmailChange(false, users)
  {
  }

  /** Id binding: a token issued to another user is rejected by every consumer. */
  lemma TokensBindTheirUser(u: User, v: User, users: seq<User>, me: nat, secret: string, issued: int, expiration: int, now: int, e: string, pw: string)
    requires u.id != v.id
    requires me < |users| && users[me].id != v.id
    ensures Confirm(u, ConfirmationToken(secret, v, issued, expiration), secret, now) == Attempt(false, u)
    ensures ResetPassword(u, ResetToken(secret, v, issued, expiration), pw, secret, now) == Attempt(false, u)
    ensures ChangeEmail(users, me, EmailChangeToken(secret, v, e, issued, expiration), secret, now) == EmailChange(false, users)
  {
  }

  /** Expiry: once the lifetime has passed, every consumer refuses and changes nothing. */
  lemma ExpiredTokensChangeNothing(u: User, users: seq<User>, me: nat, secret: string, issued: int, expiration: int, now: int, e: string, pw: string)
    requires me < |users|
    requires now > issued + expiration
    ensures Confirm(u, ConfirmationToken(secret, u, issued, expiration), secret, now) == Attempt(false, u)
    ensures ResetPassword(u, ResetToken(secret, u, issued, expiration), pw, secret, now) == Attempt(false, u)
    ensures ChangeEmail(users, me, EmailChangeToken(secret, users[me], e, issued, expiration), secret, now) == EmailChange(false, users)
  {
  }

  /** A taken address is refused even with a genuine, unexpired token, including the user's own current address. */
  lemma ChangeEmailRefusesTakenAddress(users: seq<User>, me: nat, other: nat, secret: string, issued: int, now: int)
    requires me < |users| && other < |users|
    requires issued <= now <= issued + DefaultExpiration
    ensures ChangeEmail(users, me, EmailChangeToken(secret, users[me], users[other].email, issued, DefaultExpiration), secret, now)
      == EmailChange(false, users)
  {
  }

  /** A successful email change keeps email addresses unique across the table. */
  lemma ChangeEmailKeepsEmailsUnique(users: seq<User>, me: nat, token: Token, secret: string, now: int)
    requires me < |users|
    requires forall i, j :: 0 <= i < j < |users| ==> users[i].email != users[j].email
    ensures var r := ChangeEmail(users, me, token, secret, now).users;
      forall i, j :: 0 <= i < j < |r| ==> r[i].email != r[j].email
  {
  }
}
