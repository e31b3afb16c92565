# recordbin business rules in Dafny

This project models the business rules of recordbin, a Flask web application in which users keep a list of the records (vinyl) they own and follow other users. The model covers the following:

- **Permissions and roles.** The `can` bitmask test, the anonymous user, role seeding (`insert_roles`) and the default role of a new user.
- **Action tokens.** Confirmation, password-reset and email-change tokens: how they are issued and how `confirm`, `reset_password` and `change_email` accept them.
- **Form validation.** The login, registration, password, reset, email-change, profile, admin-edit and add-record forms. This covers the validator chains, username syntax, uniqueness checks, the admin "own value allowed" rule, and the year and role choices.
- **Account views.** The `before_request` gate, register, confirm, change password, the two password-reset views and the email-change request.
- **The record collection.** On the user page: add with duplicate detection, artist get-or-create, edit and owner-only delete. Also the sorted page with its six size/mail buckets, the CSV download, the user list, the follower feed's post-processing, and follow/unfollow.

The database is an immutable value (`Store.Db`) of tables:
- users, artists, sizes, formats and titles as sequences;
- the image table as a map from record id to URL;
- the follow relation as a set of (follower id, followed id) edges.

`Store.Valid` gathers the integrity the schema provides: sequential ids, unique emails, usernames and artist names, and increasing record ids.

The following become parameters or abstractions:
- the clock (`now`, the current year);
- the application secret;
- the administrator address;
- the email-format validator's verdict (`emailOk`);
- password hashing, as the injective tag `HashOf(pw)`;
- the timed token serializer, as `Tokens.Token`. A token loads back its payload exactly when it was signed with the same secret and `now <= issued + expiration`.

Python's tuple and string ordering is modelled in `Ordering`: lexicographic, a prefix first, a number before a string. `sorted`/`list.sort` is modelled as a stable insertion sort proved sorted, a permutation and stable.

Modules, one per file:
- `Wrappers`
- `Ordering`
- `Text`
- `Permissions`
- `Accounts`
- `Tokens`
- `Forms`
- `Store`
- `Records`
- `Listing`
- `Follows`
- `AuthViews`

The model keeps these behaviours of the code:
- `register` validates the form before it checks for anonymity, so a signed-in user who posts a valid form still creates an account.
- `unfollow` does not stop a user from removing their own follow edge.
- No self-follow invariant is modelled: the bodies of `User.follow`, `User.unfollow` and `add_self_follows` are not part of this model (see "Left out").

Functions that only compute a value appear in the table below through the lemma or operation whose contract states what they mean. The form error lists (`Forms.LoginErrors` and the other `...Errors` functions) appear through the `...AcceptedIff` lemmas. The token constructors appear through the round-trip lemmas. `Permissions.Can`, `Accounts.VerifyPassword`, `Follows.IsFollowing`, `Store.Valid`, `Listing.ToCsv`, `Text.Lower` and `Text.IsBlank` appear through the rows that name them.

## Model

| member | source | states |
|---|---|---|
| Permissions.CanIsBitInclusion | app/models.py:116-117 | `can(p)` (`Permissions.Can`) holds iff the user has a role and every bit set in `p` is set in the role's mask |
| Permissions.SeededRoleCapabilities | app/models.py:10-12 | the admin mask 0x80 administers but cannot USE; the user mask 0x01 uses but does not administer |
| Permissions.NoRoleNoPermission | app/models.py:116-117 | a user without a role is refused every permission, even the empty one |
| Permissions.PrincipalCan | app/models.py:209-211 | the anonymous user can do nothing; a signed-in user can exactly when their role's mask contains `p` |
| Permissions.PrincipalIsAdministrator | app/models.py:119-120 | `is_administrator` (`Permissions.IsAdministrator`) is exactly `can(ADMINISTER)`, and is false for the anonymous user |
| Permissions.FindRole | app/models.py:33 | the lookup returns the first role with that name, or none when no role has it |
| Permissions.FindDefaultRole | app/models.py:85 | the lookup returns the first role marked default, or none |
| Permissions.Upsert | app/models.py:32-39 | after one step of `insert_roles` the named role holds its permissions and default flag; other roles are unchanged and names stay unique |
| Permissions.InsertRoles | app/models.py:25-39 | roles not named in the seed list are untouched; name uniqueness is kept |
| Permissions.InsertRolesEstablishes | app/models.py:25-39 | after seeding, every seeded role holds its values, whatever order the dictionary is iterated in |
| Permissions.InsertRolesIdempotent | app/models.py:25-39 | seeding twice gives the same table as seeding once |
| Permissions.UpsertKeepsOthers | app/models.py:32-39 | upserting one role leaves every other seeded role holding its permissions and default flag |
| Permissions.SeedingGrantsRoles | app/models.py:25-39 | after seeding, in either order the dictionary may be iterated in, `user` has 0x01 and is default, `admin` has 0x80 and is not default; admin cannot USE |
| Accounts.SetPassword | app/models.py:127-132 | after setting a password exactly that password verifies (`Accounts.VerifyPassword`), and nothing else in the row changes |
| Accounts.NoRoleRowNoPermission | app/models.py:116-120 | a user whose role id is unset or refers to no role row can do nothing and is not an administrator |
| Accounts.FindByEmail | app/auth/views.py:134 | the lookup returns the first user with that email, or none when nobody has it |
| Accounts.FindByUsername | app/main/views.py:55 | the lookup returns the first user with that username, or none when nobody has it |
| Accounts.InitialRole | app/models.py:79-85 | a new user keeps an explicit role; otherwise gets `admin` when the email is the administrator address and that role exists; otherwise the default role |
| Accounts.InitialRoleAfterSeeding | app/models.py:79-85 | on a table freshly seeded in either order, a new user resolves (through their role id) to the `admin` role and `is_administrator()` holds iff their email is the administrator address; otherwise they resolve to `user` and `can(USE)` holds |
| Tokens.Loads | app/models.py:142-146 | loading succeeds iff the token is signed with this secret and has not expired |
| Tokens.LoadsDumps | app/models.py:137-139 | a payload dumped by `Tokens.Dumps` loads back unchanged before expiry and not after it, nor under another secret |
| Tokens.Confirm | app/models.py:141-152 | `confirm` succeeds iff the loaded payload's `confirm` key is this user's id; only then is `confirmed` set, otherwise the user is unchanged |
| Tokens.ResetPassword | app/models.py:158-169 | `reset_password` succeeds iff the payload's `reset` key is this user's id; only then does the new password verify, otherwise the user is unchanged |
| Tokens.ChangeEmail | app/models.py:89-106 | `change_email` succeeds iff the payload binds this user, carries a new address (`Tokens.NewEmail`), and no user holds that address; only then does that user's email change |
| Tokens.ConfirmRoundTrip | app/models.py:137-152 | a confirmation token (`Tokens.ConfirmationToken`) used within 3600 s confirms its user |
| Tokens.ResetRoundTrip | app/models.py:154-169 | a reset token (`Tokens.ResetToken`) used in time sets the new password, and the old one stops verifying |
| Tokens.ChangeEmailRoundTrip | app/models.py:89-110 | an email-change token (`Tokens.EmailChangeToken`) for an unused address moves the user to it, and no other user changes |
| Tokens.ConfirmRejectsOtherPurposes | app/models.py:147 | reset and email-change tokens never confirm |
| Tokens.ResetRejectsOtherPurposes | app/models.py:164 | confirmation and email-change tokens never reset a password, and change nothing |
| Tokens.ChangeEmailRejectsOtherPurposes | app/models.py:95-96 | confirmation and reset tokens never change an email, and change nothing |
| Tokens.TokensBindTheirUser | app/models.py:95-96 | a token issued to another user is refused by every consumer, which changes nothing |
| Tokens.ExpiredTokensChangeNothing | app/models.py:142-146 | after expiry every consumer refuses and changes nothing |
| Tokens.ChangeEmailRefusesTakenAddress | app/models.py:100-101 | a new address some user already holds is refused even with a genuine token |
| Tokens.ChangeEmailKeepsEmailsUnique | app/models.py:100-102 | email changes keep addresses unique across users |
| Forms.MatchUsername | app/auth/forms.py:25-28 | the scan accepts exactly the strings the pattern `^[A-Za-z][A-Za-z0-9_.]*$` matches, including one trailing newline |
| Forms.RunChainEmptyIff | app/auth/forms.py:22-28 | a field has no errors iff every validator in its chain passes |
| Forms.RequiredStopsChain | app/auth/forms.py:22-23 | a blank value (`Text.IsBlank`: nothing left after stripping whitespace) yields only the required message; later validators do not run |
| Forms.SelectErrors | app/main/forms.py:42 | a select field errs iff the value is not among its choices |
| Forms.LoginAcceptedIff | app/auth/forms.py:8-15 | login (`Forms.LoginErrors`) is accepted iff email and password are non-blank and the email is well formed |
| Forms.EmptyLoginMessages | app/auth/forms.py:10-15 | an empty login form reports "Email is required" and "Password is required" |
| Forms.RegistrationAcceptedIff | app/auth/forms.py:20-49 | registration (`Forms.RegistrationErrors`) is accepted iff username syntax and length hold, the email is 1..64 and well formed, neither is taken, and the passwords are present and equal |
| Forms.EmptyRegistrationMessages | app/auth/forms.py:22-39 | an empty registration form reports the four required-field messages |
| Forms.ChangePasswordAcceptedIff | app/auth/forms.py:52-61 | the change-password form (`Forms.ChangePasswordErrors`) is accepted iff all three fields are present and the new passwords are equal |
| Forms.ResetRequestAcceptedIff | app/auth/forms.py:64-65 | the reset-request form (`Forms.ResetRequestErrors`) is accepted iff the email is present and well formed |
| Forms.ResetAcceptedIff | app/auth/forms.py:68-81 | the reset form (`Forms.ResetErrors`) is accepted iff the email is well formed and registered, and the passwords are present and equal |
| Forms.ChangeEmailAcceptedIff | app/auth/forms.py:84-94 | the change-email form (`Forms.ChangeEmailErrors`) is accepted iff the new email is 1..64, well formed and not registered, and a password is given |
| Forms.EditProfileAcceptedIff | app/main/forms.py:15-20 | the profile form (`Forms.EditProfileErrors`) is accepted iff name and location are at most 64 characters |
| Forms.AdminEditAcceptedIff | app/main/forms.py:27-70 | the admin edit (`Forms.AdminEditErrors`) is accepted iff the email and username are well formed and are the edited user's own or unused, the role is offered, and name and location are short |
| Forms.AdminEditOwnEmailAllowed | app/main/forms.py:60-64 | keeping the edited user's own registered email is allowed; another user's email is refused with "Email already registered." |
| Forms.RoleChoices | app/main/forms.py:57 | the role choices are ordered by name and are a permutation of the role table's (id, name) pairs |
| Forms.RoleChoicesCoverRoles | app/main/forms.py:57 | an id is offered iff it is a role's id |
| Forms.ZeroYearOnlyRequired | app/main/forms.py:80-81 | a year of 0 shows "This field is required." alone, not also the invalid-choice error |
| Forms.YouIsAValidUsername | app/auth/forms.py:25-28 | the name `you` passes the username rules, so the feed's "you" label can also name another user |
| Forms.YearChoices | app/main/forms.py:106-108 | the choices are the pairs (v, v), strictly descending, offering exactly the years 1950..current |
| Forms.AddRecordAcceptedIff | app/main/forms.py:73-108 | the add form (`Forms.AddRecordErrors`) is accepted iff artist, title and colour are present, the year is non-zero, and year, format and size are among the choices |
| Store.FindArtist | app/main/views.py:78 | the lookup returns the first artist with that name, or none |
| Store.FindTitle | app/main/views.py:117 | the lookup returns the first record with that id, or none |
| Records.ArtistGetOrCreate | app/main/views.py:78-83 | afterwards exactly one artist has the name and the id refers to it; an existing artist is reused and nothing is added |
| Records.AddRecord | app/main/views.py:66-105 | a record is created iff the owner has none with the same name, artist, year, format, size, colour and notes (mail excluded); it gets the owner, format 1 and an image row only for a non-empty URL; otherwise only the artist lookup happened |
| Records.AddRecordKeepsValid | app/main/views.py:78-101 | adding keeps `Store.Valid`: user and artist ids sequential, emails, usernames and artist names unique, record ids increasing and below the next id, artist references in range |
| Records.DuplicateAddChangesNothing | app/main/views.py:102-105 | "You already own this" leaves the database exactly as it was |
| Records.AddTwiceOwnsOnce | app/main/views.py:85-105 | the second add of the same record, whatever its mail flag, reports it owned and changes nothing |
| Records.DuplicateIsPerOwner | app/main/views.py:86-89 | when one owner has the record and another does not, the same input is refused for the first and added for the second |
| Records.EditRecord | app/main/views.py:115-156 | an unknown id changes nothing; otherwise exactly artist, name, colour, size, year, notes and mail are overwritten, and owner and format are kept; a non-empty URL creates or replaces the image and an empty one leaves it |
| Records.EditRecordKeepsValid | app/main/views.py:131-156 | editing keeps the database valid |
| Records.EditIgnoresOwnership | app/main/views.py:115-144 | the edit succeeds for any existing record, whoever owns it, and keeps its owner |
| Records.DeleteRecord | app/main/views.py:303-319 | an unknown id is not-found and a non-owner is refused; for the owner, a missing artist row raises before anything is deleted, and otherwise the record and its image are removed; only that last case changes the database |
| Records.DeleteRecordKeepsValid | app/main/views.py:308-313 | delete keeps the database valid; on a valid database the missing-artist error cannot occur, and the deleted id is gone from records and images |
| Records.NonOwnerCannotDelete | app/main/views.py:317-319 | a non-owner's delete reports "You dont own that" and changes nothing |
| Records.MailFlagsStayBinary | app/main/views.py:75-144 | add, edit and delete keep every stored mail flag 0 or 1 |
| Records.UserPagePost | app/main/views.py:53-66 | an unknown username is not-found; add and edit happen only on the signed-in user's own page, and anywhere else nothing changes |
| Listing.OwnedRows | app/main/views.py:168-172 | a row is listed iff it is a record of that owner whose artist, size and format rows exist |
| Listing.SortRecords | app/main/views.py:178 | the page list is a permutation of the rows ordered by lower-cased artist (`Text.Lower`) then year |
| Listing.SortRecordsStable | app/main/views.py:178 | rows with equal artist (ignoring case) and year keep their relative order |
| Listing.Bucket | app/main/views.py:185-190 | a row is in bucket (size, mail) iff it is in the list with that size and flag |
| Listing.BucketKeepsOrder | app/main/views.py:185-190 | a bucket of a sorted list is sorted |
| Listing.PageBuckets | app/main/views.py:185-190 | a record is in a page bucket iff it is one of the rows with that size (7, 10, 12) and flag (0, 1) |
| Listing.PageBucketsSorted | app/main/views.py:185-190 | each of the six buckets keeps the page order |
| Listing.BucketsPartition | app/main/views.py:185-191 | when every size is 7, 10 or 12 and every flag 0 or 1, the six buckets together count each row once |
| Listing.PageCountsAddUp | app/main/views.py:185-191 | under that condition the bucket sizes add up to `user_records_count` |
| Listing.OwnedPageCountsAddUp | app/main/views.py:168-191 | on a database whose flags are 0 or 1 and whose sizes are 7, 10 and 12, every record of the page lands in a bucket and the buckets add up to the count |
| Listing.Download | app/main/views.py:324-336 | the intended download (see "Findings"): the list is produced iff the username is the signed-in user's; it is a permutation of their rows, each as its CSV line (`Listing.ToCsv`), sorted by size, year, artist, title |
| Listing.DownloadAsWritten | app/main/views.py:332-342 | as written, the owner's download raises iff one of their lines has a non-ASCII artist, title or colour; otherwise it is the intended list, and anyone else is redirected |
| Listing.DownloadAsWrittenFailsOnNonAscii | app/main/views.py:339-342 | a user owning one record by "Björk" gets an encoding error instead of the file |
| Listing.DownloadAgreesWhereWrittenWorks | app/main/views.py:324-348 | wherever the written download does not raise, it returns exactly the intended result |
| Listing.AllUsers | app/main/views.py:18-20 | the user list is a permutation of the users ordered by username |
| Listing.EntryLabel | app/main/views.py:210 | the label "you" appears iff the owner's username equals the feed's username or is literally `you`; any other owner is shown by username |
| Listing.SortFeed | app/main/views.py:202 | the feed rows are a permutation ordered by record id, largest first |
| Listing.Feed | app/main/views.py:199-212 | the feed holds exactly the labelled entries of the fetched rows, one per row (as multisets), with ids descending |
| Follows.FollowView | app/main/views.py:269-277 | an unknown user or an existing edge (`Follows.IsFollowing`) changes nothing; otherwise exactly the edge (current, target) is added |
| Follows.UnfollowView | app/main/views.py:288-296 | an unknown user or a missing edge changes nothing; otherwise exactly the edge (current, target) is removed |
| Follows.FollowIdempotent | app/main/views.py:274-277 | following twice leaves the edges of following once, the second time "already following" |
| Follows.UnfollowIdempotent | app/main/views.py:293-296 | unfollowing twice leaves the edges of unfollowing once, the second time "not following" |
| Follows.UnfollowUndoesFollow | app/main/views.py:277-296 | unfollow right after a successful follow restores the edge set |
| Follows.OnlyOwnEdgesChange | app/main/views.py:277-296 | follow and unfollow touch no edge starting at another user |
| AuthViews.Head5 | app/auth/views.py:96 | Python's `e[:5]` is the first five characters, or all of a shorter string |
| AuthViews.IsAuthEndpointIffPrefix | app/auth/views.py:96 | `endpoint[:5] == 'auth.'` iff the endpoint starts with `auth.` |
| AuthViews.GateAsWritten | app/auth/views.py:91-98 | as written, the gate raises for a signed-in unconfirmed user without an endpoint; otherwise it redirects iff the user is unconfirmed and the endpoint is neither `auth.*` nor `static` |
| AuthViews.GateAsWrittenFailsOnUnroutedUrl | app/auth/views.py:95-96 | an unconfirmed user requesting an unrouted URL makes the gate raise |
| AuthViews.Gate | app/auth/views.py:91-98 | the intended gate never raises; it redirects iff the user is signed in, unconfirmed, and the endpoint is neither an auth endpoint nor `static` |
| AuthViews.GateAgreesWhereWrittenWorks | app/auth/views.py:91-98 | wherever the written gate does not raise, both gates decide the same |
| AuthViews.GateLetsThrough | app/auth/views.py:93-97 | anonymous users, confirmed users, static files and auth endpoints always pass |
| AuthViews.RegisterView | app/auth/views.py:37-62 | a valid form creates exactly one unconfirmed user with the next id, the submitted email, username and password and the initial role, and issues a confirmation token for them; otherwise nothing changes and signed-in users are redirected |
| AuthViews.RegisterKeepsUsersValid | app/auth/views.py:41-46 | registration keeps ids sequential and emails and usernames unique |
| AuthViews.RegisterThenConfirm | app/auth/views.py:51-76 | the token sent on registration confirms the new account when used in time |
| AuthViews.ConfirmView | app/auth/views.py:65-76 | an already-confirmed user changes nothing without consulting the token; otherwise confirmation happens iff the token binds the user |
| AuthViews.ConfirmViewNeverUnconfirms | app/auth/views.py:65-76 | no confirmed user becomes unconfirmed, and other users' rows are untouched |
| AuthViews.ChangePasswordView | app/auth/views.py:109-124 | the password changes iff the form is valid and the old password verifies; a wrong old password is reported and nothing changes |
| AuthViews.PasswordResetRequestView | app/auth/views.py:127-146 | signed-in users are redirected; a valid form issues a reset token iff the email is registered, otherwise reports no account |
| AuthViews.PasswordResetView | app/auth/views.py:149-169 | signed-in users are redirected; a password changes only for a valid form, a registered email and a token that binds that user |
| AuthViews.ResetUnknownUserUnreachable | app/auth/views.py:157-161 | the view's own "user is None" branch cannot be reached because the form already refuses unknown emails |
| AuthViews.ResetRequestThenReset | app/auth/views.py:133-164 | the token a reset request issues lets that user set a new password in time |
| AuthViews.ChangeEmailRequestView | app/auth/views.py:172-190 | a token for the new address is issued iff the form is valid and the password verifies; a wrong password is reported |

## Left out

- Signing internals of the token serializer (JSON web signature, HMAC, timestamp encoding): a library. Tokens are abstract values that load back exactly when genuine and unexpired.
- Password hashing and salting: a library. `HashOf(pw)` stands for the hash, so `verify_password` holds exactly for the password last set.
- The email-format validator: a library. Its verdict is the `emailOk` input.
- `gravatar` and the md5 `avatar_hash`: library calls that produce display data only.
- `encode_id`/`decode_id`: their bodies are not part of this model. The operations take the decoded record id.
- `add_self_follows`, `followers`/`followed`, `owned_records` and `follower_records`: their bodies are not part of this model.
  - `follow`, `unfollow` and `is_following` are taken to be insertion into, removal from and membership of the edge set.
  - The page query is the join of app/main/views.py:168-172, and the download uses the same rows.
  - The follower feed starts from the fetched rows; the base query and its `limit(10)` are not modelled.
- `Listing.Download`: the CSV header line, the "Date Added" column and the file name are I/O formatting and are not produced. The model returns the sorted (artist, title, colour, year, size) lines.
- `Listing.Feed`: the entry's timestamp and avatar are not modelled.
- `Records.AddRecord`: app/main/forms.py's `AddRecordForm` declares no `add_image_url` field, yet app/main/views.py:76 reads one. The model assumes the field exists and its value is the input's `imageUrl`; as the forms file stands, a valid add would raise `AttributeError` before changing anything, and that failure is not modelled.
- `Records.EditRecord`: app/main/views.py:10 imports `EditRecordForm`, which app/main/forms.py does not define. The model takes the edit's fields as already validated input and does not model that form's validation, since its validators appear nowhere.
- `Records.UserPagePost`: it takes a validated submission, so it inherits both assumptions above; the failing import at app/main/views.py:10 is not modelled either.
- `ping`/`last_seen`, `member_since` and `datetime.now()`: the clock. `now` and the current year are parameters.
- Flask routing, templates, flash messages, redirects, `jsonify`, email sending and database sessions: I/O plumbing. Views return an outcome value instead.
- `login`, `logout`, `resend_confirmation`, `unconfirmed`, `index`, `edit_profile`, `edit_profile_admin` (the field assignments) and `server_shutdown`: plumbing around the modelled forms and checks.
- `change_email(token)` in app/auth/views.py:193-201 calls `User.change_email` and reports the result. That method is `Tokens.ChangeEmail`.
- `Tokens.NewEmail`: a `new_email` that is not a string is treated as absent.
- `Text.Lower`: `lower()` is modelled on ASCII letters only; other letters keep their case.
- `Text.IsBlank`: `strip()` removes the whitespace of Python 2.7's Unicode database (5.2); later Unicode versions are not modelled.
- `Permissions.InsertRoles`: Python 2 does not fix a dictionary's iteration order. `InsertRolesEstablishes` and `InsertRolesIdempotent` hold for any order of any distinct roles, and `SeedingGrantsRoles` and `Accounts.InitialRoleAfterSeeding` for both orders of the two seeded roles.
- `Permissions.Can`: `Role.permissions` is an unbounded integer column, modelled as an 8-bit mask. Every value the code stores (0x01, 0x80) fits, and masks wider than 8 bits are not modelled.
- The CSRF token check of `validate_on_submit` is not modelled. Every `...AcceptedIff` lemma states acceptance with that check passing, as the tests configure it (tests/server/test_client.py:12, tests/client/base.py:69).
- `Listing.OwnedRows`: the page query has no `ORDER BY`, so the model takes table order. The database does not promise that order, so the tie order `Listing.SortRecordsStable` keeps is the order the database returned, which the code does not fix.
- The role table's ids are positions in the table. User and artist ids are positions plus one, because those rows are never deleted.
- At most one image per record: the image table is a map from record id to URL, as the views read it.
- A new user's name, location and about-me start empty rather than NULL.
- JavaScript under app/static/js, migrations, `manage.py`, `config.py` and the tests that describe older models.
- Concurrency and transactions.

## Findings

| source | as written | input that shows it | evidently intended | confidence | as-written member | corrected member |
|---|---|---|---|---|---|---|
| app/main/views.py:332-342 | the CSV lines are written with Python 2's `csv.writer`, which encodes each unicode field with the ASCII codec and raises `UnicodeEncodeError` on any other character | the owner of a record by the artist "Björk" downloads their list | the file is produced for every record, whatever its characters (e.g. by encoding each field as UTF-8) | not executed | Listing.DownloadAsWrittenFailsOnNonAscii | Listing.Download |
| app/auth/views.py:95-97 | `request.endpoint[:5]` is evaluated whenever a signed-in user is unconfirmed, but `request.endpoint` is None for a URL that matches no route, so the gate raises a `TypeError` (a server error) | a signed-in, unconfirmed user requests an unrouted URL such as `/favicon.ico` | a request without an endpoint is neither an auth endpoint nor a static file; the gate decides it without raising | not executed | AuthViews.GateAsWrittenFailsOnUnroutedUrl | AuthViews.Gate |
