# Account rules of a publishing platform's authentication backend

This project models the account rules of a Django/DRF backend, checked against an
in-memory user store. It proves properties of that model in Dafny.

It covers:
- the registration field checks: password strength, email and username uniqueness, and the username format;
- the ordered login checks;
- the user-update procedure, which routes a new password through hashing;
- the password-reset "email must exist" lookup;
- the social-login find-or-create flow, which binds an identity-provider claim `{email, name}` to a user, creating one when needed.

Files:
- `accounts.dfy` (module `Accounts`): the stored user record (`Account`) and the password column (`Credential`). It also has the error kinds and the ORM lookups as pure functions: `Filter` is `filter(...)`, `Exists` is `.exists()` and `Get` is `get(...)`, which succeeds only on exactly one match.
- `patterns.dfy` (module `Patterns`): the two regular expressions.
  - They are written as recursive predicates that follow a backtracking matcher.
  - The model proves which strings each one accepts.
- `serializers.dfy` (module `Serializers`):
  - the registration, login and reset checks, as functions of the store;
  - the `User` class, whose `Update` method changes one user object in place.
- `social.dfy` (module `Social`):
  - `LoginOrRegister` gives the flow's result and the new store as a function of the old store;
  - the `UserStore` class runs the flow step by step (look up, `create_user`, set `is_active`, save). Its method is proved equal to `LoginOrRegister`.

Inputs from outside the code become parameters:
- the `uuid4` string;
- the output of `make_random_password`;
- the token a new user gets (record `Social.Fresh`).

Hashing is the injective tag `Hashed`. A string written into the password column without going through `set_password` is `Raw`. `check_password` accepts only a `Hashed` value.

Behaviours of the code a reader might not expect, which the model follows:
- The username regex allows `*` in the final run (`ab-c*` is accepted, `a*-b` is not). All-digit names are accepted, although the error message says "cannot be integers".
- Social login returns the claim's `name` as `username` in both branches. When the claim has no name, it returns `None`, even though a uuid was stored as the username.
- Social login sets `is_active` only. The verification flag `is_valid` keeps the value `create_user` gives it. So a user created this way cannot pass the login checks (`Social.NewSocialUserCannotLogIn`).
- A password of exactly 8 characters passes the length check, although the message says "longer than 8".
- The password-reset serializer has no rule that its two passwords be equal.
- Find-or-create has no retry or re-read when two requests create the same email at once.

## Model

| member | source | states |
|---|---|---|
| `Accounts.Filter` | authors/apps/authentication/serializers.py:48 | `filter(...)` lists every stored user that matches the query, each one once, in store order. |
| `Accounts.ExistsIff` | authors/apps/authentication/serializers.py:48-49 | `.exists()` holds exactly when some stored user matches. |
| `Accounts.Get` | authors/apps/authentication/serializers.py:203-206 | `get(...)` finds a user exactly when one user matches. It reports "does not exist" exactly when none does, and otherwise raises for several. |
| `Accounts.UniqueEmailsGetNeverMultiple` | authors/apps/social_auth/login_register.py:9-10 | While emails are unique, an email lookup never meets several users. It finds one exactly when the email is stored. |
| `Patterns.LookaheadMatchesIff` | authors/apps/authentication/serializers.py:39 | `(?=.*X)` at the start of a string succeeds exactly when a character of class X occurs before the first newline. |
| `Patterns.LookaheadMatchesNewlineFree` | authors/apps/authentication/serializers.py:39 | In a string without newlines, the lookahead succeeds exactly when the class occurs anywhere in the string. |
| `Patterns.UsernamePatternSound` | authors/apps/authentication/serializers.py:59 | Every string the username pattern matches is well formed: non-empty, only letters, digits, `-`, `_` and `*`, no separator first or last, no doubled separator, and no `*` before a separator. |
| `Patterns.UsernamePatternComplete` | authors/apps/authentication/serializers.py:59 | Every well-formed string is matched by the username pattern. |
| `Patterns.UsernamePatternIff` | authors/apps/authentication/serializers.py:59 | The username pattern accepts exactly the well-formed names. |
| `Patterns.UsernameRegexNewlineFree` | authors/apps/authentication/serializers.py:59 | For a name without newlines, `re.match` with `^...$` accepts exactly the well-formed names. |
| `Patterns.AllDigitUsernameAccepted` | authors/apps/authentication/serializers.py:59-61 | A non-empty all-digit name passes the format check. |
| `Patterns.StarInFinalRunAccepted` | authors/apps/authentication/serializers.py:59 | `*` is accepted after the last separator (`ab-c*`) and rejected before a separator (`a*-b`). |
| `Serializers.ValidatePassword` | authors/apps/authentication/serializers.py:33-42 | A password under 8 characters fails as too short. Otherwise it is accepted exactly when a lowercase letter, an uppercase letter and a digit each occur before the first newline, and fails as too weak when not. An accepted password is returned unchanged. |
| `Serializers.RegistrationPassword` | authors/apps/authentication/serializers.py:14-17 | The `max_length` check runs first: over 128 characters fails. An accepted password is returned unchanged and has 8 to 128 characters. |
| `Serializers.RegistrationPasswordAcceptedIff` | authors/apps/authentication/serializers.py:33-42 | Without newlines, a registration password is accepted exactly when 8 ≤ length ≤ 128 and it contains a lowercase letter, an uppercase letter and a digit, in any order. |
| `Serializers.ValidateEmail` | authors/apps/authentication/serializers.py:45-51 | Fails with "already exists" exactly when some stored user has the email. Otherwise it returns the email unchanged. |
| `Serializers.ValidateUsername` | authors/apps/authentication/serializers.py:53-63 | A taken name fails as a duplicate, even when malformed. Otherwise it fails with the format error exactly when the regex does not match, and for newline-free names the regex matches exactly the well-formed names. An accepted name is returned unchanged. |
| `Serializers.Authenticate` | authors/apps/authentication/serializers.py:105 | A user it returns is stored, has the email and has a credential that checks the password. While emails are unique, it returns a user exactly when such a user exists. |
| `Serializers.Login` | authors/apps/authentication/serializers.py:77-136 | Missing email fails first, then missing password. Success means some stored user has that email and password and is active and verified, and the answer is that user's email, username and token. |
| `Serializers.LoginOutcome` | authors/apps/authentication/serializers.py:105-136 | With emails unique, no matching (email, password) user gives "not found". For the matching user: inactive gives "deactivated" even when also unverified; active but unverified gives "unverified"; otherwise the answer is that user's email, username and token. |
| `Serializers.ValidateResetEmail` | authors/apps/authentication/serializers.py:201-207 | Accepted exactly when one stored user has the email. No user and several users both fail with the message "`<email>` is Invalid". An accepted email is returned unchanged. |
| `Serializers.ResetEmailMessage` | authors/apps/authentication/serializers.py:205-206 | A rejected reset email is reported with the text "`<email>` is Invalid". |
| `Serializers.ResetEmailComplementsRegistration` | authors/apps/authentication/serializers.py:201-207 | While emails are unique, the reset lookup accepts exactly the emails that registration rejects as taken. |
| `Serializers.ResetEmailRejectsShared` | authors/apps/authentication/serializers.py:203-206 | An email stored on two users is rejected by the reset lookup. |
| `Serializers.UserPasswordField` | authors/apps/authentication/serializers.py:146-150 | The update serializer's password is accepted exactly when it has 8 to 128 characters. Every registration-valid password passes it. |
| `Serializers.User.SetAttr` | authors/apps/authentication/serializers.py:180 | `setattr` writes the given column as given. For `password` that means storing the raw string. |
| `Serializers.User.Update` | authors/apps/authentication/serializers.py:166-192 | Every supplied field except the password is copied verbatim, and unsupplied fields stay as they were. A supplied password is stored only as its hash, and `check_password` accepts it afterwards. Without a password the credential is unchanged. The flags and the token never change, and a hashed credential never becomes raw. |
| `Social.NewUserRecord` | authors/apps/social_auth/login_register.py:15-21 | `create_user` stores the given email, username and token, and a hashed password that checks the given one. |
| `Social.GetByClaimEmail` | authors/apps/social_auth/login_register.py:9-10 | A claim without email finds nobody. A user found has the claim's email. "Does not exist" means no stored user has it. |
| `Social.LoginOrRegister` | authors/apps/social_auth/login_register.py:7-29 | The old store is a prefix of the new one, with at most one user added. On failure the store is unchanged. On success the answer carries the claim's email and the claim's name. |
| `Social.UserStore.CreateUser` | authors/apps/social_auth/login_register.py:21 | Appends exactly the `create_user` record and returns its position. |
| `Social.UserStore.SaveIsActive` | authors/apps/social_auth/login_register.py:22-23 | Sets `is_active` on that one stored user and changes nothing else. |
| `Social.UserStore.LoginOrRegisterSocialUser` | authors/apps/social_auth/login_register.py:7-29 | The step-by-step flow leaves the result and the store that `LoginOrRegister` gives for the old store. |
| `Social.MissingEmailRefused` | authors/apps/social_auth/login_register.py:9-12 | A claim without email is refused, and the store is unchanged. |
| `Social.ExistingUserReused` | authors/apps/social_auth/login_register.py:25-29 | When one user has the claim's email, nothing is created or modified. The answer is the claim's email and name with that user's token. |
| `Social.SharedEmailRaises` | authors/apps/social_auth/login_register.py:9-10 | Two users with the claim's email make `get` raise past the handler, and the store is unchanged. |
| `Social.NewUserCreated` | authors/apps/social_auth/login_register.py:14-23 | When no user has the claim's email, exactly one user is appended. It has the claim's email, the claim's name or else the uuid as username, the hashed generated password, `is_active` true, `is_valid` as `create_user` left it, and the new token. The answer carries the claim's name. |
| `Social.AnswerIgnoresGeneratedPassword` | authors/apps/social_auth/login_register.py:18 | Changing the generated password changes nothing in the answer. |
| `Social.Idempotent` | authors/apps/social_auth/login_register.py:9-23 | After a successful call, a second call with the same claim creates nothing and returns the same answer, whatever new values it is given. |
| `Social.KeepsUniqueEmails` | authors/apps/social_auth/login_register.py:9-23 | The flow keeps emails unique, so on such a store it never raises for several users. |
| `Social.KeepsUniqueUsernames` | authors/apps/social_auth/login_register.py:14-21 | Usernames stay unique when the name stored for a new user is not already taken. |
| `Social.NewSocialUserCannotLogIn` | authors/apps/social_auth/login_register.py:21-23 | A user created by the flow is not verified. A password login with the generated password therefore stops at the verification check. |

## Left out

- Provider calls (`authors/apps/social_auth/views.py`): the Facebook Graph API and Google token verification are network I/O behind a catch-all handler. The model starts from the claim they return.
- The social serializer's `access_token` field (`min_length=10`) and the `SocialAuthenticationFailed` exception class: declarative only.
- URL routing in the three `urls.py` files: declarative plumbing.
- `authenticate`: Django code.
  - It is modelled as "the one user with that email whose credential checks the password".
  - Django's backend also refuses inactive users. The model leaves that out, so the "deactivated" branch stays reachable.
  - When several users share an email, the model gives "no user". Django raises instead.
- `set_password`, `check_password`, `make_random_password`, `uuid.uuid4` and token generation are foreign code.
  - Hashing is an injective tag.
  - The random values and the new user's token are parameters.
  - The model does not claim that the uuid is unique. `Social.KeepsUniqueUsernames` takes a name that is not already taken as a precondition.
- `create_user` and the user model's defaults: `models.py` is not part of this model. A new user is taken to be neither active nor verified.
- `RegistrationSerializer.create`: it is only a `create_user` call. Registration is modelled through its three field checks.
- DRF field behaviour:
  - whitespace trimming, the blank-string check, `EmailField` format and required-field handling are library behaviour;
  - the login fields' `max_length` is left out too.
- `PasswordResetSerializer`: it declares only length bounds (8 to 128) on two fields and compares nothing.
- `Serializers.User.Update`: the model does not persist the user object into the store (`instance.save()`). The update acts on the object alone, and aliasing with stored records is not modelled.
- Python regex semantics beyond ASCII: `\d` is taken as `0`-`9`. The password rule is modelled with newlines exactly, and its length-and-classes corollary is stated for newline-free passwords. The username rule is modelled with `$` matching before a final newline.
- `auth_token`: modelled as a stored per-user value that every read returns unchanged.
  - The login serializer reads it as an attribute (`user.auth_token`, authentication/serializers.py:135); social login calls it (`user.auth_token()`, social_auth/login_register.py:28). `models.py` is not part of this model, so whether it is a column, a property or a method, and whether each call may give a new token, is not captured.
  - `Social.Idempotent` and `Social.ExistingUserReused` promise the stored token on that reading.
  - It is assumed not to be a writable field of `UserSerializer`, whose `Meta` misspells `read_only_fields` (authentication/serializers.py:156), so nothing is declared read-only. `Serializers.User.Update` leaves the token unchanged on that assumption.
- A claim whose `name` key is present with the value `None`: the model treats a missing value and a missing key alike.
- Concurrency: two simultaneous find-or-create calls for one new email, and insert-time uniqueness conflicts. The source has no logic for these.
