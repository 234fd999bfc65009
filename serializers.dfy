/**
 The account rules of the authentication serializers: registration field
 checks, the login checks, the user-update procedure and the password-reset
 email lookup. Every check reads the user store and none changes it; the
 update works on one user object in place.
 */
module Serializers {
  import opened Accounts
  import opened Patterns

  /** `max_length` of every password field. */
  const PasswordMaxLength: nat := 128

  /** The length `validate_password` demands, and the `min_length` of the update and reset fields. */
  const PasswordMinLength: nat := 8

  // ---------------------------------------------------------------------------
  // Registration

  /**
   `RegistrationSerializer.validate_password`: too short first, then the three
   lookaheads. An accepted password is returned unchanged.
   */
  function ValidatePassword(password: string): (r: Result<string>)
    ensures |password| < PasswordMinLength ==> r == Err(PasswordTooShort)
    ensures r.Ok? <==>
      && |password| >= PasswordMinLength
      && OccursBeforeNewline(password, Lowercase)
      && OccursBeforeNewline(password, Uppercase)
      && OccursBeforeNewline(password, Digit)
    ensures r.Ok? ==> r.value == password
    ensures r.Err? ==> r.error in {PasswordTooShort, WeakPassword}
    ensures |password| >= PasswordMinLength && r.Err? ==> r.error == WeakPassword
  {
    LookaheadMatchesIff(password, Lowercase);
    LookaheadMatchesIff(password, Uppercase);
    LookaheadMatchesIff(password, Digit);
    if |password| < PasswordMinLength then
      Err(PasswordTooShort)
    else if !StrengthPatternMatches(password) then
      Err(WeakPassword)
    else
      Ok(password)
  }

  /**
   The registration `password` field as a whole: its `max_length` validator
   runs before the serializer's own `validate_password`.
   */
  function RegistrationPassword(password: string): (r: Result<string>)
    ensures |password| > PasswordMaxLength ==> r == Err(FieldTooLong("password", PasswordMaxLength))
    ensures r.Ok? ==> r.value == password && PasswordMinLength <= |password| <= PasswordMaxLength
  {
    if |password| > PasswordMaxLength then
      Err(FieldTooLong("password", PasswordMaxLength))
    else
      ValidatePassword(password)
  }

  /**
   For a password without newlines: accepted exactly when its length is
   between 8 and 128 and it holds a lowercase letter, an uppercase letter and
   a digit, wherever they stand.
   */
  lemma RegistrationPasswordAcceptedIff(password: string)
    requires '\n' !in password
    ensures RegistrationPassword(password).Ok? <==>
      && PasswordMinLength <= |password| <= PasswordMaxLength
      && Occurs(password, Lowercase)
      && Occurs(password, Uppercase)
      && Occurs(password, Digit)
  {
    LookaheadMatchesIff(password, Lowercase);
    LookaheadMatchesIff(password, Uppercase);
    LookaheadMatchesIff(password, Digit);
    LookaheadMatchesNewlineFree(password, Lowercase);
    LookaheadMatchesNewlineFree(password, Uppercase);
    LookaheadMatchesNewlineFree(password, Digit);
  }

  /**
   `RegistrationSerializer.validate_email`: rejected exactly when some stored
   user already has the email; otherwise returned unchanged.
   */
  function ValidateEmail(users: seq<Account>, email: string): (r: Result<string>)
    ensures r.Ok? <==> forall i :: 0 <= i < |users| ==> users[i].email != email
    ensures r.Ok? ==> r.value == email
    ensures r.Err? ==> r.error == DuplicateEmail
  {
    ExistsIff(users, EmailIs(email));
    if Exists(users, EmailIs(email)) then Err(DuplicateEmail) else Ok(email)
  }

  /**
   `RegistrationSerializer.validate_username`: the duplicate lookup comes
   first, so a taken name is reported as taken even when it is malformed.
   */
  function ValidateUsername(users: seq<Account>, username: string): (r: Result<string>)
    ensures (exists i :: 0 <= i < |users| && users[i].username == username) ==> r == Err(DuplicateUsername)
    ensures r.Ok? <==>
      (forall i :: 0 <= i < |users| ==> users[i].username != username) && UsernameRegexMatches(username)
    ensures r.Ok? ==> r.value == username
    ensures (forall i :: 0 <= i < |users| ==> users[i].username != username) && r.Err? ==>
      r.error == InvalidUsernameFormat
    ensures '\n' !in username ==>
      (r.Ok? <==> (forall i :: 0 <= i < |users| ==> users[i].username != username) && WellFormedUsername(username))
  {
    ExistsIff(users, UsernameIs(username));
    UsernameRegexNewlineFree(username);
    if Exists(users, UsernameIs(username)) then
      Err(DuplicateUsername)
    else if !UsernameRegexMatches(username) then
      Err(InvalidUsernameFormat)
    else
      Ok(username)
  }

  // ---------------------------------------------------------------------------
  // Login

  /** The login request; `None` is a key the request does not carry. */
  datatype LoginRequest = LoginRequest(email: Option<string>, password: Option<string>)

  /** What a successful login returns. */
  datatype LoginResponse = LoginResponse(email: string, username: string, authToken: string)

  /**
   `authenticate(username=email, password=password)`: the one user whose email
   is the given one (email is the username field), if its stored credential
   checks the password.
   */
  function Authenticate(users: seq<Account>, email: string, password: string): (u: Option<Account>)
    ensures u.Some? ==> u.value in users && u.value.email == email && CheckPassword(u.value.password, password)
    ensures UniqueEmails(users) ==>
      (u.Some? <==> exists i :: 0 <= i < |users| && users[i].email == email && CheckPassword(users[i].password, password))
  {
    GetByUniqueEmail(users, email);
    match Get(users, EmailIs(email))
    case Found(i) => if CheckPassword(users[i].password, password) then Some(users[i]) else None
    case _ => None
  }

  /** Helper: with unique emails, the user found by `get` is every user with that email. */
  lemma GetByUniqueEmail(users: seq<Account>, email: string)
    ensures UniqueEmails(users) ==> Get(users, EmailIs(email)) != MultipleReturned
    ensures UniqueEmails(users) && Get(users, EmailIs(email)).Found? ==>
      forall i :: 0 <= i < |users| && users[i].email == email ==> i == Get(users, EmailIs(email)).index
    ensures UniqueEmails(users) && !Get(users, EmailIs(email)).Found? ==>
      forall i :: 0 <= i < |users| ==> users[i].email != email
  {
    if UniqueEmails(users) {
      UniqueEmailsGetNeverMultiple(users, email);
    }
  }

  /**
   `LoginSerializer.validate`: missing email, missing password, no matching
   user, deactivated, unverified, in that order; on success the matched user's
   email, username and token.
   */
  function Login(users: seq<Account>, request: LoginRequest): (r: Result<LoginResponse>)
    ensures request.email.None? ==> r == Err(EmailRequired)
    ensures request.email.Some? && request.password.None? ==> r == Err(PasswordRequired)
    ensures r.Ok? ==>
      exists i :: (0 <= i < |users| &&
        users[i].email == request.email.value &&
        CheckPassword(users[i].password, request.password.value) &&
        users[i].isActive && users[i].isValid &&
        r.value == LoginResponse(users[i].email, users[i].username, users[i].authToken))
  {
    if request.email.None? then
      Err(EmailRequired)
    else if request.password.None? then
      Err(PasswordRequired)
    else
      match Authenticate(users, request.email.value, request.password.value)
      case None => Err(InvalidCredentials)
      case Some(user) =>
        if !user.isActive then
          Err(Deactivated)
        else if !user.isValid then
          Err(Unverified)
        else
          Ok(LoginResponse(user.email, user.username, user.authToken))
  }

  /**
   With both fields present and emails unique, the outcome of a login is
   decided by the stored user with that email, checks in order: wrong or
   unknown credentials, then deactivated (even if also unverified), then
   unverified, and otherwise that user's email, username and token.
   */
  lemma LoginOutcome(users: seq<Account>, email: string, password: string)
    requires UniqueEmails(users)
    ensures var r := Login(users, LoginRequest(Some(email), Some(password)));
      && ((forall i :: 0 <= i < |users| ==> !(users[i].email == email && CheckPassword(users[i].password, password)))
            ==> r == Err(InvalidCredentials))
      && (forall i :: 0 <= i < |users| && users[i].email == email && CheckPassword(users[i].password, password) ==>
            r == if !users[i].isActive then Err(Deactivated)
                 else if !users[i].isValid then Err(Unverified)
                 else Ok(LoginResponse(users[i].email, users[i].username, users[i].authToken)))
  {
    GetByUniqueEmail(users, email);
  }

  // ---------------------------------------------------------------------------
  // Password reset

  /**
   `ResetEmailSerializer.validate_email`: `get(email=value)` must find exactly
   one user; none and several both raise and are turned into the same error.
   */
  function ValidateResetEmail(users: seq<Account>, value: string): (r: Result<string>)
    ensures r.Ok? <==> ExactlyOne(users, EmailIs(value))
    ensures r.Ok? ==> r.value == value
    ensures r.Err? ==> r.error == InvalidResetEmail(value)
  {
    if Get(users, EmailIs(value)).Found? then Ok(value) else Err(InvalidResetEmail(value))
  }

  /** A rejected reset email is reported as "`<value>` is Invalid". */
  lemma ResetEmailMessage(users: seq<Account>, value: string)
    ensures ValidateResetEmail(users, value).Err? ==>
      Message(ValidateResetEmail(users, value).error) == value + " is Invalid"
  {
    var text := Message(InvalidResetEmail(value));
    assert text == value + " is Invalid";
    var r := ValidateResetEmail(users, value);
    if r.Err? {
      assert r.error == InvalidResetEmail(value);
    }
  }

  /**
   While emails are unique, a reset request succeeds exactly for the emails
   registration would reject as taken.
   */
  lemma ResetEmailComplementsRegistration(users: seq<Account>, email: string)
    requires UniqueEmails(users)
    ensures ValidateResetEmail(users, email).Ok? <==> ValidateEmail(users, email).Err?
  {
    UniqueEmailsGetNeverMultiple(users, email);
  }

  /** Two users sharing an email make the reset lookup fail for that email. */
  lemma ResetEmailRejectsShared(users: seq<Account>, i: nat, j: nat)
    requires i < j < |users| && users[i].email == users[j].email
    ensures ValidateResetEmail(users, users[i].email) == Err(InvalidResetEmail(users[i].email))
  {
    TwoMatchesNotExactlyOne(users, EmailIs(users[i].email), i, j);
  }

  // ---------------------------------------------------------------------------
  // Update

  /**
   The `password` field of `UserSerializer`: between 8 and 128 characters, the
   same bounds the registration rules reach, but with no character-class rule.
   */
  function UserPasswordField(password: string): (r: Result<string>)
    ensures r.Ok? <==> PasswordMinLength <= |password| <= PasswordMaxLength
    ensures r.Ok? ==> r.value == password
    ensures RegistrationPassword(password).Ok? ==> r.Ok?
  {
    if |password| > PasswordMaxLength then
      Err(FieldTooLong("password", PasswordMaxLength))
    else if |password| < PasswordMinLength then
      Err(FieldTooShort("password", PasswordMinLength))
    else
      Ok(password)
  }

  /** The keys `UserSerializer` can hand to `update` in its validated data. */
  datatype UserField = EmailField | UsernameField | PasswordField

  /** A user instance, as `UserSerializer.update` receives and mutates it. */
  class User {
    var email: string
    var username: string
    var password: Credential
    var isActive: bool
    var isValid: bool
    var authToken: string

    /** The stored record this instance holds. */
    function Record(): Account
      reads this
    {
      Account(email, username, password, isActive, isValid, authToken)
    }

    constructor (a: Account)
      ensures Record() == a
    {
      email, username, password := a.email, a.username, a.password;
      isActive, isValid, authToken := a.isActive, a.isValid, a.authToken;
    }

    /** `setattr(instance, key, value)`: the column is written as given, unhashed. */
    method SetAttr(key: UserField, value: string)
      modifies this
      ensures Record() == match key
        case EmailField => old(Record()).(email := value)
        case UsernameField => old(Record()).(username := value)
        case PasswordField => old(Record()).(password := Raw(value))
    {
      match key
      case EmailField => email := value;
      case UsernameField => username := value;
      case PasswordField => password := Raw(value);
    }

    /**
     `UserSerializer.update`: the password is popped out of the data first, every
     remaining field is copied verbatim, and a supplied password is stored only
     through `set_password`. Nothing else changes.
     */
    method Update(validatedData: map<UserField, string>)
      modifies this
      ensures email == if EmailField in validatedData then validatedData[EmailField] else old(email)
      ensures username == if UsernameField in validatedData then validatedData[UsernameField] else old(username)
      ensures password == if PasswordField in validatedData then SetPassword(validatedData[PasswordField]) else old(password)
      ensures isActive == old(isActive) && isValid == old(isValid) && authToken == old(authToken)
      ensures PasswordField in validatedData ==> CheckPassword(password, validatedData[PasswordField])
      ensures old(password).Hashed? ==> password.Hashed?
    {
      var newPassword: Option<string> := if PasswordField in validatedData then Some(validatedData[PasswordField]) else None;
      var rest := validatedData - {PasswordField};
      var pending := rest.Keys;
      while pending != {}
        invariant pending <= rest.Keys
        invariant email == if EmailField in rest && EmailField !in pending then rest[EmailField] else old(email)
        invariant username == if UsernameField in rest && UsernameField !in pending then rest[UsernameField] else old(username)
        invariant password == old(password)
        invariant isActive == old(isActive) && isValid == old(isValid) && authToken == old(authToken)
        decreases pending
      {
        var key :| key in pending;
        SetAttr(key, rest[key]);
        pending := pending - {key};
      }
      if newPassword.Some? {
        password := SetPassword(newPassword.value);
      }
    }
  }
}
