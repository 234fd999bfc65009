/**
 The user store shared by registration, login, password reset and social login.

 A stored user is a value of type `Account`; the store is a sequence of them in
 insertion order. The ORM queries the serializers issue (`filter(...)`,
 `.exists()`, `get(...)`) are the pure functions `Filter` and `Get` below.
 */
module Accounts {

  datatype Option<+T> = None | Some(value: T)

  /** The error conditions the serializers and the social flow raise. */
  datatype Error =
    | FieldTooLong(field: string, maxLength: nat)   // a CharField's max_length validator
    | FieldTooShort(field: string, minLength: nat)  // a CharField's min_length validator
    | PasswordTooShort                              // validate_password, length below 8
    | WeakPassword                                  // validate_password, character-class lookaheads
    | DuplicateEmail                                // validate_email
    | DuplicateUsername                             // validate_username, lookup
    | InvalidUsernameFormat                         // validate_username, regex
    | EmailRequired                                 // login, no email given
    | PasswordRequired                              // login, no password given
    | InvalidCredentials                            // login, authenticate found nobody
    | Deactivated                                   // login, is_active is false
    | Unverified                                    // login, is_valid is false
    | InvalidResetEmail(value: string)              // password-reset email lookup failed
    | SocialEmailMissing                            // social login, claim without email
    | MultipleObjectsReturned                       // `get` matched more than one user (not caught)

  datatype Result<+T> = Ok(value: T) | Err(error: Error)

  /**
   The user-facing text of each error: the serializers' own wording, and a
   paraphrase for the two that come from the framework (field length, `get`).
   */
  function Message(e: Error): string
  {
    match e
    case FieldTooLong(_, _) => "Ensure this field has no more than the allowed number of characters."
    case FieldTooShort(_, _) => "Ensure this field has at least the required number of characters."
    case PasswordTooShort => "Password must be longer than 8 characters."
    case WeakPassword => "Password should at least contain a number, capital and small letter."
    case DuplicateEmail => "Email already exists."
    case DuplicateUsername => "Username already exists."
    case InvalidUsernameFormat => "username cannot be integers, have white spaces or symbols."
    case EmailRequired => "An email address is required to log in."
    case PasswordRequired => "A password is required to log in."
    case InvalidCredentials => "A user with this email and password was not found."
    case Deactivated => "This user has been deactivated."
    case Unverified => "This user has not been verified, please check your email to verify."
    case InvalidResetEmail(v) => v + " is Invalid"
    case SocialEmailMissing => "Users must have an email address."
    case MultipleObjectsReturned => "get() returned more than one User"
  }

  /**
   The content of a user's password column. `set_password` and `create_user`
   store a salted one-way hash, modelled as the injective tag `Hashed`; a string
   written into the column directly (a plain attribute assignment) is `Raw`.
   */
  datatype Credential = Hashed(secret: string) | Raw(text: string)

  /** `set_password`: the raw password is only ever stored through the hasher. */
  function SetPassword(raw: string): Credential
  {
    Hashed(raw)
  }

  /** `check_password`: a column that is not a recognised hash matches nothing. */
  predicate CheckPassword(c: Credential, raw: string)
  {
    c.Hashed? && c.secret == raw
  }

  /** A stored user. `isValid` is the email-verification flag. */
  datatype Account = Account(
    email: string,
    username: string,
    password: Credential,
    isActive: bool,
    isValid: bool,
    authToken: string)

  /** The lookups the serializers perform: `filter(email=...)`, `filter(username=...)`. */
  datatype Query = EmailIs(email: string) | UsernameIs(username: string)

  predicate Satisfies(a: Account, q: Query)
  {
    match q
    case EmailIs(e) => a.email == e
    case UsernameIs(u) => a.username == u
  }

  /** `filter(...)`: the positions, in store order, of every account the query matches. */
  function Filter(users: seq<Account>, q: Query): (ix: seq<nat>)
    ensures forall k :: 0 <= k < |ix| ==> ix[k] < |users| && Satisfies(users[ix[k]], q)
    ensures forall i :: 0 <= i < |users| && Satisfies(users[i], q) ==> i in ix
    ensures forall k, l :: 0 <= k < l < |ix| ==> ix[k] < ix[l]
    decreases |users|
  {
    if users == [] then []
    else
      var init := Filter(users[..|users| - 1], q);
      if Satisfies(users[|users| - 1], q) then init + [|users| - 1] else init
  }

  /** `filter(...).exists()` */
  predicate Exists(users: seq<Account>, q: Query)
  {
    |Filter(users, q)| > 0
  }

  lemma ExistsIff(users: seq<Account>, q: Query)
    ensures Exists(users, q) <==> exists i :: 0 <= i < |users| && Satisfies(users[i], q)
  {
    if Exists(users, q) {
      var ix := Filter(users, q);
      assert ix[0] < |users| && Satisfies(users[ix[0]], q);
    }
  }

  /** Exactly one account matches the query. */
  ghost predicate ExactlyOne(users: seq<Account>, q: Query)
  {
    exists i :: 0 <= i < |users| && Satisfies(users[i], q) &&
      forall j :: 0 <= j < |users| && Satisfies(users[j], q) ==> j == i
  }

  /** The three outcomes of the ORM's `get(...)`. */
  datatype GetOutcome = Found(index: nat) | DoesNotExist | MultipleReturned

  /** Two distinct matching accounts rule out a unique match. */
  lemma TwoMatchesNotExactlyOne(users: seq<Account>, q: Query, i: nat, j: nat)
    requires i < |users| && j < |users| && i != j
    requires Satisfies(users[i], q) && Satisfies(users[j], q)
    ensures !ExactlyOne(users, q)
  {
  }

  /** `get(...)`: succeeds only when exactly one account matches. */
  function Get(users: seq<Account>, q: Query): (g: GetOutcome)
    ensures g.Found? <==> ExactlyOne(users, q)
    ensures g.Found? ==> g.index < |users| && Satisfies(users[g.index], q)
    ensures g.DoesNotExist? <==> forall i :: 0 <= i < |users| ==> !Satisfies(users[i], q)
  {
    var ix := Filter(users, q);
    if |ix| == 0 then
      DoesNotExist
    else if |ix| == 1 then
      assert forall j :: 0 <= j < |users| && Satisfies(users[j], q) ==> j == ix[0];
      Found(ix[0])
    else
      TwoMatchesNotExactlyOne(users, q, ix[0], ix[1]);
      MultipleReturned
  }

  /** The store holds each email at most once. */
  ghost predicate UniqueEmails(users: seq<Account>)
  {
    forall i, j :: 0 <= i < j < |users| ==> users[i].email != users[j].email
  }

  /** The store holds each username at most once. */
  ghost predicate UniqueUsernames(users: seq<Account>)
  {
    forall i, j :: 0 <= i < j < |users| ==> users[i].username != users[j].username
  }

  /** With unique emails an email lookup never returns more than one user. */
  lemma UniqueEmailsGetNeverMultiple(users: seq<Account>, e: string)
    requires UniqueEmails(users)
    ensures Get(users, EmailIs(e)) != MultipleReturned
    ensures Get(users, EmailIs(e)).Found? <==> exists i :: 0 <= i < |users| && users[i].email == e
  {
    if exists i :: 0 <= i < |users| && users[i].email == e {
      var i :| 0 <= i < |users| && users[i].email == e;
      assert ExactlyOne(users, EmailIs(e));
    }
  }
}
