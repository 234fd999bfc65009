/**
 Social login: given the claim an identity provider returned, find the user
 with the claim's email or create one, then answer with the claim's email and
 name and the user's token.

 `LoginOrRegister` states the whole effect as a function of the store before
 the call; `UserStore.LoginOrRegisterSocialUser` performs it step by step on
 the store and is proved to agree with it.
 */
module Social {
  import opened Accounts
  import Serializers

  /** The provider's answer; `None` is a key the answer does not carry. */
  datatype Claim = Claim(email: Option<string>, name: Option<string>)

  /** The dictionary the flow returns. There is no password in it. */
  datatype SocialResponse = SocialResponse(email: string, username: Option<string>, token: string)

  /**
   What the flow draws from outside itself: the `uuid4` string used as a
   placeholder username, the generated random password, and the token the new
   user will carry.
   */
  datatype Fresh = Fresh(uuid: string, randomPassword: string, authToken: string)

  /** The result and the store after the call. */
  datatype SocialOutcome = SocialOutcome(result: Result<SocialResponse>, users: seq<Account>)

  /** The flags `create_user` leaves on a new user: neither active nor verified. */
  const CreateUserIsActive := false
  const CreateUserIsValid := false

  /** The record `create_user(email, username, password)` stores: the password goes through the hasher. */
  function NewUserRecord(email: string, username: string, password: string, token: string): (a: Account)
    ensures CheckPassword(a.password, password) && a.password.Hashed?
    ensures a.email == email && a.username == username && a.authToken == token
  {
    Account(email, username, SetPassword(password), CreateUserIsActive, CreateUserIsValid, token)
  }

  /** `User.objects.get(email=social_user.get('email'))`: no stored user has a missing email. */
  function GetByClaimEmail(users: seq<Account>, email: Option<string>): (g: GetOutcome)
    ensures email.None? ==> g == DoesNotExist
    ensures g.Found? ==> email.Some? && g.index < |users| && users[g.index].email == email.value
    ensures email.Some? && g.DoesNotExist? ==> forall i :: 0 <= i < |users| ==> users[i].email != email.value
  {
    if email.None? then DoesNotExist else Get(users, EmailIs(email.value))
  }

  /**
   `login_or_register_social_user`. A lookup that finds several users raises
   past the handler; a claim without email is refused; an existing user is
   used as it is; otherwise one user is created with the claim's email, the
   claim's name (or the uuid) as username, a random password and `is_active`
   set. The answer carries the claim's email and name, not the stored ones.
   */
  function LoginOrRegister(users: seq<Account>, claim: Claim, drawn: Fresh): (o: SocialOutcome)
    ensures users <= o.users && |o.users| <= |users| + 1
    ensures o.result.Err? ==> o.users == users
    ensures o.result.Ok? ==> claim.email.Some? && o.result.value.email == claim.email.value
    ensures o.result.Ok? ==> o.result.value.username == claim.name
  {
    match GetByClaimEmail(users, claim.email)
    case MultipleReturned => SocialOutcome(Err(MultipleObjectsReturned), users)
    case Found(i) => SocialOutcome(Ok(SocialResponse(claim.email.value, claim.name, users[i].authToken)), users)
    case DoesNotExist =>
      if claim.email.None? then
        SocialOutcome(Err(SocialEmailMissing), users)
      else
        var username := if claim.name.Some? then claim.name.value else drawn.uuid;
        var user := NewUserRecord(claim.email.value, username, drawn.randomPassword, drawn.authToken).(isActive := true);
        SocialOutcome(Ok(SocialResponse(claim.email.value, claim.name, user.authToken)), users + [user])
  }

  /** The shared user store and the social flow's steps on it. */
  class UserStore {
    var users: seq<Account>

    constructor ()
      ensures users == []
    {
      users := [];
    }

    /** `User.objects.create_user(...)`: stores a new user and gives its position. */
    method CreateUser(email: string, username: string, password: string, token: string) returns (index: nat)
      modifies this
      ensures index == |old(users)|
      ensures users == old(users) + [NewUserRecord(email, username, password, token)]
    {
      index := |users|;
      users := users + [NewUserRecord(email, username, password, token)];
    }

    /** `user.is_active = value` followed by `user.save()`. */
    method SaveIsActive(index: nat, value: bool)
      requires index < |users|
      modifies this
      ensures users == old(users)[index := old(users)[index].(isActive := value)]
    {
      users := users[index := users[index].(isActive := value)];
    }

    /** `login_or_register_social_user` run against this store. */
    method LoginOrRegisterSocialUser(claim: Claim, drawn: Fresh) returns (r: Result<SocialResponse>)
      modifies this
      ensures SocialOutcome(r, users) == LoginOrRegister(old(users), claim, drawn)
    {
      match GetByClaimEmail(users, claim.email)
      case MultipleReturned =>
        r := Err(MultipleObjectsReturned);
      case Found(i) =>
        var user := users[i];
        r := Ok(SocialResponse(claim.email.value, claim.name, user.authToken));
      case DoesNotExist =>
        if claim.email.None? {
          r := Err(SocialEmailMissing);
          return;
        }
        var anonymousUser := drawn.uuid;
        var username := if claim.name.Some? then claim.name.value else anonymousUser;
        var index := CreateUser(claim.email.value, username, drawn.randomPassword, drawn.authToken);
        SaveIsActive(index, true);
        var user := users[index];
        r := Ok(SocialResponse(claim.email.value, claim.name, user.authToken));
    }
  }

  // ---------------------------------------------------------------------------
  // Properties of the flow

  /** A claim without email is refused and the store is left as it was. */
  lemma MissingEmailRefused(users: seq<Account>, claim: Claim, drawn: Fresh)
    requires claim.email.None?
    ensures LoginOrRegister(users, claim, drawn) == SocialOutcome(Err(SocialEmailMissing), users)
  {
  }

  /**
   When exactly one user has the claim's email, nothing is created and no
   stored field changes; the answer is the claim's email and name with that
   user's token.
   */
  lemma ExistingUserReused(users: seq<Account>, claim: Claim, drawn: Fresh, i: nat)
    requires claim.email.Some? && i < |users| && users[i].email == claim.email.value
    requires forall j :: 0 <= j < |users| && users[j].email == claim.email.value ==> j == i
    ensures LoginOrRegister(users, claim, drawn) ==
      SocialOutcome(Ok(SocialResponse(claim.email.value, claim.name, users[i].authToken)), users)
  {
    var g := Get(users, EmailIs(claim.email.value));
    assert Satisfies(users[i], EmailIs(claim.email.value));
    assert g.Found?;
  }

  /** Several users sharing the claim's email make the lookup raise; nothing changes. */
  lemma SharedEmailRaises(users: seq<Account>, claim: Claim, drawn: Fresh, i: nat, j: nat)
    requires claim.email.Some? && i < j < |users|
    requires users[i].email == claim.email.value && users[j].email == claim.email.value
    ensures LoginOrRegister(users, claim, drawn) == SocialOutcome(Err(MultipleObjectsReturned), users)
  {
    TwoMatchesNotExactlyOne(users, EmailIs(claim.email.value), i, j);
  }

  /**
   When no user has the claim's email, exactly one user is appended: the
   claim's email, the claim's name or else the uuid as username, a hash of the
   generated password (nothing from the claim), active, and with the
   verification flag left as `create_user` set it. The answer carries the
   claim's name even when the uuid was stored.
   */
  lemma NewUserCreated(users: seq<Account>, claim: Claim, drawn: Fresh)
    requires claim.email.Some?
    requires forall j :: 0 <= j < |users| ==> users[j].email != claim.email.value
    ensures var o := LoginOrRegister(users, claim, drawn);
      && o.users == users + [Account(
           claim.email.value,
           if claim.name.Some? then claim.name.value else drawn.uuid,
           SetPassword(drawn.randomPassword),
           true,
           CreateUserIsValid,
           drawn.authToken)]
      && o.result == Ok(SocialResponse(claim.email.value, claim.name, drawn.authToken))
  {
    assert Get(users, EmailIs(claim.email.value)).DoesNotExist?;
  }

  /**
   The generated password goes only into the stored hash: drawing another one
   leaves the answer as it was.
   */
  lemma AnswerIgnoresGeneratedPassword(users: seq<Account>, claim: Claim, drawn: Fresh, password: string)
    ensures LoginOrRegister(users, claim, drawn).result ==
      LoginOrRegister(users, claim, drawn.(randomPassword := password)).result
  {
  }

  /** Adding a user with a drawn email makes the email lookup find exactly that user. */
  lemma GetAfterAppend(users: seq<Account>, user: Account)
    requires forall j :: 0 <= j < |users| ==> users[j].email != user.email
    ensures Get(users + [user], EmailIs(user.email)) == Found(|users|)
  {
    var after := users + [user];
    var q := EmailIs(user.email);
    assert Satisfies(after[|users|], q);
    assert forall j :: 0 <= j < |after| && Satisfies(after[j], q) ==> j == |users|;
    assert ExactlyOne(after, q);
  }

  /**
   After a successful call, the same claim finds the user the first call found
   or made: a second call creates nothing and gives the same answer, whatever
   drawn values it is offered.
   */
  lemma Idempotent(users: seq<Account>, claim: Claim, drawn: Fresh, drawn': Fresh)
    requires LoginOrRegister(users, claim, drawn).result.Ok?
    ensures var o := LoginOrRegister(users, claim, drawn);
      LoginOrRegister(o.users, claim, drawn') == o
  {
    var o := LoginOrRegister(users, claim, drawn);
    var g := GetByClaimEmail(users, claim.email);
    if g.DoesNotExist? {
      var user := o.users[|users|];
      assert o.users == users + [user];
      GetAfterAppend(users, user);
    }
  }

  /** The flow keeps emails unique, and so never meets a shared email. */
  lemma KeepsUniqueEmails(users: seq<Account>, claim: Claim, drawn: Fresh)
    requires UniqueEmails(users)
    ensures var o := LoginOrRegister(users, claim, drawn);
      UniqueEmails(o.users) && o.result != Err(MultipleObjectsReturned)
  {
    var o := LoginOrRegister(users, claim, drawn);
    if claim.email.Some? {
      UniqueEmailsGetNeverMultiple(users, claim.email.value);
    }
    if o.users != users {
      assert forall j :: 0 <= j < |users| ==> users[j].email != claim.email.value;
      assert forall j :: 0 <= j < |users| ==> o.users[j] == users[j];
    }
  }

  /** Usernames stay unique when the name stored for a new user is not already taken. */
  lemma KeepsUniqueUsernames(users: seq<Account>, claim: Claim, drawn: Fresh)
    requires UniqueUsernames(users)
    requires forall j :: 0 <= j < |users| ==>
      users[j].username != if claim.name.Some? then claim.name.value else drawn.uuid
    ensures UniqueUsernames(LoginOrRegister(users, claim, drawn).users)
  {
    var o := LoginOrRegister(users, claim, drawn);
    if o.users != users {
      assert forall j :: 0 <= j < |users| ==> o.users[j] == users[j];
    }
  }

  /**
   A user the flow creates is not verified, so a password login with the
   generated password stops at the verification check.
   */
  lemma NewSocialUserCannotLogIn(users: seq<Account>, claim: Claim, drawn: Fresh)
    requires UniqueEmails(users)
    requires claim.email.Some?
    requires forall j :: 0 <= j < |users| ==> users[j].email != claim.email.value
    ensures var o := LoginOrRegister(users, claim, drawn);
      Serializers.Login(o.users, Serializers.LoginRequest(claim.email, Some(drawn.randomPassword))) == Err(Unverified)
  {
    var o := LoginOrRegister(users, claim, drawn);
    KeepsUniqueEmails(users, claim, drawn);
    NewUserCreated(users, claim, drawn);
    Serializers.LoginOutcome(o.users, claim.email.value, drawn.randomPassword);
    assert o.users[|users|].email == claim.email.value;
  }
}
