/** The identity handshake of `user_signup` and `user_auth`, and the profile update of
    `users/me/`, over a user table keyed by username. */
module Accounts {
  import opened Common
  import opened Models
  import Validators

  const MaxEmailLength := 254
  const MaxCodeLength := 50
  const MaxNameLength := 150

  /** The mail `send_email` sends: the greeting name, the recipient and the code. The code
      is the stored one, which the schema allows to be null. */
  datatype Mail = Mail(name: string, to: string, code: Option<string>)

  /** What `get_token_for_user` issues a token for; the JWT itself is not part of this model. */
  datatype Token = Token(username: string)

  /** `username` of `SignUpSerializer` and `TokenSerializer`: a non-blank `CharField` of at
      most 150 characters with the username validators. */
  predicate UsernameFieldOk(username: string)
  {
    |username| <= Validators.MaxUsernameLength && Validators.ValidateUsername(username).Ok?
  }

  /** `SignUpSerializer.is_valid`; the format check of `EmailField` is not part of this model. */
  predicate SignupFieldsOk(username: string, email: string)
  {
    UsernameFieldOk(username) && email != "" && |email| <= MaxEmailLength
  }

  /** `TokenSerializer.is_valid`. */
  predicate TokenFieldsOk(username: string, code: string)
  {
    UsernameFieldOk(username) && code != "" && |code| <= MaxCodeLength
  }

  /** A row with exactly this username and email: what `get_or_create` looks up. */
  predicate PairExists(users: map<string, CustomUser>, username: string, email: string)
  {
    username in users && users[username].email == email
  }

  predicate EmailTaken(users: map<string, CustomUser>, email: string)
  {
    exists k :: k in users && users[k].email == email
  }

  /** The editable fields of `AccountSerializer`; `role` may be sent but is read-only. */
  datatype AccountPatch = AccountPatch(
    username: Option<string>,
    email: Option<string>,
    role: Option<string>,
    firstName: Option<string>,
    lastName: Option<string>,
    bio: Option<string>)

  /** The user as a partial `save` leaves it: supplied fields replaced, `role`, the staff
      flag and the confirmation code kept. */
  function Patched(u: CustomUser, p: AccountPatch): (v: CustomUser)
    ensures v.role == u.role && v.isStaff == u.isStaff && v.confirmationCode == u.confirmationCode
    ensures p == AccountPatch(None, None, p.role, None, None, None) ==> v == u
  {
    u.(username := GetOr(p.username, u.username),
       email := GetOr(p.email, u.email),
       firstName := GetOr(p.firstName, u.firstName),
       lastName := GetOr(p.lastName, u.lastName),
       bio := GetOr(p.bio, u.bio))
  }

  /** `AccountSerializer(partial=True).is_valid` for user `current`: the unique validators
      exclude the user's own row. */
  predicate PatchOk(users: map<string, CustomUser>, current: string, p: AccountPatch)
  {
    (p.username.Some? ==>
       UsernameFieldOk(p.username.value) && (p.username.value == current || p.username.value !in users))
    && (p.email.Some? ==>
          p.email.value != "" && |p.email.value| <= MaxEmailLength
          && forall k :: k in users && k != current ==> users[k].email != p.email.value)
    && (p.firstName.Some? ==> |p.firstName.value| <= MaxNameLength)
    && (p.lastName.Some? ==> |p.lastName.value| <= MaxNameLength)
  }

  class UserStore {
    var users: map<string, CustomUser>

    /** Rows are keyed by their username (unique), and emails are unique too. */
    ghost predicate Valid()
      reads this
    {
      (forall k :: k in users ==> users[k].username == k)
      && (forall a, b :: a in users && b in users && users[a].email == users[b].email ==> a == b)
    }

    constructor ()
      ensures Valid() && users == map[]
    {
      users := map[];
    }

    /** `user_signup` with `freshCode` the code `create_confirmation_code` drew. */
    method Signup(username: string, email: string, freshCode: string) returns (r: Result<Mail>)
      requires Valid()
      modifies this`users
      ensures Valid()
      ensures r.Err? ==> r.error == BadRequest && users == old(users)
      ensures !SignupFieldsOk(username, email) ==> r.Err?
      ensures SignupFieldsOk(username, email) && PairExists(old(users), username, ToLower(email)) ==>
        r == Ok(Mail(username, ToLower(email), old(users)[username].confirmationCode))
        && users == old(users)
      ensures (SignupFieldsOk(username, email) && !PairExists(old(users), username, ToLower(email))
               && (username in old(users) || EmailTaken(old(users), ToLower(email)))) ==>
        r.Err?
      ensures (SignupFieldsOk(username, email) && username !in old(users)
               && !EmailTaken(old(users), ToLower(email))) ==>
        r == Ok(Mail(username, ToLower(email), Some(freshCode)))
        && users == old(users)[username := NewUser(username, ToLower(email), freshCode)]
      ensures r.Ok? ==> PairExists(users, username, ToLower(email))
      ensures r.Ok? ==> r.value.code == users[username].confirmationCode
      ensures r.Ok? && r.value.code.Some? && r.value.code.value != ""
              && |r.value.code.value| <= MaxCodeLength ==>
        Auth(username, r.value.code.value) == Ok(Token(username))
    {
      if !SignupFieldsOk(username, email) {
        return Err(BadRequest);
      }
      var lowered := ToLower(email);
      if PairExists(users, username, lowered) {
        return Ok(Mail(username, lowered, users[username].confirmationCode));
      }
      if username in users || EmailTaken(users, lowered) {
        return Err(BadRequest);
      }
      users := users[username := NewUser(username, lowered, freshCode)];
      r := Ok(Mail(username, lowered, Some(freshCode)));
    }

    /** Two signups with the same data: the second inserts nothing and mails the code the
        first one mailed, whatever code it drew itself. */
    method RepeatSignup(username: string, email: string, code1: string, code2: string)
      returns (first: Result<Mail>, second: Result<Mail>)
      requires Valid()
      modifies this`users
      ensures Valid()
      ensures first.Ok? ==> second == first
      ensures first.Ok? ==>
        users == old(users) || users == old(users)[username := NewUser(username, ToLower(email), code1)]
      ensures first.Err? ==> second.Err? && users == old(users)
    {
      first := Signup(username, email, code1);
      ghost var afterFirst := users;
      second := Signup(username, email, code2);
      assert first.Ok? ==> users == afterFirst;
    }

    /** `user_auth`: valid fields, a known username, and a code exactly equal to the stored
        one (a null stored code matches nothing). Reading only, it leaves the code as is. */
    function Auth(username: string, code: string): (r: Result<Token>)
      reads this
      ensures !TokenFieldsOk(username, code) ==> r == Err(BadRequest)
      ensures TokenFieldsOk(username, code) ==> (r == Err(NotFound) <==> username !in users)
      ensures r.Ok? <==>
        TokenFieldsOk(username, code) && username in users && users[username].confirmationCode == Some(code)
      ensures r.Ok? ==> r.value == Token(username)
    {
      if !TokenFieldsOk(username, code) then Err(BadRequest)
      else if username !in users then Err(NotFound)
      else if users[username].confirmationCode != Some(code) then Err(BadRequest)
      else Ok(Token(username))
    }

    /** `PATCH users/me/` by the authenticated user `current`. */
    method PatchMe(current: string, p: AccountPatch) returns (r: Result<CustomUser>)
      requires Valid() && current in users
      modifies this`users
      ensures Valid()
      ensures r.Ok? <==> PatchOk(old(users), current, p)
      ensures r.Err? ==> r.error == BadRequest && users == old(users)
      ensures r.Ok? ==> r.value == Patched(old(users)[current], p)
      ensures r.Ok? ==> users == (old(users) - {current})[r.value.username := r.value]
      ensures r.Ok? ==> r.value.role == old(users)[current].role
    {
      if !PatchOk(users, current, p) {
        return Err(BadRequest);
      }
      var updated := Patched(users[current], p);
      users := (users - {current})[updated.username := updated];
      r := Ok(updated);
    }
  }
}
