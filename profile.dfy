/**
 * The profile controller: reading one's own user record without the
 * password, and updating it from a request body whose password, when given,
 * is stored hashed. The user record is a map from field name to value;
 * `hash` stands for bcrypt.
 */
module Profile {
  import opened Wrappers
  import opened Models

  /** A user record or a request body: field name to value. */
  type Fields = map<string, string>

  const PasswordField: string := "password"
  const EmailField: string := "email"

  /** The fields the User schema declares; the strict schema drops any other
      key of an update. */
  const UserFields: set<string> := {
    "email", "full_name", "password", "designation", "department_id", "contact",
    "working_hours", "employee_id", "avatar_url", "responsibilities", "last_login"
  }

  /** `body.k` is truthy. */
  predicate Given(body: Fields, k: string) {
    k in body && body[k] != ""
  }

  /** The update sent to the database: the body, with a given password
      replaced by its hash and a blank one removed. */
  function SanitisedUpdate(body: Fields, hash: string -> string): (update: Fields)
    ensures Given(body, PasswordField) ==> PasswordField in update && update[PasswordField] == hash(body[PasswordField])
    ensures !Given(body, PasswordField) ==> PasswordField !in update
    ensures forall k :: k != PasswordField ==> (k in update <==> k in body)
    ensures forall k :: k != PasswordField && k in body ==> update[k] == body[k]
  {
    if Given(body, PasswordField) then body[PasswordField := hash(body[PasswordField])]
    else body - {PasswordField}
  }

  /** The controller's copy-then-edit of the body: `{...body}`, then the
      password key overwritten with its hash or deleted. */
  method SanitiseUpdate(body: Fields, hash: string -> string) returns (update: Fields)
    ensures update == SanitisedUpdate(body, hash)
  {
    update := body;
    if Given(update, PasswordField) {
      update := update[PasswordField := hash(update[PasswordField])];
    } else {
      update := update - {PasswordField};
    }
  }

  /** `.select('-password')`. */
  function WithoutPassword(user: Fields): (r: Fields)
    ensures PasswordField !in r
    ensures forall k :: k != PasswordField ==> (k in r <==> k in user)
    ensures forall k :: k in r ==> r[k] == user[k]
  {
    user - {PasswordField}
  }

  /** `findByIdAndUpdate` under a strict schema (the store passes
      UserFields): each schema field of the update overwrites, every other
      stored field stays. */
  function Merged(user: Fields, update: Fields, schema: set<string>): (r: Fields)
    ensures forall k :: k in r <==> k in user || (k in update && k in schema)
    ensures forall k :: k in update && k in schema ==> r[k] == update[k]
    ensures forall k :: k in user && !(k in update && k in schema) ==> r[k] == user[k]
  {
    map k | k in user.Keys + (update.Keys * schema) ::
      if k in update && k in schema then update[k] else user[k]
  }

  /** The unique index on `email`. */
  ghost predicate UniqueEmails(users: map<UserId, Fields>) {
    forall u, v :: u in users && v in users && u != v && EmailField in users[u] && EmailField in users[v] ==>
      users[u][EmailField] != users[v][EmailField]
  }

  /** Some user other than `me` already has this email. */
  predicate EmailTaken(users: map<UserId, Fields>, me: UserId, email: string) {
    exists u :: u in users && u != me && EmailField in users[u] && users[u][EmailField] == email
  }

  /** Hiding the password commutes with a merge, once the update's own
      password is dropped. */
  lemma {:induction false} HidingCommutesWithMerge(user: Fields, update: Fields, schema: set<string>)
    ensures WithoutPassword(Merged(user, update, schema)) ==
      Merged(WithoutPassword(user), update - {PasswordField}, schema)
  {
    var lhs := WithoutPassword(Merged(user, update, schema));
    var rhs := Merged(WithoutPassword(user), update - {PasswordField}, schema);
    forall k ensures k in lhs <==> k in rhs { }
    forall k | k in lhs ensures lhs[k] == rhs[k] { }
  }

  /** What a caller sees after an update: the old profile with the body's
      schema fields other than the password written over it. */
  lemma {:induction false} UpdatedProfile(user: Fields, body: Fields, hash: string -> string)
    ensures WithoutPassword(Merged(user, SanitisedUpdate(body, hash), UserFields)) ==
      Merged(WithoutPassword(user), body - {PasswordField}, UserFields)
  {
    var update := SanitisedUpdate(body, hash);
    HidingCommutesWithMerge(user, update, UserFields);
    assert update - {PasswordField} == body - {PasswordField};
  }

  /** A blank or missing password leaves the stored password as it was. */
  lemma {:induction false} BlankPasswordKept(user: Fields, body: Fields, hash: string -> string)
    requires !Given(body, PasswordField)
    ensures PasswordField in Merged(user, SanitisedUpdate(body, hash), UserFields) <==> PasswordField in user
    ensures PasswordField in user ==> Merged(user, SanitisedUpdate(body, hash), UserFields)[PasswordField] == user[PasswordField]
  {
    var update := SanitisedUpdate(body, hash);
    assert PasswordField !in update;
  }

  /** Writing a record whose email nobody else has keeps emails unique. */
  lemma {:induction false} FreshEmailKeepsUnique(users: map<UserId, Fields>, me: UserId, record: Fields)
    requires UniqueEmails(users)
    requires me in users
    requires EmailField in record ==>
      !EmailTaken(users, me, record[EmailField])
    ensures UniqueEmails(users[me := record])
  {
    var users' := users[me := record];
    forall u, v | u in users' && v in users' && u != v && EmailField in users'[u] && EmailField in users'[v]
      ensures users'[u][EmailField] != users'[v][EmailField]
    {
      if u == me {
        assert users[v] == users'[v];
      } else if v == me {
        assert users[u] == users'[u];
      }
    }
  }

  class UserStore {
    var users: map<UserId, Fields>

    ghost predicate Valid()
      reads this
    {
      UniqueEmails(users)
    }

    constructor ()
      ensures Valid() && users == map[]
    {
      users := map[];
    }

    /** getMyProfile: 404 when the caller has no record (also when the token
        carried no id), otherwise the record without its password. */
    method GetMyProfile(me: Option<UserId>) returns (r: Response<Fields>)
      ensures r.NotFound? <==> me.None? || me.value !in users
      ensures r.Ok? ==> r.value == WithoutPassword(users[me.value]) && PasswordField !in r.value
      ensures r.Ok? || r.NotFound?
    {
      if me.None? || me.value !in users {
        return NotFound;
      }
      return Ok(WithoutPassword(users[me.value]));
    }

    /** updateMyProfile: the answer is 200 with null when there is no record
        to update, 500 when the new email belongs to someone else, and
        otherwise the updated record without its password. */
    method UpdateMyProfile(me: Option<UserId>, body: Fields, hash: string -> string) returns (r: Response<Option<Fields>>)
      requires Valid()
      modifies this
      ensures Valid()
      ensures (me.None? || me.value !in old(users)) ==> r == Ok(None) && users == old(users)
      ensures me.Some? && me.value in old(users) && EmailField in body && EmailTaken(old(users), me.value, body[EmailField]) ==>
        r == ServerError && users == old(users)
      ensures me.Some? && me.value in old(users) && !(EmailField in body && EmailTaken(old(users), me.value, body[EmailField])) ==>
        r.Ok? && r.value.Some?
      ensures r.Ok? && r.value.Some? ==>
        && me.Some? && me.value in old(users)
        && users == old(users)[me.value := Merged(old(users)[me.value], SanitisedUpdate(body, hash), UserFields)]
        && r.value.value == WithoutPassword(users[me.value])
        && (Given(body, PasswordField) ==> users[me.value][PasswordField] == hash(body[PasswordField]))
      ensures r.Ok? || r.ServerError?
    {
      var update := SanitiseUpdate(body, hash);
      if me.None? || me.value !in users {
        return Ok(None);
      }
      var id := me.value;
      if EmailField in update && EmailTaken(users, id, update[EmailField]) {
        return ServerError;
      }
      var record := Merged(users[id], update, UserFields);
      FreshEmailKeepsUnique(users, id, record);
      users := users[id := record];
      r := Ok(Some(WithoutPassword(record)));
    }
  }
}
