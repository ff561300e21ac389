/** `POST /dev/create-user`: the development-only route that creates a
    confirmed account and its profile. */
module CreateUser {
  import opened Common
  import opened Text
  import opened Store

  datatype Payload = Payload(email: Option<string>, password: Option<string>,
                             role: Option<string>, displayName: Option<string>)

  /** The `createUser` request: email, password and the `display_name`
      metadata entry, when there is one. */
  datatype NewUser = NewUser(email: string, password: string, displayName: Option<string>)

  /** The `createUser` answer: the new user's id and the error. */
  datatype Created = Created(user: Option<Id>, error: Option<string>)

  /** `x?.trim()` */
  function Trimmed(x: Option<string>): (r: Option<string>)
    ensures r.Some? <==> x.Some?
    ensures r.Some? ==> r.value == Trim(x.value)
  {
    if x.Some? then Some(Trim(x.value)) else None
  }

  /** The checks on the body: a non-blank email, a non-empty password (not
      trimmed) and one of the two roles. */
  predicate Valid(b: Payload) {
    Truthy(Trimmed(b.email)) && Truthy(b.password) && b.role in {Some("TEACHER"), Some("STUDENT")}
  }

  /** The `createUser` request of a valid body: `user_metadata` only for a
      non-blank display name. */
  function Request(b: Payload): (r: NewUser)
    requires Valid(b)
    ensures r.email == Trim(b.email.value) && r.password == b.password.value
    ensures r.displayName.Some? <==> Truthy(Trimmed(b.displayName))
    ensures r.displayName.Some? ==> r.displayName.value == Trim(b.displayName.value)
  {
    NewUser(Trim(b.email.value), b.password.value,
            if Truthy(Trimmed(b.displayName)) then Trimmed(b.displayName) else None)
  }

  /** The profile of the new account: `name = displayName || email`, the
      requested role, active. */
  function NewProfile(b: Payload): (p: Profile)
    requires Valid(b)
    ensures p.role == b.role.value && p.active
    ensures p.name == Some(if Truthy(Trimmed(b.displayName)) then Trim(b.displayName.value) else Trim(b.email.value))
    ensures p.name.Some? && p.name.value != ""
  {
    Profile(b.role.value, true, OrFalsy(Trimmed(b.displayName), Trimmed(b.email)))
  }

  /** The error PostgreSQL reports for a second row with the same key. */
  const DuplicateProfile := "duplicate key value violates unique constraint \"profiles_pkey\""

  /** The route. `development` is `NODE_ENV === "development"`; `create`
      is the admin `createUser`. The profile insert fails on
      `ProfileInsert` or when the id already has a profile. */
  method Post(db: Db, development: bool, body: Parsed<Payload>, create: NewUser -> Created, fails: Failures)
    returns (reply: Reply)
    modifies db`profiles
    ensures !development ==> reply == TextReply(404, "Not Found") && db.profiles == old(db.profiles)
    ensures development && body.Unparseable? ==> reply == BadJson(body.error) && db.profiles == old(db.profiles)
    ensures development && body.Parsed? && !Valid(body.value) ==>
              reply == ErrorReply(400, "email, password, role wajib diisi") && db.profiles == old(db.profiles)
    ensures development && body.Parsed? && Valid(body.value) ==>
              var c := create(Request(body.value));
              && (c.error.Some? || c.user.None? ==>
                    reply == ErrorReply(400, c.error.OrElse("Gagal create user")) && db.profiles == old(db.profiles))
              && (c.error.None? && c.user.Some? ==>
                    if ProfileInsert in fails || c.user.value in old(db.profiles) then
                      reply.status == 400 && db.profiles == old(db.profiles)
                    else
                      reply == Reply(200, JsonCreated(c.user.value))
                      && db.profiles == old(db.profiles)[c.user.value := NewProfile(body.value)])
    ensures reply.status == 200 ==>
              && reply.body.JsonCreated? && reply.body.createdId in db.profiles
              && db.profiles[reply.body.createdId].active
              && db.profiles[reply.body.createdId].role in {"TEACHER", "STUDENT"}
  {
    if !development {
      return TextReply(404, "Not Found");
    }
    if body.Unparseable? {
      return BadJson(body.error);
    }
    var b := body.value;
    if !Valid(b) {
      return ErrorReply(400, "email, password, role wajib diisi");
    }
    var c := create(Request(b));
    if c.error.Some? || c.user.None? {
      return ErrorReply(400, c.error.OrElse("Gagal create user"));
    }
    var id := c.user.value;
    if ProfileInsert in fails {
      return ErrorReply(400, fails[ProfileInsert]);
    }
    if id in db.profiles {
      return ErrorReply(400, DuplicateProfile);
    }
    db.profiles := db.profiles[id := NewProfile(b)];
    return Reply(200, JsonCreated(id));
  }
}
