/** `POST /api/auth/login`: password sign-in, then the caller's profile,
    created as an active student profile when there is none. */
module LoginRoute {
  import opened Common
  import opened Text
  import opened Store
  import GetRole

  datatype Credentials = Credentials(email: Option<string>, password: Option<string>)

  /** What `signInWithPassword` (under its timeout) produced: a thrown
      error's message (`None` for a thrown non-`Error`), or the user id and
      error of its answer. */
  datatype SignIn = Threw(message: Option<string>) | Answered(user: Option<Id>, error: Option<string>)

  /** `body.email?.trim()` */
  function Email(c: Credentials): (r: Option<string>)
    ensures r.Some? <==> c.email.Some?
    ensures r.Some? ==> r.value == Trim(c.email.value)
  {
    if c.email.Some? then Some(Trim(c.email.value)) else None
  }

  /** `!email || !password`: the password is not trimmed, so a password of
      spaces passes while an email of spaces does not. */
  predicate Missing(c: Credentials) {
    !Truthy(Email(c)) || !Truthy(c.password)
  }

  lemma SpacesPasswordPasses(email: string)
    requires !Blank(email)
    ensures !Missing(Credentials(Some(email), Some(" ")))
    ensures Missing(Credentials(Some(" "), Some(email)))
  {
    assert AllSpace(" ");
  }

  const TimeoutText := "Auth timeout. Supabase sedang throttling / koneksi bermasalah."
  const GatewayText := "Non-JSON response from Supabase (gateway/proxy error)."

  /** The reply to a thrown sign-in error. */
  function ThrownReply(message: Option<string>): (r: Reply)
    ensures var m := message.OrElse("Auth request failed");
            && (Contains(ToLower(m), "timeout") ==> r == ErrorReply(503, TimeoutText))
            && (!Contains(ToLower(m), "timeout") && Contains(m, "Unexpected token") ==> r == ErrorReply(502, GatewayText))
            && (!Contains(ToLower(m), "timeout") && !Contains(m, "Unexpected token") ==> r == ErrorReply(502, m))
  {
    var m := message.OrElse("Auth request failed");
    if Contains(ToLower(m), "timeout") then ErrorReply(503, TimeoutText)
    else if Contains(m, "Unexpected token") then ErrorReply(502, GatewayText)
    else ErrorReply(502, m)
  }

  /** A thrown error is a gateway failure, 502 or 503, and a timeout is
      recognised whatever its letter case and before the token test:
      `"Unexpected token after TIMEOUT"` is a 503. */
  lemma ThrownIsGatewayFailure(pre: string, mid: string, post: string)
    ensures ThrownReply(Some(pre + mid + post)).status in {502, 503}
    ensures ToLower(mid) == "timeout" ==> ThrownReply(Some(pre + mid + post)) == ErrorReply(503, TimeoutText)
  {
    if ToLower(mid) == "timeout" {
      assert ToLower(pre + mid + post) == ToLower(pre) + ToLower(mid) + ToLower(post);
      ContainsInfix(ToLower(pre), "timeout", ToLower(post));
    }
  }

  /** The name of a profile this route provisions:
      `display_name ?? name ?? emailLocalPart ?? null`, from the admin
      lookup of the user (`None` when the lookup finds nobody). */
  function ProvisionName(u: Option<AuthUser>): (r: Option<string>)
    ensures u.None? ==> r.None?
    ensures u.Some? && u.value.displayName.Some? ==> r == u.value.displayName
    ensures u.Some? && u.value.displayName.None? && u.value.name.Some? ==> r == u.value.name
    ensures u.Some? && u.value.displayName.None? && u.value.name.None? ==>
              r == (if Truthy(u.value.email) then Some(Before(u.value.email.value, '@')) else None)
  {
    if u.None? then None
    else if u.value.displayName.Some? then u.value.displayName
    else if u.value.name.Some? then u.value.name
    else if Truthy(u.value.email) then Some(Before(u.value.email.value, '@'))
    else None
  }

  /** The two places that provision a profile name it differently: this
      route keeps an empty display name and may store no name at all, where
      `getUserRole` always stores a non-empty one. */
  lemma ProvisionNamesDiffer(u: AuthUser)
    requires u.displayName == Some("")
    ensures ProvisionName(Some(u)) == Some("")
    ensures GetRole.ProvisionName(u) != ""
  {
  }

  /** The route. `signIn` answers for the email and password it is given,
      `lookup` is the admin `getUserById`. */
  method Post(db: Db, body: Parsed<Credentials>, signIn: (string, string) -> SignIn,
              lookup: Id -> Option<AuthUser>, fails: Failures) returns (reply: Reply)
    modifies db`profiles
    ensures body.Unparseable? ==> reply == BadJson(body.error) && db.profiles == old(db.profiles)
    ensures body.Parsed? && Missing(body.value) ==>
              reply == ErrorReply(400, "Email dan password wajib diisi.") && db.profiles == old(db.profiles)
    ensures body.Parsed? && !Missing(body.value) ==>
              var s := signIn(Email(body.value).value, body.value.password.value);
              && (s.Threw? ==> reply == ThrownReply(s.message) && db.profiles == old(db.profiles))
              && (s.Answered? && (s.error.Some? || s.user.None?) ==>
                    reply == ErrorReply(400, s.error.OrElse("Login gagal.")) && db.profiles == old(db.profiles))
              && (s.Answered? && s.error.None? && s.user.Some? ==>
                    Signed(old(db.profiles), db.profiles, s.user.value, lookup, fails, reply))
    ensures reply.status == 200 ==>
              && reply.body.JsonLogin? && reply.body.userId in db.profiles
              && db.profiles[reply.body.userId].role == reply.body.role
              && db.profiles[reply.body.userId].active == reply.body.active
  {
    if body.Unparseable? {
      return BadJson(body.error);
    }
    if Missing(body.value) {
      return ErrorReply(400, "Email dan password wajib diisi.");
    }
    var s := signIn(Email(body.value).value, body.value.password.value);
    if s.Threw? {
      return ThrownReply(s.message);
    }
    if s.error.Some? || s.user.None? {
      return ErrorReply(400, s.error.OrElse("Login gagal."));
    }
    reply := SignedIn(db, s.user.value, lookup, fails);
  }

  /** The outcomes for a signed-in user `id`: a failed profile read is a
      400; an existing profile is reported as stored; a missing one is
      inserted as an active student, unless the insert fails. */
  predicate Signed(before: map<Id, Profile>, after: map<Id, Profile>, id: Id,
                   lookup: Id -> Option<AuthUser>, fails: Failures, reply: Reply) {
    if ProfileRead in fails then
      reply == ErrorReply(400, fails[ProfileRead]) && after == before
    else if id in before then
      reply == Reply(200, JsonLogin(id, before[id].role, before[id].active)) && after == before
    else if ProfileInsert in fails then
      reply == ErrorReply(400, fails[ProfileInsert]) && after == before
    else
      && reply == Reply(200, JsonLogin(id, "STUDENT", true))
      && after == before[id := Profile("STUDENT", true, ProvisionName(lookup(id)))]
  }

  /** The profile part of the route. */
  method SignedIn(db: Db, id: Id, lookup: Id -> Option<AuthUser>, fails: Failures) returns (reply: Reply)
    modifies db`profiles
    ensures Signed(old(db.profiles), db.profiles, id, lookup, fails, reply)
  {
    if ProfileRead in fails {
      return ErrorReply(400, fails[ProfileRead]);
    }
    if id in db.profiles {
      var p := db.profiles[id];
      return Reply(200, JsonLogin(id, p.role, p.active));
    }
    if ProfileInsert in fails {
      return ErrorReply(400, fails[ProfileInsert]);
    }
    db.profiles := db.profiles[id := Profile("STUDENT", true, ProvisionName(lookup(id)))];
    return Reply(200, JsonLogin(id, "STUDENT", true));
  }
}
