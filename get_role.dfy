/** `getUserRole`: the signed-in user's role from `profiles`, provisioning
    a student profile when none can be read. */
module GetRole {
  import opened Common
  import opened Text
  import opened Store
  import StudentHome

  datatype RoleResult = RoleResult(user: Option<AuthUser>, role: Option<string>)

  /** The role a profile grants: INACTIVE for an inactive one, whatever its
      role, otherwise the stored role. */
  function RoleOf(p: Profile): (r: string)
    ensures !p.active ==> r == "INACTIVE"
    ensures p.active ==> r == p.role
  {
    if !p.active then "INACTIVE" else p.role
  }

  /** The name of a provisioned profile:
      `display_name || name || emailLocalPart || "Student"`. `||` skips empty
      strings. */
  function ProvisionName(u: AuthUser): (r: string)
    ensures r != ""
    ensures Truthy(u.displayName) ==> r == u.displayName.value
    ensures !Truthy(u.displayName) && Truthy(u.name) ==> r == u.name.value
    ensures !Truthy(u.displayName) && !Truthy(u.name) && Truthy(u.email) && Before(u.email.value, '@') != "" ==>
              r == Before(u.email.value, '@')
    ensures !Truthy(u.displayName) && !Truthy(u.name) && (!Truthy(u.email) || Before(u.email.value, '@') == "") ==>
              r == "Student"
  {
    var fromEmail := if Truthy(u.email) then Some(Before(u.email.value, '@')) else None;
    OrFalsy(OrFalsy(OrFalsy(u.displayName, u.name), fromEmail), Some("Student")).value
  }

  /** The greeting of the student home uses `??` where provisioning uses
      `||`: an empty display name is kept by the one and skipped by the
      other. */
  lemma EmptyDisplayNameDiffers(u: AuthUser)
    requires u.displayName == Some("")
    ensures StudentHome.DisplayName(Some(u)) == ""
    ensures ProvisionName(u) != ""
  {
  }

  /** The profile provisioning inserts. */
  function Provisioned(u: AuthUser): Profile {
    Profile("STUDENT", true, Some(ProvisionName(u)))
  }

  /** `getUserRole()`. The first read fails on `ProfileRead`; the insert
      fails on `ProfileInsert` or because a profile with that id exists; the
      retry read fails on `ProfileReread`. */
  method GetUserRole(db: Db, user: Option<AuthUser>, fails: Failures) returns (r: RoleResult)
    modifies db`profiles
    ensures r.user == user
    ensures user.None? ==> r.role.None? && db.profiles == old(db.profiles)
    ensures user.Some? && ProfileRead !in fails && user.value.id in old(db.profiles) ==>
              r.role == Some(RoleOf(old(db.profiles)[user.value.id])) && db.profiles == old(db.profiles)
    ensures user.Some? && !(ProfileRead !in fails && user.value.id in old(db.profiles)) ==>
              if ProfileInsert !in fails && user.value.id !in old(db.profiles) then
                r.role == Some("STUDENT") && db.profiles == old(db.profiles)[user.value.id := Provisioned(user.value)]
              else
                && db.profiles == old(db.profiles)
                && r.role == (if ProfileReread in fails || user.value.id !in db.profiles then None
                              else Some(RoleOf(db.profiles[user.value.id])))
    ensures r.role.Some? ==> user.Some? && user.value.id in db.profiles && r.role == Some(RoleOf(db.profiles[user.value.id]))
  {
    if user.None? {
      return RoleResult(None, None);
    }
    var id := user.value.id;
    if ProfileRead !in fails && id in db.profiles {
      return RoleResult(user, Some(RoleOf(db.profiles[id])));
    }
    if ProfileInsert !in fails && id !in db.profiles {
      db.profiles := db.profiles[id := Provisioned(user.value)];
      return RoleResult(user, Some("STUDENT"));
    }
    if ProfileReread in fails || id !in db.profiles {
      return RoleResult(user, None);
    }
    return RoleResult(user, Some(RoleOf(db.profiles[id])));
  }
}
