/** The redirect guards of the student and teacher layouts and the
    dashboard's redirect. */
module Guards {
  import opened Common
  import opened Store
  import GetRole

  datatype Outcome = Redirect(path: string) | Render

  /** `StudentLayout`: the checks apply in order; `!role` also rejects an
      empty role. */
  function StudentLayout(role: Option<string>): (g: Outcome)
    ensures !Truthy(role) ==> g == Redirect("/auth/login")
    ensures Truthy(role) && role.value == "INACTIVE" ==> g == Redirect("/auth/pending")
    ensures Truthy(role) && role.value != "INACTIVE" && role.value != "STUDENT" ==> g == Redirect("/teacher")
    ensures g == Render <==> role == Some("STUDENT")
  {
    if !Truthy(role) then Redirect("/auth/login")
    else if role.value == "INACTIVE" then Redirect("/auth/pending")
    else if role.value != "STUDENT" then Redirect("/teacher")
    else Render
  }

  /** `TeacherLayout`, the same checks for the teacher area. */
  function TeacherLayout(role: Option<string>): (g: Outcome)
    ensures !Truthy(role) ==> g == Redirect("/auth/login")
    ensures Truthy(role) && role.value == "INACTIVE" ==> g == Redirect("/auth/pending")
    ensures Truthy(role) && role.value != "INACTIVE" && role.value != "TEACHER" ==> g == Redirect("/student")
    ensures g == Render <==> role == Some("TEACHER")
  {
    if !Truthy(role) then Redirect("/auth/login")
    else if role.value == "INACTIVE" then Redirect("/auth/pending")
    else if role.value != "TEACHER" then Redirect("/student")
    else Render
  }

  /** No role is rendered by both layouts, and an active teacher or student
      sent away by the other area's layout lands in its own. */
  lemma LayoutsPartition(role: Option<string>)
    ensures !(StudentLayout(role) == Render && TeacherLayout(role) == Render)
    ensures role == Some("TEACHER") ==> StudentLayout(role) == Redirect("/teacher") && TeacherLayout(role) == Render
    ensures role == Some("STUDENT") ==> TeacherLayout(role) == Redirect("/student") && StudentLayout(role) == Render
  {
  }

  /** `Dashboard`: the profile read (its `role` only) fails on
      `ProfileRead`. */
  function Dashboard(user: Option<AuthUser>, profiles: map<Id, Profile>, fails: Failures): (path: string)
    ensures user.None? ==> path == "/auth/login"
    ensures user.Some? && (ProfileRead in fails || user.value.id !in profiles) ==> path == "/auth/login"
    ensures user.Some? && ProfileRead !in fails && user.value.id in profiles ==>
              path == (if profiles[user.value.id].role == "TEACHER" then "/teacher" else "/student")
  {
    if user.None? then "/auth/login"
    else if ProfileRead in fails || user.value.id !in profiles then "/auth/login"
    else if profiles[user.value.id].role == "TEACHER" then "/teacher"
    else "/student"
  }

  /** The dashboard never reads `is_active`: an inactive teacher is sent to
      /teacher, where the layout then sends them to /auth/pending. */
  lemma DashboardIgnoresActive(u: AuthUser, profiles: map<Id, Profile>, fails: Failures, active: bool)
    requires u.id in profiles
    ensures Dashboard(Some(u), profiles[u.id := profiles[u.id].(active := active)], fails) == Dashboard(Some(u), profiles, fails)
    ensures ProfileRead !in fails && profiles[u.id] == Profile("TEACHER", false, profiles[u.id].name) ==>
              Dashboard(Some(u), profiles, fails) == "/teacher"
              && TeacherLayout(Some(GetRole.RoleOf(profiles[u.id]))) == Redirect("/auth/pending")
  {
  }
}
