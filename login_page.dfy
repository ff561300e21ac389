/** The login form's submit handler: the error shown for a refused or
    failed request, and the page a signed-in user is sent to. */
module LoginPage {
  import opened Common
  import opened Text
  import Store
  import GetRole
  import Guards

  /** The `error` and `message` entries of a JSON error body. */
  datatype ErrorFields = ErrorFields(error: Option<string>, message: Option<string>)

  /** What the `fetch` of the login route produced: a thrown error (its
      message, `None` for a thrown non-`Error`; a success body that does not
      parse throws too), a non-ok response (its content type, its body as
      JSON — `None` when that parse fails — and as text), or an ok
      response's role and active flag. */
  datatype LoginCall =
    | Threw(message: Option<string>)
    | Refused(contentType: Option<string>, json: Option<ErrorFields>, text: string)
    | Accepted(role: string, active: bool)

  const DefaultFailure := "Login gagal. Cek email dan password."
  const WrongCredentials := "Email atau password salah."
  const Unconfirmed := "Email belum diverifikasi. Silakan cek inbox."
  const Throttled := "Auth request gagal. Supabase sedang throttling / koneksi bermasalah."
  const TimedOut := "Auth request timeout. Coba lagi sebentar."
  const MissingEnv := "Env Supabase tidak terbaca di client. Restart dev server."
  /** The error the form's own 12 s timer rejects with, written in the
      three pieces the timeout proof takes apart. */
  const TimerError := "Request " + "timeout" + ". Cek koneksi & konfigurasi Supabase."

  /** The message read from a non-ok response before translation. */
  function Extracted(contentType: Option<string>, json: Option<ErrorFields>, text: string): (m: string)
    ensures Contains(contentType.OrElse(""), "application/json") ==>
              m == (if json.None? then DefaultFailure
                    else json.value.error.OrElse(json.value.message.OrElse(DefaultFailure)))
    ensures !Contains(contentType.OrElse(""), "application/json") ==>
              m == (if Blank(text) then DefaultFailure else Trim(text))
  {
    if Contains(contentType.OrElse(""), "application/json") then
      if json.None? then DefaultFailure
      else json.value.error.OrElse(json.value.message.OrElse(DefaultFailure))
    else if Trim(text) != "" then Trim(text)
    else DefaultFailure
  }

  /** The error shown for a thrown error. */
  function ThrownMessage(message: Option<string>): (r: string)
    ensures var m := message.OrElse("Auth request failed. Coba lagi.");
            && (Contains(ToLower(m), "failed to fetch") ==> r == Throttled)
            && (!Contains(ToLower(m), "failed to fetch") && Contains(ToLower(m), "timeout") ==> r == TimedOut)
            && (!Contains(ToLower(m), "failed to fetch") && !Contains(ToLower(m), "timeout") ==> r == m)
  {
    var m := message.OrElse("Auth request failed. Coba lagi.");
    if Contains(ToLower(m), "failed to fetch") then Throttled
    else if Contains(ToLower(m), "timeout") then TimedOut
    else m
  }

  /** A thrown message that mentions a timeout, in any letter case, reads
      as the timeout text unless it also mentions a failed fetch; a message
      with no letter h cannot mention one. */
  lemma TimeoutsReadTimeout(pre: string, mid: string, post: string)
    requires ToLower(mid) == "timeout"
    requires 'h' !in ToLower(pre) && 'h' !in ToLower(post)
    ensures ThrownMessage(Some(pre + mid + post)) == TimedOut
  {
    var lower := ToLower(pre + mid + post);
    assert lower == ToLower(pre) + "timeout" + ToLower(post);
    ContainsInfix(ToLower(pre), "timeout", ToLower(post));
    assert 'h' !in lower;
    MissingCharExcludes(lower, "failed to fetch", 'h');
  }

  /** When the form's own timer fires, the user reads the timeout text. */
  lemma TimerReadsTimeout()
    ensures ThrownMessage(Some(TimerError)) == TimedOut
  {
    TimeoutsReadTimeout("Request ", "timeout", ". Cek koneksi & konfigurasi Supabase.");
  }

  /** `payload.is_active` is checked before `payload.role`. */
  function Landing(role: string, active: bool): (path: string)
    ensures !active ==> path == "/auth/pending"
    ensures active ==> path == (if role == "TEACHER" then "/teacher" else "/student")
  {
    if !active then "/auth/pending"
    else if role == "TEACHER" then "/teacher"
    else "/student"
  }

  /** The two known sign-in refusals, in their translated wording. The
      credentials-phrase test comes first, and its replacement does not
      contain the other phrase, so it wins when a message carries both. */
  method Translate(raw: string) returns (message: string)
    ensures Contains(ToLower(raw), "invalid login credentials") ==> message == WrongCredentials
    ensures !Contains(ToLower(raw), "invalid login credentials") && Contains(ToLower(raw), "email not confirmed") ==>
              message == Unconfirmed
    ensures !Contains(ToLower(raw), "invalid login credentials") && !Contains(ToLower(raw), "email not confirmed") ==>
              message == raw
  {
    message := raw;
    if Contains(ToLower(message), "invalid login credentials") {
      message := WrongCredentials;
      CredentialsTextLacksUnconfirmed();
    }
    if Contains(ToLower(message), "email not confirmed") {
      message := Unconfirmed;
    }
  }

  lemma CredentialsTextLacksUnconfirmed()
    ensures !Contains(ToLower(WrongCredentials), "email not confirmed")
  {
    LowerMissing(WrongCredentials, 'n');
    MissingCharExcludes(ToLower(WrongCredentials), "email not confirmed", 'n');
  }

  /** For a profile with one of the two roles, the page the form lands on
      is one whose layout renders for the role `getUserRole` reports, and
      only an inactive profile lands on the pending page. */
  lemma LandingRenders(p: Store.Profile)
    requires p.role == "TEACHER" || p.role == "STUDENT"
    ensures var path := Landing(p.role, p.active);
            var role := Some(GetRole.RoleOf(p));
            && (path == "/auth/pending" <==> !p.active)
            && (path == "/teacher" ==> Guards.TeacherLayout(role) == Guards.Render)
            && (path == "/student" ==> Guards.StudentLayout(role) == Guards.Render)
  {
  }

  /** An active profile with any other role lands on /student, whose
      layout sends it to /teacher, whose layout sends it back to /student. */
  lemma OtherRoleBounces(role: string)
    requires role != "TEACHER" && role != "STUDENT" && role != "INACTIVE" && role != ""
    ensures Landing(role, true) == "/student"
    ensures Guards.StudentLayout(Some(role)) == Guards.Redirect("/teacher")
    ensures Guards.TeacherLayout(Some(role)) == Guards.Redirect("/student")
  {
  }

  /** The form's state: the error line, the loading flag and the page the
      router was sent to. */
  class LoginForm {
    var err: Option<string>
    var loading: bool
    var route: Option<string>

    /** The mount effect reports missing client configuration. */
    constructor (envSet: bool)
      ensures err == (if envSet then None else Some(MissingEnv))
      ensures !loading && route.None?
    {
      err := if envSet then None else Some(MissingEnv);
      loading := false;
      route := None;
    }

    /** `onSubmit`. */
    method Submit(call: LoginCall)
      modifies this
      ensures !loading
      ensures call.Threw? ==> err == Some(ThrownMessage(call.message)) && route == old(route)
      ensures call.Accepted? ==> err.None? && route == Some(Landing(call.role, call.active))
      ensures call.Refused? ==>
                var raw := Extracted(call.contentType, call.json, call.text);
                && route == old(route)
                && (Contains(ToLower(raw), "invalid login credentials") ==> err == Some(WrongCredentials))
                && (!Contains(ToLower(raw), "invalid login credentials") && Contains(ToLower(raw), "email not confirmed") ==>
                      err == Some(Unconfirmed))
                && (!Contains(ToLower(raw), "invalid login credentials") && !Contains(ToLower(raw), "email not confirmed") ==>
                      err == Some(raw))
    {
      err := None;
      loading := true;
      match call {
        case Threw(message) =>
          err := Some(ThrownMessage(message));
        case Refused(contentType, json, text) =>
          var message := Translate(Extracted(contentType, json, text));
          err := Some(message);
        case Accepted(role, active) =>
          route := Some(Landing(role, active));
      }
      loading := false;
    }
  }
}
