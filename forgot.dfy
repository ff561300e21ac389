/** The password-reset request form: the origin the emailed link points
    at, and the checks before the reset email is sent. */
module Forgot {
  import opened Common
  import Callback

  /** `s.replace(/\/$/, "")`: one trailing slash removed. */
  function StripSlash(s: string): (r: string)
    ensures |s| > 0 && s[|s| - 1] == '/' ==> r == s[..|s| - 1]
    ensures (|s| == 0 || s[|s| - 1] != '/') ==> r == s
  {
    if |s| > 0 && s[|s| - 1] == '/' then s[..|s| - 1] else s
  }

  /** Only one slash goes: a doubled trailing slash keeps one. */
  lemma OneSlashOnly(s: string)
    ensures StripSlash(s + "//") == s + "/"
    ensures StripSlash(StripSlash(s + "//")) == s
  {
    assert (s + "//")[..|s| + 1] == s + "/";
    assert (s + "/")[..|s|] == s;
  }

  /** `getAuthOrigin()`. `production` is `NODE_ENV === "production"`,
      `runtime` is `window.location.origin` ("" outside a browser) and `env`
      is `NEXT_PUBLIC_SITE_URL`. */
  function AuthOrigin(production: bool, runtime: string, env: Option<string>): (r: string)
    ensures var envOrigin := if env.Some? then StripSlash(env.value) else "";
            && (production && envOrigin != "" ==> r == envOrigin)
            && (!(production && envOrigin != "") ==>
                  r == (if runtime != "" then runtime else if envOrigin != "" then envOrigin else "http://localhost:3000"))
    ensures r != ""
  {
    var envOrigin := if env.Some? then Some(StripSlash(env.value)) else None;
    if production && Truthy(envOrigin) then envOrigin.value
    else OrFalsy(OrFalsy(Some(runtime), envOrigin), Some("http://localhost:3000")).value
  }

  /** An env URL of exactly "/" empties to "", which the production branch
      skips, and the later fallbacks decide. */
  lemma SlashAloneFallsThrough(runtime: string)
    ensures AuthOrigin(true, runtime, Some("/")) == (if runtime != "" then runtime else "http://localhost:3000")
  {
  }

  /** The reply of the check-email route as the form reads it: a non-ok
      reply's text, or whether its `exists` is truthy. */
  datatype CheckReply = CheckNotOk(text: string) | CheckOk(found: bool)

  /** The `resetPasswordForEmail` call: the address and the link target. */
  datatype ResetRequest = ResetRequest(email: string, redirectTo: string)

  const LinkPath := "/auth/callback?next=/auth/reset-password"

  /** The emailed link names the page the callback uses by default. */
  lemma LinkNamesDefaultNext(code: string, exchange: string -> Option<string>)
    ensures Callback.Callback(Some(code), Some("/auth/reset-password"), exchange) ==
            Callback.Callback(Some(code), None, exchange)
  {
  }

  class ForgotForm {
    var msg: Option<string>
    var err: Option<string>
    var loading: bool

    constructor ()
      ensures msg.None? && err.None? && !loading
    {
      msg, err, loading := None, None, false;
    }

    /** `onSubmit`. `reset` answers the reset request with its error
        message; `sent` is the request made, if any. */
    method Submit(email: string, check: CheckReply, production: bool, runtime: string, env: Option<string>,
                  reset: ResetRequest -> Option<string>) returns (sent: Option<ResetRequest>)
      modifies this
      ensures !loading
      ensures check.CheckNotOk? ==> sent.None? && err == Some(check.text) && msg.None?
      ensures check == CheckOk(false) ==> sent.None? && err == Some("Email tidak terdaftar.") && msg.None?
      ensures check == CheckOk(true) ==>
                && sent == Some(ResetRequest(email, AuthOrigin(production, runtime, env) + LinkPath))
                && (reset(sent.value).Some? ==> err == reset(sent.value) && msg.None?)
                && (reset(sent.value).None? ==>
                      err.None? && msg == Some("Email reset password sudah dikirim. Cek inbox/spam."))
    {
      err, msg := None, None;
      loading := true;
      if check.CheckNotOk? {
        loading := false;
        err := Some(check.text);
        return None;
      }
      if !check.found {
        loading := false;
        err := Some("Email tidak terdaftar.");
        return None;
      }
      var origin := AuthOrigin(production, runtime, env);
      var request := ResetRequest(email, origin + LinkPath);
      var error := reset(request);
      loading := false;
      if error.Some? {
        err := error;
        return Some(request);
      }
      msg := Some("Email reset password sudah dikirim. Cek inbox/spam.");
      return Some(request);
    }
  }
}
