/** `GET /auth/callback`: exchanges the recovery code of an emailed link
    for a session and picks the page to redirect to. */
module Callback {
  import opened Common

  /** The characters `encodeURIComponent` leaves as they are. */
  predicate Unreserved(c: char) {
    || ('A' <= c <= 'Z') || ('a' <= c <= 'z') || ('0' <= c <= '9')
    || c == '-' || c == '_' || c == '.' || c == '!' || c == '~' || c == '*' || c == '\'' || c == '(' || c == ')'
  }

  predicate IsHexUpper(c: char) {
    ('0' <= c <= '9') || ('A' <= c <= 'F')
  }

  function HexUpper(n: nat): (c: char)
    requires n < 16
    ensures IsHexUpper(c)
  {
    if n < 10 then ('0' as int + n) as char else ('A' as int + n - 10) as char
  }

  /** `%XX` for one byte. */
  function Escape(b: nat): (r: string)
    requires b < 256
    ensures |r| == 3 && r[0] == '%' && IsHexUpper(r[1]) && IsHexUpper(r[2])
  {
    ['%', HexUpper(b / 16), HexUpper(b % 16)]
  }

  /** The UTF-8 bytes of one code point. */
  function Utf8(c: char): (bytes: seq<nat>)
    ensures 1 <= |bytes| <= 4 && forall i :: 0 <= i < |bytes| ==> bytes[i] < 256
  {
    var cp := c as int;
    if cp < 0x80 then [cp]
    else if cp < 0x800 then [0xC0 + cp / 0x40, 0x80 + cp % 0x40]
    else if cp < 0x10000 then [0xE0 + cp / 0x1000, 0x80 + (cp / 0x40) % 0x40, 0x80 + cp % 0x40]
    else [0xF0 + cp / 0x40000, 0x80 + (cp / 0x1000) % 0x40, 0x80 + (cp / 0x40) % 0x40, 0x80 + cp % 0x40]
  }

  function EscapeAll(bytes: seq<nat>): (r: string)
    requires forall i :: 0 <= i < |bytes| ==> bytes[i] < 256
    ensures |r| == 3 * |bytes|
    ensures forall i :: 0 <= i < |r| ==> r[i] == '%' || IsHexUpper(r[i])
  {
    if bytes == [] then [] else Escape(bytes[0]) + EscapeAll(bytes[1..])
  }

  /** What a character of an encoded text can be. */
  predicate UriSafe(c: char) {
    Unreserved(c) || c == '%' || IsHexUpper(c)
  }

  /** `encodeURIComponent(s)`. */
  function EncodeComponent(s: string): (r: string)
    ensures forall i :: 0 <= i < |r| ==> UriSafe(r[i])
    ensures (forall i :: 0 <= i < |s| ==> Unreserved(s[i])) ==> r == s
  {
    if s == [] then []
    else (if Unreserved(s[0]) then [s[0]] else EscapeAll(Utf8(s[0]))) + EncodeComponent(s[1..])
  }

  /** An encoded text holds none of the characters that delimit a query
      parameter or start a fragment. */
  lemma EncodedHasNoDelimiters(s: string)
    ensures '&' !in EncodeComponent(s) && '=' !in EncodeComponent(s) && '#' !in EncodeComponent(s)
    ensures ' ' !in EncodeComponent(s) && '?' !in EncodeComponent(s)
  {
    assert !UriSafe('&') && !UriSafe('=') && !UriSafe('#') && !UriSafe(' ') && !UriSafe('?');
  }

  const FailedPrefix := "/auth/login?error=recovery_failed&msg="

  /** The redirect target, resolved against the request's origin. `code`
      and `next` are the query parameters; `exchange` is
      `exchangeCodeForSession`, answering its error message. */
  function Callback(code: Option<string>, next: Option<string>, exchange: string -> Option<string>): (target: string)
    ensures !Truthy(code) ==> target == "/auth/login?error=no_code"
    ensures Truthy(code) && exchange(code.value).Some? ==>
              target == FailedPrefix + EncodeComponent(exchange(code.value).value)
    ensures Truthy(code) && exchange(code.value).None? ==> target == next.OrElse("/auth/reset-password")
  {
    if !Truthy(code) then "/auth/login?error=no_code"
    else match exchange(code.value)
      case Some(message) => FailedPrefix + EncodeComponent(message)
      case None => next.OrElse("/auth/reset-password")
  }

  /** A failed exchange's message is carried whole in the last query
      parameter: nothing after `msg=` can open another parameter. */
  lemma FailureMessageStaysInParameter(code: string, next: Option<string>, exchange: string -> Option<string>)
    requires code != "" && exchange(code).Some?
    ensures var t := Callback(Some(code), next, exchange);
            && t[..|FailedPrefix|] == FailedPrefix
            && '&' !in t[|FailedPrefix|..] && '#' !in t[|FailedPrefix|..]
  {
    var t := Callback(Some(code), next, exchange);
    assert t[|FailedPrefix|..] == EncodeComponent(exchange(code).value);
    EncodedHasNoDelimiters(exchange(code).value);
  }

  /** `next` is not validated: after a successful exchange any target the
      link names is followed, another site's address included. */
  lemma NextNotValidated(code: string, target: string, exchange: string -> Option<string>)
    requires code != "" && exchange(code).None?
    ensures Callback(Some(code), Some(target), exchange) == target
  {
  }
}
