/** Shared value types: optional values, JavaScript's three-state payload
    fields, parsed request bodies and HTTP replies. */
module Common {

  /** A value that may be absent (`null` or `undefined` in the source). */
  datatype Option<+T> = None | Some(value: T) {
    /** JavaScript's `a ?? d`. */
    function OrElse(d: T): T {
      if Some? then value else d
    }
  }

  /** A field of a JSON payload: absent (`undefined`), explicitly `null`, or
      a value. The update routes treat the first two differently. */
  datatype Field<+T> = Undefined | Null | Val(v: T) {
    /** `body.f ?? null` */
    function OrNull(): Option<T> {
      if Val? then Some(v) else None
    }
  }

  /** Row identifiers are strings (uuids in the database). */
  type Id = string

  /** The signed-in user as the identity provider reports it: id, email and
      the `display_name` and `name` entries of its metadata. */
  datatype AuthUser = AuthUser(id: Id, email: Option<string>, displayName: Option<string>, name: Option<string>)

  /** JavaScript truthiness of an optional string: `null`, `undefined` and
      `""` are falsy. */
  predicate Truthy(s: Option<string>) {
    s.Some? && s.value != ""
  }

  /** JavaScript's `a || b` on optional strings. */
  function OrFalsy(a: Option<string>, b: Option<string>): (r: Option<string>)
    ensures Truthy(a) ==> r == a
    ensures !Truthy(a) ==> r == b
  {
    if Truthy(a) then a else b
  }

  /** `await req.json()`: the parsed body, or the message of the error it
      threw (`None` when the thrown value is not an `Error`). */
  datatype Parsed<+T> = Parsed(value: T) | Unparseable(error: Option<string>)

  /** Bodies of the replies the routes send. */
  datatype Body =
    | Text(text: string)                        // new NextResponse(text)
    | JsonError(error: string)                  // { error }
    | JsonId(id: Id)                            // { id }
    | JsonOk                                    // { ok: true }
    | JsonLogin(userId: Id, role: string, active: bool)
    | JsonExists(found: bool)
    | JsonCreated(createdId: Id)                // { ok: true, userId }

  datatype Reply = Reply(status: int, body: Body) {
    predicate Ok() {
      200 <= status < 300
    }
  }

  function TextReply(status: int, text: string): Reply {
    Reply(status, Text(text))
  }

  function ErrorReply(status: int, error: string): Reply {
    Reply(status, JsonError(error))
  }

  /** The reply to a body that is not JSON: 400 with the parser's message,
      or "Invalid JSON". */
  function BadJson(error: Option<string>): (r: Reply)
    ensures r.status == 400 && r.body.JsonError?
    ensures error.Some? ==> r.body.error == error.value
  {
    ErrorReply(400, error.OrElse("Invalid JSON"))
  }
}
