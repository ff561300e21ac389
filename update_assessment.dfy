/** `POST /teacher/assessments/api/update`: the owner edits an assessment.
    Only the fields present in the body are written. */
module UpdateAssessment {
  import opened Common
  import opened Text
  import opened Password
  import opened Store
  import opened CreateAssessment

  /** The request body. Here `undefined` (`Undefined`) and `null` (`Null`)
      differ: an absent field leaves its column alone. */
  datatype Payload = Payload(
    id: Option<Id>, title: Field<string>, description: Field<string>, subjectName: Field<string>,
    startAt: Field<int>, endAt: Field<int>, duration: Field<int>, published: Option<bool>,
    password: Field<string>, clearPassword: Option<bool>)

  /** `updateData`: per column, `None` leaves it, `Some(v)` writes `v`. */
  datatype Patch = Patch(
    title: Option<string>, description: Option<Option<string>>, subject: Option<Option<Id>>,
    startAt: Option<Option<int>>, endAt: Option<Option<int>>, duration: Option<Option<int>>,
    published: Option<bool>, passwordHash: Option<Option<string>>)

  /** `if (f !== undefined) updateData.c = f ?? null` */
  function Present<T>(f: Field<T>): Option<Option<T>> {
    if f.Undefined? then None else Some(f.OrNull())
  }

  function Keep<T>(write: Option<T>, current: T): T {
    if write.Some? then write.value else current
  }

  /** The row after `update(updateData)`. */
  function Apply(a: Assessment, p: Patch): Assessment {
    Assessment(a.owner, Keep(p.title, a.title), Keep(p.description, a.description),
               Keep(p.subject, a.subject), Keep(p.startAt, a.startAt), Keep(p.endAt, a.endAt),
               Keep(p.duration, a.duration), Keep(p.passwordHash, a.passwordHash),
               Keep(p.published, a.published))
  }

  /** The password column: a truthy `clear_password` clears it, otherwise a
      present `password` sets it as on creation. */
  function PasswordPatch(body: Payload, salt: Salt, kdf: Kdf): Option<Option<string>> {
    if body.clearPassword == Some(true) then Some(None)
    else if body.password.Undefined? then None
    else Some(AccessHash(body.password.OrNull(), salt, kdf))
  }

  /** `updateData` built from the body; `subject` is the subject column the
      find-or-create step resolved (used only when `subject_name` is
      present). */
  function PatchOf(body: Payload, subject: Option<Id>, salt: Salt, kdf: Kdf): Patch {
    Patch(
      if body.title.Undefined? then None else Some(TrimmedOrEmpty(body.title.OrNull())),
      Present(body.description),
      if body.subjectName.Undefined? then None else Some(subject),
      Present(body.startAt), Present(body.endAt), Present(body.duration),
      body.published,
      PasswordPatch(body, salt, kdf))
  }

  /** Column by column, the updated row: each absent field keeps its column,
      each present one writes its value; the owner never changes. */
  lemma PatchColumns(a: Assessment, body: Payload, subject: Option<Id>, salt: Salt, kdf: Kdf)
    ensures var r := Apply(a, PatchOf(body, subject, salt, kdf));
            && r.owner == a.owner
            && r.title == (if body.title.Undefined? then a.title
                           else if body.title.Null? then "" else Trim(body.title.v))
            && r.description == (if body.description.Undefined? then a.description else body.description.OrNull())
            && r.subject == (if body.subjectName.Undefined? then a.subject else subject)
            && r.startAt == (if body.startAt.Undefined? then a.startAt else body.startAt.OrNull())
            && r.endAt == (if body.endAt.Undefined? then a.endAt else body.endAt.OrNull())
            && r.duration == (if body.duration.Undefined? then a.duration else body.duration.OrNull())
            && r.published == (if body.published.None? then a.published else body.published.value)
  {
  }

  /** A body with no fields and no clear flag leaves the row as it is. */
  lemma EmptyBodyKeepsRow(a: Assessment, id: Option<Id>, clear: Option<bool>, salt: Salt, kdf: Kdf, subject: Option<Id>)
    requires clear != Some(true)
    ensures var body := Payload.Payload(id, Undefined, Undefined, Undefined, Undefined, Undefined, Undefined, None, Undefined, clear);
            Apply(a, PatchOf(body, subject, salt, kdf)) == a
  {
  }

  /** `clear_password` wins over any `password`. */
  lemma ClearWins(a: Assessment, body: Payload, subject: Option<Id>, salt: Salt, kdf: Kdf)
    requires body.clearPassword == Some(true)
    ensures Apply(a, PatchOf(body, subject, salt, kdf)).passwordHash.None?
  {
  }

  /** Without `clear_password`: a blank or null password clears the hash, a
      non-blank one stores a hash its trimmed text verifies, and an absent
      one keeps the old hash. */
  lemma PasswordColumn(a: Assessment, body: Payload, subject: Option<Id>, salt: Salt, kdf: Kdf)
    requires body.clearPassword != Some(true)
    ensures var h := Apply(a, PatchOf(body, subject, salt, kdf)).passwordHash;
            && (body.password.Undefined? ==> h == a.passwordHash)
            && (body.password.Null? ==> h.None?)
            && (body.password.Val? ==> (h.None? <==> Blank(body.password.v)))
            && (body.password.Val? && h.Some? ==> VerifyPassword(Trim(body.password.v), h.value, kdf) == Returns(true))
  {
    if body.password.Val? && !Blank(body.password.v) {
      AccessHashVerifies(body.password.v, body.password.v, salt, kdf);
    }
  }

  /** The name find-or-create sees: `body.subject_name?.trim()`. */
  function SubjectNameOf(body: Payload): string {
    TrimmedOrEmpty(body.subjectName.OrNull())
  }

  /** The find-or-create step fails on a present, non-blank name. */
  predicate SubjectFails(subjects: map<Id, Subject>, body: Payload, fails: Failures) {
    && !body.subjectName.Undefined?
    && SubjectNameOf(body) != ""
    && !ReusesSubject(subjects, SubjectNameOf(body), fails)
    && SubjectInsert in fails
  }

  /** The route. `salt` is the random salt `hashPassword` would draw. */
  method Post(db: Db, user: Option<AuthUser>, body: Payload, salt: Salt, kdf: Kdf, fails: Failures)
    returns (reply: Reply)
    modifies db`subjects, db`assessments
    ensures user.None? ==> reply == TextReply(401, "Unauthorized") && db.State() == old(db.State())
    ensures user.Some? && !Truthy(body.id) ==> reply == TextReply(400, "Missing id") && db.State() == old(db.State())
    ensures user.Some? && Truthy(body.id) && !Owns(old(db.State()), body.id.value, user.value.id, fails) ==>
              reply == TextReply(404, "Not found") && db.State() == old(db.State())
    ensures var gated := user.Some? && Truthy(body.id) && Owns(old(db.State()), body.id.value, user.value.id, fails);
            && (gated && body.subjectName.Undefined? ==> db.subjects == old(db.subjects))
            && (gated && !body.subjectName.Undefined? ==> SubjectStep(old(db.subjects), db.subjects, SubjectNameOf(body), fails))
            && (gated && SubjectFails(old(db.subjects), body, fails) ==>
                  reply == TextReply(400, fails[SubjectInsert]) && db.assessments == old(db.assessments))
            && (gated && !SubjectFails(old(db.subjects), body, fails) && AssessmentUpdate in fails ==>
                  reply == TextReply(400, fails[AssessmentUpdate]) && db.assessments == old(db.assessments))
            && (gated && !SubjectFails(old(db.subjects), body, fails) && AssessmentUpdate !in fails ==>
                  reply == Reply(200, JsonOk))
    ensures reply.status == 200 ==>
              && user.Some? && Truthy(body.id) && body.id.value in old(db.assessments)
              && var id := body.id.value;
              && id in db.assessments
              && db.assessments == old(db.assessments)[id := Apply(old(db.assessments)[id],
                                                         PatchOf(body, db.assessments[id].subject, salt, kdf))]
              && (!body.subjectName.Undefined? ==>
                    SubjectColumn(db.assessments[id].subject, db.subjects, SubjectNameOf(body)))
  {
    if user.None? {
      return TextReply(401, "Unauthorized");
    }
    if !Truthy(body.id) {
      return TextReply(400, "Missing id");
    }
    var id := body.id.value;
    if !Owns(db.State(), id, user.value.id, fails) {
      return TextReply(404, "Not found");
    }
    var subject: Option<Id> := None;
    if !body.subjectName.Undefined? {
      var resolved := ResolveSubject(db, SubjectNameOf(body), fails);
      if resolved.Failed? {
        return TextReply(400, resolved.message);
      }
      subject := resolved.value;
    }
    if AssessmentUpdate in fails {
      return TextReply(400, fails[AssessmentUpdate]);
    }
    // the row matches both `id` and `owner_id`: the gate has just read it
    db.assessments := db.assessments[id := Apply(db.assessments[id], PatchOf(body, subject, salt, kdf))];
    return Reply(200, JsonOk);
  }
}
