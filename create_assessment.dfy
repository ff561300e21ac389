/** `POST /teacher/assessments/api/create`: a teacher creates a draft
    assessment. */
module CreateAssessment {
  import opened Common
  import opened Text
  import opened Password
  import opened Store

  /** The request body; `null` and absent fields are both `None` here,
      since every optional field is read with `?? null` or `?.trim()`. */
  datatype Payload = Payload(
    title: Option<string>, description: Option<string>, subjectName: Option<string>,
    startAt: Option<int>, endAt: Option<int>, duration: Option<int>,
    password: Option<string>)

  /** `!body.title || !body.title.trim()` */
  predicate TitleMissing(body: Payload) {
    body.title.None? || Blank(body.title.value)
  }

  /** `x?.trim()` read as text, with an absent value as "". */
  function TrimmedOrEmpty(x: Option<string>): string {
    if x.Some? then Trim(x.value) else ""
  }

  /** `password ? hashPassword(password) : null` for `password = p?.trim()`. */
  function AccessHash(p: Option<string>, salt: Salt, kdf: Kdf): (r: Option<string>)
    ensures r.None? <==> TrimmedOrEmpty(p) == ""
  {
    var password := TrimmedOrEmpty(p);
    if password == "" then None else Some(HashPassword(password, salt, kdf))
  }

  /** A stored access hash is verified by the trimmed password, and by any
      password the KDF cannot tell from it. */
  lemma AccessHashVerifies(p: string, given: string, salt: Salt, kdf: Kdf)
    requires AccessHash(Some(p), salt, kdf).Some?
    ensures var stored := AccessHash(Some(p), salt, kdf).value;
            && VerifyPassword(Trim(p), stored, kdf) == Returns(true)
            && VerifyPassword(given, stored, kdf) ==
               Returns(kdf(given, HexEncode(salt)) == kdf(Trim(p), HexEncode(salt)))
  {
    VerifyHashed(Trim(p), salt, kdf);
    SameAsOtherPassword(given, Trim(p), salt, kdf);
  }

  /** The subjects table after find-or-create for the name `name`: unchanged
      for a blank name, a reused subject or a failed insert; otherwise one
      new row with that name. */
  predicate SubjectStep(before: map<Id, Subject>, after: map<Id, Subject>, name: string, fails: Failures) {
    if name == "" || ReusesSubject(before, name, fails) || SubjectInsert in fails then after == before
    else AddsOne(before, after, Subject(name))
  }

  /** The subject column of the new row: none for a blank name, otherwise a
      subject of that name. */
  predicate SubjectColumn(subject: Option<Id>, subjects: map<Id, Subject>, name: string) {
    if name == "" then subject.None?
    else subject.Some? && subject.value in subjects && subjects[subject.value].name == name
  }

  /** The inserted row: trimmed title, owner, a draft, the hash, and the
      optional fields as given (absent ones null). */
  predicate IsNewRow(a: Assessment, body: Payload, owner: Id, salt: Salt, kdf: Kdf) {
    && body.title.Some?
    && a.owner == owner
    && a.title == Trim(body.title.value)
    && a.description == body.description
    && a.startAt == body.startAt && a.endAt == body.endAt && a.duration == body.duration
    && a.passwordHash == AccessHash(body.password, salt, kdf)
    && !a.published
  }

  /** The subject column for a `subject_name`: null for a blank name,
      otherwise the found or created subject. */
  method ResolveSubject(db: Db, name: string, fails: Failures) returns (r: Outcome<Option<Id>>)
    modifies db`subjects
    ensures SubjectStep(old(db.subjects), db.subjects, name, fails)
    ensures r.Failed? <==> name != "" && !ReusesSubject(old(db.subjects), name, fails) && SubjectInsert in fails
    ensures r.Failed? ==> r.message == fails[SubjectInsert]
    ensures r.Done? ==> SubjectColumn(r.value, db.subjects, name)
  {
    if name == "" {
      return Done(None);
    }
    ghost var before := db.subjects;
    var found := db.FindOrCreateSubject(name, fails);
    if found.Failed? {
      return Failed(found.message);
    }
    if !ReusesSubject(before, name, fails) {
      AddsOneByUpdate(before, found.value, Subject(name));
    }
    return Done(Some(found.value));
  }

  /** The route. `salt` is the random salt `hashPassword` would draw. */
  method Post(db: Db, user: Option<AuthUser>, body: Payload, salt: Salt, kdf: Kdf, fails: Failures)
    returns (reply: Reply)
    modifies db`subjects, db`assessments
    ensures user.None? ==> reply == TextReply(401, "Unauthorized") && db.State() == old(db.State())
    ensures user.Some? && TitleMissing(body) ==>
              reply == TextReply(400, "Title is required") && db.State() == old(db.State())
    ensures user.Some? && !TitleMissing(body) ==>
              Created(old(db.subjects), db.subjects, old(db.assessments), db.assessments,
                      user.value.id, body, salt, kdf, fails, reply)
  {
    if user.None? {
      return TextReply(401, "Unauthorized");
    }
    if TitleMissing(body) {
      return TextReply(400, "Title is required");
    }
    reply := Create(db, user.value.id, body, salt, kdf, fails);
  }

  /** The outcomes once the gates pass: the subject step, then the insert
      of the new row, each failure answered with its message. */
  predicate Created(subjects0: map<Id, Subject>, subjects1: map<Id, Subject>,
                    rows0: map<Id, Assessment>, rows1: map<Id, Assessment>,
                    owner: Id, body: Payload, salt: Salt, kdf: Kdf, fails: Failures, reply: Reply) {
    && SubjectStep(subjects0, subjects1, TrimmedOrEmpty(body.subjectName), fails)
    && (reply.status != 200 ==> reply.status == 400 && rows1 == rows0)
    && (reply.status == 200 <==> AssessmentInsert !in fails && !SubjectFails(subjects0, body, fails))
    && (SubjectFails(subjects0, body, fails) ==> reply == TextReply(400, fails[SubjectInsert]))
    && (!SubjectFails(subjects0, body, fails) && AssessmentInsert in fails ==>
          reply == TextReply(400, fails[AssessmentInsert]))
    && (reply.status == 200 ==>
          && reply.body.JsonId? && reply.body.id !in rows0 && reply.body.id in rows1
          && rows1 == rows0[reply.body.id := rows1[reply.body.id]]
          && IsNewRow(rows1[reply.body.id], body, owner, salt, kdf)
          && SubjectColumn(rows1[reply.body.id].subject, subjects1, TrimmedOrEmpty(body.subjectName))
          && rows1[reply.body.id].owner == owner)
  }

  /** The subject step and the insert, for a signed-in `owner` and a
      present title. */
  method Create(db: Db, owner: Id, body: Payload, salt: Salt, kdf: Kdf, fails: Failures)
    returns (reply: Reply)
    requires !TitleMissing(body)
    modifies db`subjects, db`assessments
    ensures Created(old(db.subjects), db.subjects, old(db.assessments), db.assessments,
                    owner, body, salt, kdf, fails, reply)
  {
    var hash := AccessHash(body.password, salt, kdf);
    var subject := ResolveSubject(db, TrimmedOrEmpty(body.subjectName), fails);
    if subject.Failed? {
      return TextReply(400, subject.message);
    }
    if AssessmentInsert in fails {
      return TextReply(400, fails[AssessmentInsert]);
    }
    var row := Assessment(owner, Trim(body.title.value), body.description, subject.value,
                          body.startAt, body.endAt, body.duration, hash, false);
    var id := NewId(db.assessments.Keys);
    db.assessments := db.assessments[id := row];
    return Reply(200, JsonId(id));
  }

  /** The find-or-create step fails: a non-blank name, no subject to reuse,
      and a failing insert. */
  predicate SubjectFails(subjects: map<Id, Subject>, body: Payload, fails: Failures) {
    var name := TrimmedOrEmpty(body.subjectName);
    name != "" && !ReusesSubject(subjects, name, fails) && SubjectInsert in fails
  }
}
