/** `POST /teacher/assessments/api/questions/create`: the owner adds a
    multiple-choice question with its options and answer key. */
module CreateQuestion {
  import opened Common
  import opened Text
  import opened Store
  import opened QuestionOptions

  datatype Payload = Payload(
    assessmentId: Option<Id>, prompt: Option<string>, points: Option<int>,
    options: Option<seq<OptionIn>>, correctIndex: Option<int>)

  /** The positions of the assessment's questions. */
  function PositionsOf(qs: map<Id, Question>, assessment: Id): set<int> {
    set k | k in qs && qs[k].assessment == assessment :: qs[k].position
  }

  /** `(lastPosRow?.position ?? 0) + 1`, where the read returns the highest
      position; a failed read counts as no row. */
  predicate IsNextPosition(qs: map<Id, Question>, assessment: Id, fails: Failures, next: int) {
    if PositionRead in fails || PositionsOf(qs, assessment) == {} then next == 1
    else next - 1 in PositionsOf(qs, assessment) && forall p :: p in PositionsOf(qs, assessment) ==> p < next
  }

  /** The store's answer to the `order(position desc).limit(1)` read. */
  method NextPosition(qs: map<Id, Question>, assessment: Id, fails: Failures) returns (next: int)
    ensures IsNextPosition(qs, assessment, fails, next)
  {
    if PositionRead in fails {
      return 1;
    }
    var last: Option<int> := None;
    var todo := qs.Keys;
    while todo != {}
      invariant todo <= qs.Keys
      invariant last.None? ==> forall k :: k in qs && k !in todo ==> qs[k].assessment != assessment
      invariant last.Some? ==> last.value in PositionsOf(qs, assessment)
      invariant last.Some? ==> forall k :: k in qs && k !in todo && qs[k].assessment == assessment ==> qs[k].position <= last.value
      decreases todo
    {
      var k :| k in todo;
      if qs[k].assessment == assessment && (last.None? || qs[k].position > last.value) {
        last := Some(qs[k].position);
      }
      todo := todo - {k};
    }
    if last.None? {
      assert PositionsOf(qs, assessment) == {};
      return 1;
    }
    return last.value + 1;
  }

  /** The requirements checked before any store access, in this order. */
  function Validate(user: Option<AuthUser>, body: Payload): (r: Option<Reply>)
    ensures r.None? <==> user.Some? && Truthy(body.assessmentId) && body.prompt.Some? && !Blank(body.prompt.value)
                         && body.options.Some? && |body.options.value| >= 2
    ensures user.None? ==> r == Some(TextReply(401, "Unauthorized"))
    ensures user.Some? && !Truthy(body.assessmentId) ==> r == Some(TextReply(400, "Missing assessment_id"))
    ensures user.Some? && Truthy(body.assessmentId) && (body.prompt.None? || Blank(body.prompt.value)) ==>
              r == Some(TextReply(400, "Prompt required"))
    ensures user.Some? && Truthy(body.assessmentId) && body.prompt.Some? && !Blank(body.prompt.value) &&
            (body.options.None? || |body.options.value| < 2) ==>
              r == Some(TextReply(400, "Options required"))
    ensures r.Some? ==> r.value.status in {400, 401}
  {
    if user.None? then Some(TextReply(401, "Unauthorized"))
    else if !Truthy(body.assessmentId) then Some(TextReply(400, "Missing assessment_id"))
    else if body.prompt.None? || Blank(body.prompt.value) then Some(TextReply(400, "Prompt required"))
    else if body.options.None? || |body.options.value| < 2 then Some(TextReply(400, "Options required"))
    else None
  }

  /** The new question row: trimmed prompt, points defaulting to 1, the next
      position. */
  predicate IsNewQuestion(q: Question, before: map<Id, Question>, body: Payload, fails: Failures) {
    && body.assessmentId.Some? && body.prompt.Some?
    && q.assessment == body.assessmentId.value
    && q.prompt == Trim(body.prompt.value)
    && q.points == body.points.OrElse(1)
    && IsNextPosition(before, body.assessmentId.value, fails, q.position)
  }

  /** Exactly one question was added, and it is the new question. */
  predicate QuestionAdded(before: map<Id, Question>, after: map<Id, Question>, body: Payload, fails: Failures) {
    && Grows(before, after)
    && |after.Keys - before.Keys| == 1
    && forall k :: k in after && k !in before ==> IsNewQuestion(after[k], before, body, fails)
  }

  /** The slot of the correct option: the first option row at position
      `(correct_index ?? 0) + 1`. */
  function CorrectSlot(question: Id, body: Payload): Option<nat>
    requires body.options.Some?
  {
    FirstAt(Rows(question, body.options.value), body.correctIndex.OrElse(0) + 1)
  }

  /** The route. */
  method Post(db: Db, user: Option<AuthUser>, body: Payload, fails: Failures) returns (reply: Reply)
    modifies db`questions, db`options, db`answerKeys
    ensures Validate(user, body).Some? ==> reply == Validate(user, body).value && db.State() == old(db.State())
    ensures Validate(user, body).None? && !Owns(old(db.State()), body.assessmentId.value, user.value.id, fails) ==>
              reply == TextReply(404, "Not found") && db.State() == old(db.State())
    ensures Validate(user, body).None? && Owns(old(db.State()), body.assessmentId.value, user.value.id, fails) ==>
              Admitted(old(db.State()), db.State(), body, fails, reply)
  {
    var gate := Validate(user, body);
    if gate.Some? {
      return gate.value;
    }
    if !Owns(db.State(), body.assessmentId.value, user.value.id, fails) {
      return TextReply(404, "Not found");
    }
    reply := Insert(db, body, fails);
  }

  /** The outcomes once the gates pass: each failing insert stops the route
      with its message, and the rows inserted before it stay. */
  ghost predicate Admitted(before: Tables, after: Tables, body: Payload, fails: Failures, reply: Reply)
    requires body.options.Some?
  {
    && (QuestionInsert in fails ==> reply == TextReply(400, fails[QuestionInsert]) && after == before)
    && (QuestionInsert !in fails ==>
          && QuestionAdded(before.questions, after.questions, body, fails)
          && NewQuestionChoices(before.questions, after.questions, before.options, after.options,
                                before.answerKeys, after.answerKeys, body, fails, reply))
  }

  /** The option and key outcomes hold for the new question row. */
  ghost predicate NewQuestionChoices(qs0: map<Id, Question>, qs1: map<Id, Question>,
                                     opts0: map<Id, Choice>, opts1: map<Id, Choice>,
                                     keys0: map<Id, AnswerKey>, keys1: map<Id, AnswerKey>,
                                     body: Payload, fails: Failures, reply: Reply)
    requires body.options.Some?
  {
    forall q :: q in qs1 && q !in qs0 ==> ChoicesOutcome(opts0, opts1, keys0, keys1, q, body, fails, reply)
  }

  lemma OnlyNewQuestion(qs0: map<Id, Question>, qs1: map<Id, Question>,
                        opts0: map<Id, Choice>, opts1: map<Id, Choice>,
                        keys0: map<Id, AnswerKey>, keys1: map<Id, AnswerKey>,
                        q: Id, body: Payload, fails: Failures, reply: Reply)
    requires body.options.Some? && qs1.Keys - qs0.Keys == {q}
    requires ChoicesOutcome(opts0, opts1, keys0, keys1, q, body, fails, reply)
    ensures NewQuestionChoices(qs0, qs1, opts0, opts1, keys0, keys1, body, fails, reply)
  {
    forall k | k in qs1 && k !in qs0
      ensures ChoicesOutcome(opts0, opts1, keys0, keys1, k, body, fails, reply)
    {
      assert k in qs1.Keys - qs0.Keys;
    }
  }

  /** The outcomes after the question row `q` is in. */
  ghost predicate ChoicesOutcome(opts0: map<Id, Choice>, opts1: map<Id, Choice>,
                                 keys0: map<Id, AnswerKey>, keys1: map<Id, AnswerKey>,
                                 q: Id, body: Payload, fails: Failures, reply: Reply)
    requires body.options.Some?
  {
    && (OptionsInsert in fails ==> reply == TextReply(400, fails[OptionsInsert]) && opts1 == opts0)
    && (OptionsInsert !in fails ==> AddsRows(opts0, opts1, Rows(q, body.options.value)))
    && (OptionsInsert !in fails && CorrectSlot(q, body).None? ==>
          reply == TextReply(400, "Correct option not found"))
    && (OptionsInsert !in fails && CorrectSlot(q, body).Some? && KeyInsert in fails ==>
          reply == TextReply(400, fails[KeyInsert]))
    && (reply.status != 200 ==> keys1 == keys0)
    && (OptionsInsert !in fails && CorrectSlot(q, body).Some? && KeyInsert !in fails ==>
          && reply == Reply(200, JsonId(q))
          && KeyAdded(keys0, keys1, opts0, opts1, q, Rows(q, body.options.value)[CorrectSlot(q, body).value]))
  }

  /** The inserts after the gates. */
  method Insert(db: Db, body: Payload, fails: Failures) returns (reply: Reply)
    requires body.assessmentId.Some? && body.prompt.Some? && body.options.Some?
    modifies db`questions, db`options, db`answerKeys
    ensures QuestionInsert in fails ==> reply == TextReply(400, fails[QuestionInsert])
    ensures QuestionInsert in fails ==> unchanged(db)
    ensures QuestionInsert !in fails ==> QuestionAdded(old(db.questions), db.questions, body, fails)
    ensures QuestionInsert !in fails ==>
              NewQuestionChoices(old(db.questions), db.questions, old(db.options), db.options,
                                 old(db.answerKeys), db.answerKeys, body, fails, reply)
  {
    if QuestionInsert in fails {
      return TextReply(400, fails[QuestionInsert]);
    }
    var q := AddQuestion(db, body, fails);
    reply := InsertChoices(db, q, body, fails);
    OnlyNewQuestion(old(db.questions), db.questions, old(db.options), db.options,
                    old(db.answerKeys), db.answerKeys, q, body, fails, reply);
  }

  /** The question row, at the next position. */
  method AddQuestion(db: Db, body: Payload, fails: Failures) returns (q: Id)
    requires body.assessmentId.Some? && body.prompt.Some?
    modifies db`questions
    ensures QuestionAdded(old(db.questions), db.questions, body, fails)
    ensures db.questions.Keys - old(db.questions).Keys == {q}
  {
    var next := NextPosition(db.questions, body.assessmentId.value, fails);
    q := NewId(db.questions.Keys);
    var row := Question(body.assessmentId.value, Trim(body.prompt.value), body.points.OrElse(1), next);
    QuestionAddedByUpdate(db.questions, q, row, body, fails);
    db.questions := db.questions[q := row];
  }

  lemma QuestionAddedByUpdate(before: map<Id, Question>, q: Id, row: Question, body: Payload, fails: Failures)
    requires q !in before && IsNewQuestion(row, before, body, fails)
    ensures QuestionAdded(before, before[q := row], body, fails)
    ensures before[q := row].Keys - before.Keys == {q}
  {
    assert before[q := row].Keys - before.Keys == {q};
  }

  /** The option rows, then the answer key, of the new question `q`. */
  method InsertChoices(db: Db, q: Id, body: Payload, fails: Failures) returns (reply: Reply)
    requires body.options.Some?
    modifies db`options, db`answerKeys
    ensures ChoicesOutcome(old(db.options), db.options, old(db.answerKeys), db.answerKeys, q, body, fails, reply)
  {
    var rows := Rows(q, body.options.value);
    if OptionsInsert in fails {
      return TextReply(400, fails[OptionsInsert]);
    }
    var ids, withRows := InsertRows(db.options, rows);
    db.options := withRows;
    var slot := CorrectSlot(q, body);
    if slot.None? {
      return TextReply(400, "Correct option not found");
    }
    if KeyInsert in fails {
      return TextReply(400, fails[KeyInsert]);
    }
    AddKey(db, q, ids[slot.value]);
    return Reply(200, JsonId(q));
  }
}
