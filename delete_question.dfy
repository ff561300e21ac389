/** `POST /teacher/assessments/api/questions/delete`: the owner removes a
    question with its answer keys and options. */
module DeleteQuestion {
  import opened Common
  import opened Store
  import opened QuestionOptions

  datatype Payload = Payload(assessmentId: Option<Id>, questionId: Option<Id>)

  /** `questions.delete().eq("id", question).eq("assessment_id", assessment)` */
  function DropQuestion(qs: map<Id, Question>, assessment: Id, question: Id): (r: map<Id, Question>)
    ensures forall k :: k in r <==> k in qs && !(k == question && qs[k].assessment == assessment)
    ensures forall k :: k in r ==> r[k] == qs[k]
  {
    map k | k in qs && !(k == question && qs[k].assessment == assessment) :: qs[k]
  }

  /** The three deletes, keys first, each stopping the route on failure. */
  predicate Deleted(before: Tables, after: Tables, assessment: Id, question: Id, fails: Failures, reply: Reply) {
    if KeysDelete in fails then
      reply == TextReply(400, fails[KeysDelete]) && after == before
    else if OptionsDelete in fails then
      reply == TextReply(400, fails[OptionsDelete])
      && after == before.(answerKeys := DropKeys(before.answerKeys, question))
    else if QuestionDelete in fails then
      reply == TextReply(400, fails[QuestionDelete])
      && after == before.(answerKeys := DropKeys(before.answerKeys, question),
                          options := DropOptions(before.options, question))
    else
      reply == Reply(200, JsonOk)
      && after == before.(answerKeys := DropKeys(before.answerKeys, question),
                          options := DropOptions(before.options, question),
                          questions := DropQuestion(before.questions, assessment, question))
  }

  /** The route. */
  method Post(db: Db, user: Option<AuthUser>, body: Payload, fails: Failures) returns (reply: Reply)
    modifies db`questions, db`options, db`answerKeys
    ensures IdsGate(user, body.assessmentId, body.questionId).Some? ==>
              reply == IdsGate(user, body.assessmentId, body.questionId).value && db.State() == old(db.State())
    ensures IdsGate(user, body.assessmentId, body.questionId).None? &&
            !Owns(old(db.State()), body.assessmentId.value, user.value.id, fails) ==>
              reply == TextReply(404, "Not found") && db.State() == old(db.State())
    ensures IdsGate(user, body.assessmentId, body.questionId).None? &&
            Owns(old(db.State()), body.assessmentId.value, user.value.id, fails) ==>
              Deleted(old(db.State()), db.State(), body.assessmentId.value, body.questionId.value, fails, reply)
  {
    var gate := IdsGate(user, body.assessmentId, body.questionId);
    if gate.Some? {
      return gate.value;
    }
    var assessment, question := body.assessmentId.value, body.questionId.value;
    if !Owns(db.State(), assessment, user.value.id, fails) {
      return TextReply(404, "Not found");
    }
    if KeysDelete in fails {
      return TextReply(400, fails[KeysDelete]);
    }
    db.answerKeys := DropKeys(db.answerKeys, question);
    if OptionsDelete in fails {
      return TextReply(400, fails[OptionsDelete]);
    }
    db.options := DropOptions(db.options, question);
    if QuestionDelete in fails {
      return TextReply(400, fails[QuestionDelete]);
    }
    db.questions := DropQuestion(db.questions, assessment, question);
    return Reply(200, JsonOk);
  }

  /** After a successful delete no key and no option of the question is
      left, the question row is gone when it belonged to the assessment, and
      every row of another question, and every other table, is as before. */
  lemma DeleteRemovesExactly(before: Tables, after: Tables, assessment: Id, question: Id, fails: Failures, reply: Reply)
    requires Deleted(before, after, assessment, question, fails, reply) && reply.status == 200
    ensures forall k :: k in after.answerKeys ==> after.answerKeys[k].question != question
    ensures forall k :: k in after.options ==> after.options[k].question != question
    ensures question in before.questions && before.questions[question].assessment == assessment ==>
              question !in after.questions
    ensures forall k :: k in before.answerKeys && before.answerKeys[k].question != question ==>
              k in after.answerKeys && after.answerKeys[k] == before.answerKeys[k]
    ensures forall k :: k in before.options && before.options[k].question != question ==>
              k in after.options && after.options[k] == before.options[k]
    ensures forall k :: k in before.questions && k != question ==>
              k in after.questions && after.questions[k] == before.questions[k]
    ensures after.assessments == before.assessments && after.attempts == before.attempts
    ensures after.responses == before.responses && after.subjects == before.subjects
  {
    assert after.answerKeys == DropKeys(before.answerKeys, question);
    assert after.options == DropOptions(before.options, question);
  }

  /** A question of another assessment loses its keys and options, but its
      row survives. */
  lemma ForeignQuestionSurvives(before: Tables, after: Tables, assessment: Id, question: Id, fails: Failures, reply: Reply)
    requires Deleted(before, after, assessment, question, fails, reply) && reply.status == 200
    requires question in before.questions && before.questions[question].assessment != assessment
    ensures after.questions == before.questions
    ensures forall k :: k in after.answerKeys ==> after.answerKeys[k].question != question
    ensures forall k :: k in after.options ==> after.options[k].question != question
  {
    var r := DropQuestion(before.questions, assessment, question);
    assert r.Keys == before.questions.Keys;
    assert after.answerKeys == DropKeys(before.answerKeys, question);
    assert after.options == DropOptions(before.options, question);
  }
}
