/** `POST /teacher/assessments/api/delete`: the owner removes an assessment
    and, children first, everything tied to it. Each delete that fails
    stops the route; the deletes before it stay done. */
module DeleteAssessment {
  import opened Common
  import opened Store

  datatype Payload = Payload(id: Option<Id>)

  /** The ids the `select id where assessment_id = …` read returns; a failed
      read yields no rows. */
  function QuestionIdsOf(t: Tables, assessment: Id, fails: Failures): set<Id> {
    if QuestionsRead in fails then {} else set k | k in t.questions && t.questions[k].assessment == assessment
  }

  function AttemptIdsOf(t: Tables, assessment: Id, fails: Failures): set<Id> {
    if AttemptsRead in fails then {} else set k | k in t.attempts && t.attempts[k].assessment == assessment
  }

  /** The table contents and the reply once the route stops. */
  datatype Cascaded = Cascaded(tables: Tables, reply: Reply)

  /** `answer_keys.delete().in("question_id", questions)` */
  function DropKeysIn(keys: map<Id, AnswerKey>, questions: set<Id>): (r: map<Id, AnswerKey>)
    ensures forall k :: k in r <==> k in keys && keys[k].question !in questions
    ensures Shrinks(keys, r)
  {
    RemoveWhere(keys, (k: AnswerKey) => k.question in questions)
  }

  /** `options.delete().in("question_id", questions)` */
  function DropOptionsIn(opts: map<Id, Choice>, questions: set<Id>): (r: map<Id, Choice>)
    ensures forall k :: k in r <==> k in opts && opts[k].question !in questions
    ensures Shrinks(opts, r)
  {
    RemoveWhere(opts, (o: Choice) => o.question in questions)
  }

  /** `questions.delete().eq("assessment_id", assessment)` */
  function DropQuestionsOf(qs: map<Id, Question>, assessment: Id): (r: map<Id, Question>)
    ensures forall k :: k in r <==> k in qs && qs[k].assessment != assessment
    ensures Shrinks(qs, r)
  {
    RemoveWhere(qs, (q: Question) => q.assessment == assessment)
  }

  /** `responses.delete().in("attempt_id", attempts)` */
  function DropResponsesIn(rs: map<Id, Response>, attempts: set<Id>): (r: map<Id, Response>)
    ensures forall k :: k in r <==> k in rs && rs[k].attempt !in attempts
    ensures Shrinks(rs, r)
  {
    RemoveWhere(rs, (r: Response) => r.attempt in attempts)
  }

  /** `attempts.delete().eq("assessment_id", assessment)` */
  function DropAttemptsOf(ats: map<Id, Attempt>, assessment: Id): (r: map<Id, Attempt>)
    ensures forall k :: k in r <==> k in ats && ats[k].assessment != assessment
    ensures Shrinks(ats, r)
  {
    RemoveWhere(ats, (a: Attempt) => a.assessment == assessment)
  }

  /** `assessments.delete().eq("id", assessment).eq("owner_id", user)` */
  function DropAssessment(m: map<Id, Assessment>, assessment: Id, user: Id): (r: map<Id, Assessment>)
    ensures forall k :: k in r <==> k in m && !(k == assessment && m[k].owner == user)
    ensures Shrinks(m, r)
  {
    map k | k in m && !(k == assessment && m[k].owner == user) :: m[k]
  }

  /** The deletes on the question side: keys and options of the questions
      read (skipped when none were read), then the questions. A reply means
      the route stopped there. */
  function QuestionSide(t: Tables, assessment: Id, fails: Failures): (Tables, Option<Reply>) {
    var qids := QuestionIdsOf(t, assessment, fails);
    if qids == {} then QuestionsStep(t, assessment, fails) else KeysStep(t, assessment, qids, fails)
  }

  function KeysStep(t: Tables, assessment: Id, qids: set<Id>, fails: Failures): (Tables, Option<Reply>) {
    if KeysDelete in fails then (t, Some(TextReply(400, fails[KeysDelete])))
    else OptionsStep(t.(answerKeys := DropKeysIn(t.answerKeys, qids)), assessment, qids, fails)
  }

  function OptionsStep(t: Tables, assessment: Id, qids: set<Id>, fails: Failures): (Tables, Option<Reply>) {
    if OptionsDelete in fails then (t, Some(TextReply(400, fails[OptionsDelete])))
    else QuestionsStep(t.(options := DropOptionsIn(t.options, qids)), assessment, fails)
  }

  function QuestionsStep(t: Tables, assessment: Id, fails: Failures): (Tables, Option<Reply>) {
    if QuestionDelete in fails then (t, Some(TextReply(400, fails[QuestionDelete])))
    else (t.(questions := DropQuestionsOf(t.questions, assessment)), None)
  }

  /** The deletes on the attempt side: responses of the attempts read
      (skipped when none were read), the attempts, then the assessment row
      matching both id and owner. */
  function AttemptSide(t: Tables, assessment: Id, user: Id, fails: Failures): Cascaded {
    var aids := AttemptIdsOf(t, assessment, fails);
    if aids == {} then AttemptsStep(t, assessment, user, fails) else ResponsesStep(t, assessment, user, aids, fails)
  }

  function ResponsesStep(t: Tables, assessment: Id, user: Id, aids: set<Id>, fails: Failures): Cascaded {
    if ResponsesDelete in fails then Cascaded(t, TextReply(400, fails[ResponsesDelete]))
    else AttemptsStep(t.(responses := DropResponsesIn(t.responses, aids)), assessment, user, fails)
  }

  function AttemptsStep(t: Tables, assessment: Id, user: Id, fails: Failures): Cascaded {
    if AttemptsDelete in fails then Cascaded(t, TextReply(400, fails[AttemptsDelete]))
    else AssessmentStep(t.(attempts := DropAttemptsOf(t.attempts, assessment)), assessment, user, fails)
  }

  function AssessmentStep(t: Tables, assessment: Id, user: Id, fails: Failures): Cascaded {
    if AssessmentDelete in fails then Cascaded(t, TextReply(400, fails[AssessmentDelete]))
    else Cascaded(t.(assessments := DropAssessment(t.assessments, assessment, user)), Reply(200, JsonOk))
  }

  /** The whole cascade after the gates. */
  function Cascade(t: Tables, assessment: Id, user: Id, fails: Failures): Cascaded {
    var (t1, stop) := QuestionSide(t, assessment, fails);
    if stop.Some? then Cascaded(t1, stop.value) else AttemptSide(t1, assessment, user, fails)
  }

  /** The route. */
  method Post(db: Db, user: Option<AuthUser>, body: Payload, fails: Failures) returns (reply: Reply)
    modifies db`assessments, db`questions, db`options, db`answerKeys, db`attempts, db`responses
    ensures user.None? ==> reply == TextReply(401, "Unauthorized") && db.State() == old(db.State())
    ensures user.Some? && !Truthy(body.id) ==> reply == TextReply(400, "Missing id") && db.State() == old(db.State())
    ensures user.Some? && Truthy(body.id) && !Owns(old(db.State()), body.id.value, user.value.id, fails) ==>
              reply == TextReply(404, "Not found") && db.State() == old(db.State())
    ensures user.Some? && Truthy(body.id) && Owns(old(db.State()), body.id.value, user.value.id, fails) ==>
              Cascaded(db.State(), reply) == Cascade(old(db.State()), body.id.value, user.value.id, fails)
  {
    if user.None? {
      return TextReply(401, "Unauthorized");
    }
    if !Truthy(body.id) {
      return TextReply(400, "Missing id");
    }
    var id := body.id.value;
    if !Owns(db.State(), id, user.value.id, fails) {
      return TextReply(404, "Not found");
    }
    var stop := DeleteQuestionSide(db, id, fails);
    if stop.Some? {
      return stop.value;
    }
    reply := DeleteAttemptSide(db, id, user.value.id, fails);
  }

  method DeleteQuestionSide(db: Db, assessment: Id, fails: Failures) returns (stop: Option<Reply>)
    modifies db`questions, db`options, db`answerKeys
    ensures (db.State(), stop) == QuestionSide(old(db.State()), assessment, fails)
  {
    var qids: set<Id> := if QuestionsRead in fails then {}
                         else set k | k in db.questions && db.questions[k].assessment == assessment;
    if qids != {} {
      if KeysDelete in fails {
        return Some(TextReply(400, fails[KeysDelete]));
      }
      db.answerKeys := DropKeysIn(db.answerKeys, qids);
      if OptionsDelete in fails {
        return Some(TextReply(400, fails[OptionsDelete]));
      }
      db.options := DropOptionsIn(db.options, qids);
    }
    if QuestionDelete in fails {
      return Some(TextReply(400, fails[QuestionDelete]));
    }
    db.questions := DropQuestionsOf(db.questions, assessment);
    return None;
  }

  method DeleteAttemptSide(db: Db, assessment: Id, user: Id, fails: Failures) returns (reply: Reply)
    modifies db`assessments, db`attempts, db`responses
    ensures Cascaded(db.State(), reply) == AttemptSide(old(db.State()), assessment, user, fails)
  {
    var aids: set<Id> := if AttemptsRead in fails then {}
                         else set k | k in db.attempts && db.attempts[k].assessment == assessment;
    if aids != {} {
      if ResponsesDelete in fails {
        return TextReply(400, fails[ResponsesDelete]);
      }
      db.responses := DropResponsesIn(db.responses, aids);
    }
    if AttemptsDelete in fails {
      return TextReply(400, fails[AttemptsDelete]);
    }
    db.attempts := DropAttemptsOf(db.attempts, assessment);
    if AssessmentDelete in fails {
      return TextReply(400, fails[AssessmentDelete]);
    }
    db.assessments := DropAssessment(db.assessments, assessment, user);
    return Reply(200, JsonOk);
  }

  // What the cascade leaves

  predicate QuestionOf(t: Tables, assessment: Id, q: Id) {
    q in t.questions && t.questions[q].assessment == assessment
  }

  predicate AttemptOf(t: Tables, assessment: Id, a: Id) {
    a in t.attempts && t.attempts[a].assessment == assessment
  }

  /** `u` differs from `t` only by rows removed from questions, options and
      keys. */
  predicate QuestionSideOnly(t: Tables, u: Tables) {
    && u.assessments == t.assessments && u.attempts == t.attempts && u.responses == t.responses
    && u.subjects == t.subjects && u.profiles == t.profiles
    && Shrinks(t.questions, u.questions) && Shrinks(t.options, u.options) && Shrinks(t.answerKeys, u.answerKeys)
  }

  /** `u` differs from `t` only by rows removed from responses, attempts and
      assessments. */
  predicate AttemptSideOnly(t: Tables, u: Tables) {
    && u.questions == t.questions && u.options == t.options && u.answerKeys == t.answerKeys
    && u.subjects == t.subjects && u.profiles == t.profiles
    && Shrinks(t.responses, u.responses) && Shrinks(t.attempts, u.attempts) && Shrinks(t.assessments, u.assessments)
  }

  lemma ShrinksTrans<V>(a: map<Id, V>, b: map<Id, V>, c: map<Id, V>)
    requires Shrinks(a, b) && Shrinks(b, c)
    ensures Shrinks(a, c)
  {
  }

  lemma QuestionSideOnlyTrans(a: Tables, b: Tables, c: Tables)
    requires QuestionSideOnly(a, b) && QuestionSideOnly(b, c)
    ensures QuestionSideOnly(a, c)
  {
    ShrinksTrans(a.questions, b.questions, c.questions);
    ShrinksTrans(a.options, b.options, c.options);
    ShrinksTrans(a.answerKeys, b.answerKeys, c.answerKeys);
  }

  lemma AttemptSideOnlyTrans(a: Tables, b: Tables, c: Tables)
    requires AttemptSideOnly(a, b) && AttemptSideOnly(b, c)
    ensures AttemptSideOnly(a, c)
  {
    ShrinksTrans(a.responses, b.responses, c.responses);
    ShrinksTrans(a.attempts, b.attempts, c.attempts);
    ShrinksTrans(a.assessments, b.assessments, c.assessments);
  }

  /** The question side touches only questions, options and keys, and only
      removes rows. */
  lemma QuestionSideFrame(t: Tables, assessment: Id, fails: Failures)
    ensures QuestionSideOnly(t, QuestionSide(t, assessment, fails).0)
  {
    var qids := QuestionIdsOf(t, assessment, fails);
    if qids == {} {
      QuestionsStepFrame(t, assessment, fails);
    } else if KeysDelete !in fails {
      var t1 := t.(answerKeys := DropKeysIn(t.answerKeys, qids));
      OptionsStepFrame(t1, assessment, qids, fails);
      QuestionSideOnlyTrans(t, t1, QuestionSide(t, assessment, fails).0);
    }
  }

  lemma OptionsStepFrame(t: Tables, assessment: Id, qids: set<Id>, fails: Failures)
    ensures QuestionSideOnly(t, OptionsStep(t, assessment, qids, fails).0)
  {
    if OptionsDelete !in fails {
      var t1 := t.(options := DropOptionsIn(t.options, qids));
      QuestionsStepFrame(t1, assessment, fails);
      QuestionSideOnlyTrans(t, t1, OptionsStep(t, assessment, qids, fails).0);
    }
  }

  lemma QuestionsStepFrame(t: Tables, assessment: Id, fails: Failures)
    ensures QuestionSideOnly(t, QuestionsStep(t, assessment, fails).0)
  {
  }

  /** The attempt side touches only responses, attempts and assessments, and
      only removes rows. */
  lemma AttemptSideFrame(t: Tables, assessment: Id, user: Id, fails: Failures)
    ensures AttemptSideOnly(t, AttemptSide(t, assessment, user, fails).tables)
  {
    var aids := AttemptIdsOf(t, assessment, fails);
    if aids == {} {
      AttemptsStepFrame(t, assessment, user, fails);
    } else if ResponsesDelete !in fails {
      var t1 := t.(responses := DropResponsesIn(t.responses, aids));
      AttemptsStepFrame(t1, assessment, user, fails);
      AttemptSideOnlyTrans(t, t1, AttemptSide(t, assessment, user, fails).tables);
    }
  }

  lemma AttemptsStepFrame(t: Tables, assessment: Id, user: Id, fails: Failures)
    ensures AttemptSideOnly(t, AttemptsStep(t, assessment, user, fails).tables)
  {
    if AttemptsDelete !in fails {
      var t1 := t.(attempts := DropAttemptsOf(t.attempts, assessment));
      assert AttemptSideOnly(t, t1);
      AssessmentStepFrame(t1, assessment, user, fails);
      AttemptSideOnlyTrans(t, t1, AttemptsStep(t, assessment, user, fails).tables);
    }
  }

  lemma AssessmentStepFrame(t: Tables, assessment: Id, user: Id, fails: Failures)
    ensures AttemptSideOnly(t, AssessmentStep(t, assessment, user, fails).tables)
  {
  }

  lemma DropNothing(t: Tables)
    ensures DropKeysIn(t.answerKeys, {}) == t.answerKeys
    ensures DropOptionsIn(t.options, {}) == t.options
    ensures DropResponsesIn(t.responses, {}) == t.responses
  {
  }

  /** The tables after each delete of the question side. */
  function KeysGone(t: Tables, assessment: Id, fails: Failures): Tables {
    t.(answerKeys := DropKeysIn(t.answerKeys, QuestionIdsOf(t, assessment, fails)))
  }

  function OptionsGone(t: Tables, assessment: Id, fails: Failures): Tables {
    KeysGone(t, assessment, fails).(options := DropOptionsIn(t.options, QuestionIdsOf(t, assessment, fails)))
  }

  function QuestionsGone(t: Tables, assessment: Id, fails: Failures): Tables {
    OptionsGone(t, assessment, fails).(questions := DropQuestionsOf(t.questions, assessment))
  }

  /** The question side stops after some prefix of its deletes: with a
      reply, after none, the keys, or the keys and options; without one,
      after all three. */
  lemma QuestionSideStages(t: Tables, assessment: Id, fails: Failures)
    ensures var (u, stop) := QuestionSide(t, assessment, fails);
            && (stop.None? ==> u == QuestionsGone(t, assessment, fails))
            && (stop.Some? ==> u == t || u == KeysGone(t, assessment, fails) || u == OptionsGone(t, assessment, fails))
            && (stop.Some? ==> stop.value.status == 400)
  {
    var qids := QuestionIdsOf(t, assessment, fails);
    if qids == {} {
      DropNothing(t);
      assert KeysGone(t, assessment, fails) == t;
      assert OptionsGone(t, assessment, fails) == t;
      assert QuestionsGone(t, assessment, fails) == t.(questions := DropQuestionsOf(t.questions, assessment));
    } else if KeysDelete !in fails {
      var k := KeysGone(t, assessment, fails);
      assert QuestionSide(t, assessment, fails) == OptionsStep(k, assessment, qids, fails);
      if OptionsDelete !in fails {
        var o := OptionsGone(t, assessment, fails);
        assert k.(options := DropOptionsIn(k.options, qids)) == o;
        assert OptionsStep(k, assessment, qids, fails) == QuestionsStep(o, assessment, fails);
        assert o.(questions := DropQuestionsOf(o.questions, assessment)) == QuestionsGone(t, assessment, fails);
      }
    }
  }

  /** The tables after each delete of the attempt side. */
  function ResponsesGone(t: Tables, assessment: Id, fails: Failures): Tables {
    t.(responses := DropResponsesIn(t.responses, AttemptIdsOf(t, assessment, fails)))
  }

  function AttemptsGone(t: Tables, assessment: Id, fails: Failures): Tables {
    ResponsesGone(t, assessment, fails).(attempts := DropAttemptsOf(t.attempts, assessment))
  }

  function AssessmentGone(t: Tables, assessment: Id, user: Id, fails: Failures): Tables {
    AttemptsGone(t, assessment, fails).(assessments := DropAssessment(t.assessments, assessment, user))
  }

  /** The attempt side stops after some prefix of its deletes; it replies
      200 exactly when it did them all. */
  lemma AttemptSideStages(t: Tables, assessment: Id, user: Id, fails: Failures)
    ensures var r := AttemptSide(t, assessment, user, fails);
            && r.reply.status in {200, 400}
            && (r.reply.status == 200 ==> r.tables == AssessmentGone(t, assessment, user, fails) && r.reply.body == JsonOk)
            && (r.reply.status != 200 ==>
                  r.tables == t || r.tables == ResponsesGone(t, assessment, fails) || r.tables == AttemptsGone(t, assessment, fails))
  {
    var aids := AttemptIdsOf(t, assessment, fails);
    if aids == {} {
      DropNothing(t);
      assert ResponsesGone(t, assessment, fails) == t;
      AttemptsStepStages(t, assessment, user, fails);
    } else if ResponsesDelete !in fails {
      assert AttemptSide(t, assessment, user, fails) ==
             AttemptsStep(ResponsesGone(t, assessment, fails), assessment, user, fails);
      AttemptsStepStages(t, assessment, user, fails);
    }
  }

  /** The deletes after the responses: the attempts, then the assessment. */
  lemma AttemptsStepStages(t: Tables, assessment: Id, user: Id, fails: Failures)
    ensures var r := AttemptsStep(ResponsesGone(t, assessment, fails), assessment, user, fails);
            && r.reply.status in {200, 400}
            && (r.reply.status == 200 ==> r.tables == AssessmentGone(t, assessment, user, fails) && r.reply.body == JsonOk)
            && (r.reply.status != 200 ==>
                  r.tables == ResponsesGone(t, assessment, fails) || r.tables == AttemptsGone(t, assessment, fails))
  {
    var t0 := ResponsesGone(t, assessment, fails);
    if AttemptsDelete !in fails {
      assert t0.(attempts := DropAttemptsOf(t0.attempts, assessment)) == AttemptsGone(t, assessment, fails);
    }
  }

  /** The cascade replies 200 or 400, and 200 exactly when every delete it
      issued succeeded, leaving the tables after all six. */
  lemma CascadeStages(t: Tables, assessment: Id, user: Id, fails: Failures)
    ensures var r := Cascade(t, assessment, user, fails);
            var u := QuestionsGone(t, assessment, fails);
            && r.reply.status in {200, 400}
            && (r.reply.status == 200 ==> r.tables == AssessmentGone(u, assessment, user, fails))
            && (r.reply.status != 200 ==>
                  || r.tables == t || r.tables == KeysGone(t, assessment, fails) || r.tables == OptionsGone(t, assessment, fails)
                  || r.tables == u || r.tables == ResponsesGone(u, assessment, fails) || r.tables == AttemptsGone(u, assessment, fails))
  {
    QuestionSideStages(t, assessment, fails);
    var (t1, stop) := QuestionSide(t, assessment, fails);
    if stop.None? {
      AttemptSideStages(t1, assessment, user, fails);
    }
  }

  /** Whatever step fails, the cascade removes rows and never adds or
      changes one; subjects and profiles are not touched. */
  lemma CascadeOnlyRemoves(t: Tables, assessment: Id, user: Id, fails: Failures)
    ensures var u := Cascade(t, assessment, user, fails).tables;
            && Shrinks(t.assessments, u.assessments) && Shrinks(t.questions, u.questions)
            && Shrinks(t.options, u.options) && Shrinks(t.answerKeys, u.answerKeys)
            && Shrinks(t.attempts, u.attempts) && Shrinks(t.responses, u.responses)
            && u.subjects == t.subjects && u.profiles == t.profiles
  {
    var (t1, stop) := QuestionSide(t, assessment, fails);
    QuestionSideFrame(t, assessment, fails);
    if stop.None? {
      AttemptSideFrame(t1, assessment, user, fails);
    }
  }

  /** Every row of `t` not tied to `assessment` is still in `u`. */
  predicate KeepsOthers(t: Tables, assessment: Id, u: Tables) {
    KeepsQuestionSide(t, assessment, u) && KeepsAttemptSide(t, assessment, u)
  }

  predicate KeepsQuestionSide(t: Tables, assessment: Id, u: Tables) {
    && (forall q :: q in t.questions && t.questions[q].assessment != assessment ==> q in u.questions)
    && KeepsKeys(t, assessment, u.answerKeys)
    && KeepsOptions(t, assessment, u.options)
  }

  predicate KeepsAttemptSide(t: Tables, assessment: Id, u: Tables) {
    && (forall k :: k in t.assessments && k != assessment ==> k in u.assessments)
    && (forall k :: k in t.attempts && t.attempts[k].assessment != assessment ==> k in u.attempts)
    && KeepsResponses(t, assessment, u.responses)
  }

  predicate KeepsKeys(t: Tables, assessment: Id, keys: map<Id, AnswerKey>) {
    forall k :: k in t.answerKeys && !QuestionOf(t, assessment, t.answerKeys[k].question) ==> k in keys
  }

  predicate KeepsOptions(t: Tables, assessment: Id, opts: map<Id, Choice>) {
    forall k :: k in t.options && !QuestionOf(t, assessment, t.options[k].question) ==> k in opts
  }

  predicate KeepsResponses(t: Tables, assessment: Id, rs: map<Id, Response>) {
    forall k :: k in t.responses && !AttemptOf(t, assessment, t.responses[k].attempt) ==> k in rs
  }

  /** Whatever step fails, rows tied to other assessments stay. */
  lemma CascadeKeepsOthers(t: Tables, assessment: Id, user: Id, fails: Failures)
    ensures KeepsOthers(t, assessment, Cascade(t, assessment, user, fails).tables)
  {
    var (t1, stop) := QuestionSide(t, assessment, fails);
    QuestionSideKeeps(t, assessment, fails);
    QuestionSideFrame(t, assessment, fails);
    assert KeepsAttemptSide(t, assessment, t1);
    if stop.None? {
      var u := AttemptSide(t1, assessment, user, fails).tables;
      AttemptSideKeeps(t1, assessment, user, fails);
      AttemptSideFrame(t1, assessment, user, fails);
      assert KeepsQuestionSide(t, assessment, u);
      assert KeepsResponses(t, assessment, u.responses);
    }
  }

  lemma QuestionSideKeeps(t: Tables, assessment: Id, fails: Failures)
    ensures KeepsQuestionSide(t, assessment, QuestionSide(t, assessment, fails).0)
  {
    QuestionSideStages(t, assessment, fails);
    QuestionStagesKeep(t, assessment, fails);
  }

  /** Each stage of the question side keeps the other assessments' rows. */
  lemma QuestionStagesKeep(t: Tables, assessment: Id, fails: Failures)
    ensures KeepsQuestionSide(t, assessment, t)
    ensures KeepsQuestionSide(t, assessment, KeysGone(t, assessment, fails))
    ensures KeepsQuestionSide(t, assessment, OptionsGone(t, assessment, fails))
    ensures KeepsQuestionSide(t, assessment, QuestionsGone(t, assessment, fails))
  {
    var qids := QuestionIdsOf(t, assessment, fails);
    KeysKept(t, assessment, qids);
    OptionsKept(t, assessment, qids);
  }

  lemma AttemptSideKeeps(t: Tables, assessment: Id, user: Id, fails: Failures)
    ensures KeepsAttemptSide(t, assessment, AttemptSide(t, assessment, user, fails).tables)
  {
    AttemptSideStages(t, assessment, user, fails);
    AttemptStagesKeep(t, assessment, user, fails);
  }

  /** Each stage of the attempt side keeps the other assessments' rows. */
  lemma AttemptStagesKeep(t: Tables, assessment: Id, user: Id, fails: Failures)
    ensures KeepsAttemptSide(t, assessment, t)
    ensures KeepsAttemptSide(t, assessment, ResponsesGone(t, assessment, fails))
    ensures KeepsAttemptSide(t, assessment, AttemptsGone(t, assessment, fails))
    ensures KeepsAttemptSide(t, assessment, AssessmentGone(t, assessment, user, fails))
  {
    ResponsesKept(t, assessment, AttemptIdsOf(t, assessment, fails));
  }

  lemma KeysKept(t: Tables, assessment: Id, qids: set<Id>)
    requires forall q :: q in qids ==> QuestionOf(t, assessment, q)
    ensures KeepsKeys(t, assessment, t.answerKeys)
    ensures KeepsKeys(t, assessment, DropKeysIn(t.answerKeys, qids))
  {
  }

  lemma OptionsKept(t: Tables, assessment: Id, qids: set<Id>)
    requires forall q :: q in qids ==> QuestionOf(t, assessment, q)
    ensures KeepsOptions(t, assessment, t.options)
    ensures KeepsOptions(t, assessment, DropOptionsIn(t.options, qids))
  {
  }

  lemma ResponsesKept(t: Tables, assessment: Id, aids: set<Id>)
    requires forall a :: a in aids ==> AttemptOf(t, assessment, a)
    ensures KeepsResponses(t, assessment, t.responses)
    ensures KeepsResponses(t, assessment, DropResponsesIn(t.responses, aids))
  {
  }

  /** After a successful cascade, with both id reads answered, nothing tied
      to the assessment is left. */
  lemma CascadeRemovesAll(t: Tables, assessment: Id, user: Id, fails: Failures)
    requires QuestionsRead !in fails && AttemptsRead !in fails
    requires assessment in t.assessments && t.assessments[assessment].owner == user
    requires Cascade(t, assessment, user, fails).reply.status == 200
    ensures var u := Cascade(t, assessment, user, fails).tables;
            && assessment !in u.assessments
            && (forall q :: q in u.questions ==> u.questions[q].assessment != assessment)
            && (forall k :: k in u.answerKeys ==> !QuestionOf(t, assessment, u.answerKeys[k].question))
            && (forall k :: k in u.options ==> !QuestionOf(t, assessment, u.options[k].question))
            && (forall k :: k in u.attempts ==> u.attempts[k].assessment != assessment)
            && (forall k :: k in u.responses ==> !AttemptOf(t, assessment, u.responses[k].attempt))
  {
    CascadeStages(t, assessment, user, fails);
  }

  /** Children go before their parents: with both id reads answered, at
      whatever step the cascade stops, no key or option is left whose
      question of the assessment is gone, no response whose attempt is gone,
      and no question or attempt whose assessment is gone. */
  lemma ChildrenBeforeParents(t: Tables, assessment: Id, user: Id, fails: Failures)
    requires QuestionsRead !in fails && AttemptsRead !in fails && assessment in t.assessments
    ensures NoOrphans(t, assessment, Cascade(t, assessment, user, fails).tables)
  {
    CascadeStages(t, assessment, user, fails);
    QuestionStagesHaveNoOrphans(t, assessment, fails);
    AttemptStagesHaveNoOrphans(t, assessment, user, fails);
  }

  /** No row of `u` tied to `assessment` in `t` outlives its parent. */
  predicate NoOrphans(t: Tables, assessment: Id, u: Tables) {
    && KeysParented(t, assessment, u.answerKeys, u.questions)
    && OptionsParented(t, assessment, u.options, u.questions)
    && ResponsesParented(t, assessment, u.responses, u.attempts)
    && (forall q :: q in u.questions && u.questions[q].assessment == assessment ==> assessment in u.assessments)
    && (forall k :: k in u.attempts && u.attempts[k].assessment == assessment ==> assessment in u.assessments)
  }

  predicate KeysParented(t: Tables, assessment: Id, keys: map<Id, AnswerKey>, qs: map<Id, Question>) {
    forall k :: k in keys && QuestionOf(t, assessment, keys[k].question) ==> keys[k].question in qs
  }

  predicate OptionsParented(t: Tables, assessment: Id, opts: map<Id, Choice>, qs: map<Id, Question>) {
    forall k :: k in opts && QuestionOf(t, assessment, opts[k].question) ==> opts[k].question in qs
  }

  predicate ResponsesParented(t: Tables, assessment: Id, rs: map<Id, Response>, ats: map<Id, Attempt>) {
    forall k :: k in rs && AttemptOf(t, assessment, rs[k].attempt) ==> rs[k].attempt in ats
  }

  /** Once the read ids' keys, options or responses are deleted, none with a
      parent of the assessment is left, whatever the parent table holds. */
  lemma ChildrenDropped(t: Tables, assessment: Id, fails: Failures,
                        qs: map<Id, Question>, ats: map<Id, Attempt>)
    requires QuestionsRead !in fails && AttemptsRead !in fails
    ensures KeysParented(t, assessment, DropKeysIn(t.answerKeys, QuestionIdsOf(t, assessment, fails)), qs)
    ensures OptionsParented(t, assessment, DropOptionsIn(t.options, QuestionIdsOf(t, assessment, fails)), qs)
    ensures ResponsesParented(t, assessment, DropResponsesIn(t.responses, AttemptIdsOf(t, assessment, fails)), ats)
  {
  }

  lemma QuestionStagesHaveNoOrphans(t: Tables, assessment: Id, fails: Failures)
    requires QuestionsRead !in fails && AttemptsRead !in fails && assessment in t.assessments
    ensures NoOrphans(t, assessment, t)
    ensures NoOrphans(t, assessment, KeysGone(t, assessment, fails))
    ensures NoOrphans(t, assessment, OptionsGone(t, assessment, fails))
    ensures NoOrphans(t, assessment, QuestionsGone(t, assessment, fails))
  {
    ChildrenKept(t, assessment);
    var qs := DropQuestionsOf(t.questions, assessment);
    ChildrenDropped(t, assessment, fails, t.questions, t.attempts);
    ChildrenDropped(t, assessment, fails, qs, t.attempts);
    var g := QuestionsGone(t, assessment, fails);
    assert g.questions == qs && g.attempts == t.attempts && g.responses == t.responses && g.assessments == t.assessments;
  }

  /** In `t` itself every child of the assessment has its parent. */
  lemma ChildrenKept(t: Tables, assessment: Id)
    requires assessment in t.assessments
    ensures NoOrphans(t, assessment, t)
  {
  }

  lemma AttemptStagesHaveNoOrphans(t: Tables, assessment: Id, user: Id, fails: Failures)
    requires QuestionsRead !in fails && AttemptsRead !in fails && assessment in t.assessments
    ensures var g := QuestionsGone(t, assessment, fails);
            && NoOrphans(t, assessment, ResponsesGone(g, assessment, fails))
            && NoOrphans(t, assessment, AttemptsGone(g, assessment, fails))
            && NoOrphans(t, assessment, AssessmentGone(g, assessment, user, fails))
  {
    var g := QuestionsGone(t, assessment, fails);
    assert AttemptIdsOf(g, assessment, fails) == AttemptIdsOf(t, assessment, fails);
    ChildrenDropped(t, assessment, fails, g.questions, g.attempts);
    ChildrenDropped(t, assessment, fails, g.questions, DropAttemptsOf(g.attempts, assessment));
  }

  /** With no question rows read, the key and option deletes are never
      issued, so their failing makes no difference; likewise for responses
      when no attempt rows are read. */
  lemma EmptyReadsSkipDeletes(t: Tables, assessment: Id, user: Id, fails: Failures)
    ensures QuestionIdsOf(t, assessment, fails) == {} ==>
              Cascade(t, assessment, user, fails) == Cascade(t, assessment, user, fails - {KeysDelete, OptionsDelete})
    ensures AttemptIdsOf(t, assessment, fails) == {} ==>
              Cascade(t, assessment, user, fails) == Cascade(t, assessment, user, fails - {ResponsesDelete})
  {
    if QuestionIdsOf(t, assessment, fails) == {} {
      NoQuestionsSkipDeletes(t, assessment, user, fails);
    }
    if AttemptIdsOf(t, assessment, fails) == {} {
      NoAttemptsSkipDeletes(t, assessment, user, fails);
    }
  }

  lemma NoQuestionsSkipDeletes(t: Tables, assessment: Id, user: Id, fails: Failures)
    requires QuestionIdsOf(t, assessment, fails) == {}
    ensures Cascade(t, assessment, user, fails) == Cascade(t, assessment, user, fails - {KeysDelete, OptionsDelete})
  {
    var f := fails - {KeysDelete, OptionsDelete};
    assert QuestionIdsOf(t, assessment, f) == {};
    assert QuestionSide(t, assessment, f) == QuestionSide(t, assessment, fails);
    var t1 := QuestionSide(t, assessment, fails).0;
    assert AttemptSide(t1, assessment, user, f) == AttemptSide(t1, assessment, user, fails);
  }

  lemma NoAttemptsSkipDeletes(t: Tables, assessment: Id, user: Id, fails: Failures)
    requires AttemptIdsOf(t, assessment, fails) == {}
    ensures Cascade(t, assessment, user, fails) == Cascade(t, assessment, user, fails - {ResponsesDelete})
  {
    var f := fails - {ResponsesDelete};
    assert QuestionSide(t, assessment, f) == QuestionSide(t, assessment, fails);
    var t1 := QuestionSide(t, assessment, fails).0;
    assert AttemptIdsOf(t1, assessment, fails) == {} by {
      QuestionSideFrame(t, assessment, fails);
    }
    assert AttemptSide(t1, assessment, user, f) == AttemptSide(t1, assessment, user, fails);
  }

  /** A failed question read leaves orphans: the questions go, their answer
      keys stay. */
  lemma FailedReadLeavesOrphanKey()
    ensures var t := Tables(map["a" := Assessment("u", "T", None, None, None, None, None, None, false)], map[],
                            map["q" := Question("a", "P", 1, 1)], map[],
                            map["k" := AnswerKey("q", "o")], map[], map[], map[]);
            var r := Cascade(t, "a", "u", map[QuestionsRead := "timeout"]);
            && r.reply == Reply(200, JsonOk)
            && "k" in r.tables.answerKeys && r.tables.answerKeys["k"].question !in r.tables.questions
  {
  }
}
