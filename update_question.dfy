/** `POST /teacher/assessments/api/questions/update`: the owner rewrites a
    question, replacing its options and its answer key. */
module UpdateQuestion {
  import opened Common
  import opened Text
  import opened Store
  import opened QuestionOptions

  /** The request body. `options[i].oldId` is the `id` an editing client may
      send along with an option. */
  datatype Payload = Payload(
    assessmentId: Option<Id>, questionId: Option<Id>, prompt: string,
    points: Option<int>, position: Option<int>, options: seq<OptionIn>,
    correctOptionId: Option<Id>)

  /** The values the update writes: trimmed prompt, points and position each
      defaulting to 1. */
  function EditedRow(body: Payload): Question
    requires body.assessmentId.Some?
  {
    Question(body.assessmentId.value, Trim(body.prompt), body.points.OrElse(1), body.position.OrElse(1))
  }

  /** `questions.update(row).eq("id", question).eq("assessment_id", assessment)` */
  function EditQuestion(qs: map<Id, Question>, assessment: Id, question: Id, row: Question): map<Id, Question> {
    map k | k in qs :: if k == question && qs[k].assessment == assessment then row else qs[k]
  }

  /** The update writes at most the one row, and only when it belongs to the
      assessment; every other row, and the set of rows, stays. */
  lemma EditTouchesOneRow(qs: map<Id, Question>, assessment: Id, question: Id, row: Question)
    ensures var r := EditQuestion(qs, assessment, question, row);
            && r.Keys == qs.Keys
            && (forall k :: k in qs && k != question ==> r[k] == qs[k])
            && (question in qs && qs[question].assessment == assessment ==> r[question] == row)
  {
  }

  /** A question id that is missing or belongs to another assessment
      matches no row: the table stays as it is. */
  lemma EditMissesForeignQuestion(qs: map<Id, Question>, assessment: Id, question: Id, row: Question)
    requires question !in qs || qs[question].assessment != assessment
    ensures EditQuestion(qs, assessment, question, row) == qs
  {
    var r := EditQuestion(qs, assessment, question, row);
    assert r.Keys == qs.Keys;
    forall k | k in qs
      ensures r[k] == qs[k]
    {
      if k == question {
        assert qs[k].assessment != assessment;
      }
    }
  }

  /** The slot of the new answer key among the inserted rows: the row whose
      new id is `correct_option_id`; failing that, for a truthy id, the
      first row at position `j + 1` where `j` is the first option sent with
      that id as its old id. */
  function CorrectSlot(ids: seq<Id>, rows: seq<Choice>, opts: seq<OptionIn>, correct: Option<Id>): (r: Option<nat>)
    requires |ids| == |rows|
    ensures r.Some? ==> r.value < |ids|
  {
    var direct := IndexOfId(ids, correct);
    if direct.Some? then direct
    else if Truthy(correct) then
      var j := FirstWithOldId(opts, correct.value);
      if j.Some? then FirstAt(rows, j.value + 1) else None
    else None
  }

  /** A `correct_option_id` that is one of the new ids picks that row. */
  lemma NewIdPicksItsRow(ids: seq<Id>, question: Id, opts: seq<OptionIn>, i: nat)
    requires |ids| == |opts| && Distinct(ids) && i < |ids|
    ensures CorrectSlot(ids, Rows(question, opts), opts, Some(ids[i])) == Some(i)
  {
    var direct := IndexOfId(ids, Some(ids[i]));
    assert direct.Some?;
  }

  /** When every option sits at its default position, an old id picks the new
      row of the very option that carried it. */
  lemma OldIdPicksSameOption(ids: seq<Id>, question: Id, opts: seq<OptionIn>, id: Id)
    requires |ids| == |opts| && id != ""
    requires forall i :: 0 <= i < |ids| ==> ids[i] != id
    requires forall i :: 0 <= i < |opts| ==> opts[i].position.OrElse(i + 1) == i + 1
    requires FirstWithOldId(opts, id).Some?
    ensures CorrectSlot(ids, Rows(question, opts), opts, Some(id)) == FirstWithOldId(opts, id)
  {
    var j := FirstWithOldId(opts, id);
    var rows := Rows(question, opts);
    NumberedRowAt(question, opts, j.value);
    SlotViaOldId(ids, rows, opts, id);
  }

  /** No new id equals `id`, so the old-id lookup decides. */
  lemma SlotViaOldId(ids: seq<Id>, rows: seq<Choice>, opts: seq<OptionIn>, id: Id)
    requires |ids| == |rows| && id != ""
    requires forall i :: 0 <= i < |ids| ==> ids[i] != id
    requires FirstWithOldId(opts, id).Some?
    ensures CorrectSlot(ids, rows, opts, Some(id)) == FirstAt(rows, FirstWithOldId(opts, id).value + 1)
  {
    assert IndexOfId(ids, Some(id)).None?;
    assert Truthy(Some(id));
  }

  /** With default positions, position `j + 1` holds the row of option `j`. */
  lemma NumberedRowAt(question: Id, opts: seq<OptionIn>, j: nat)
    requires j < |opts|
    requires forall i :: 0 <= i < |opts| ==> opts[i].position.OrElse(i + 1) == i + 1
    ensures FirstAt(Rows(question, opts), j + 1) == Some(j)
  {
    var rows := Rows(question, opts);
    assert forall i :: 0 <= i < |rows| ==> rows[i].position == i + 1;
    NumberedFirstAt(rows, j);
  }

  /** In rows numbered 1, 2, …, position `j + 1` is row `j`. */
  lemma NumberedFirstAt(rows: seq<Choice>, j: nat)
    requires j < |rows|
    requires forall i :: 0 <= i < |rows| ==> rows[i].position == i + 1
    ensures FirstAt(rows, j + 1) == Some(j)
  {
    var slot := FirstAt(rows, j + 1);
    assert rows[j].position == j + 1;
    assert rows[slot.value].position == slot.value + 1;
  }

  /** With explicit positions the old-id lookup can land on another option:
      the first option carries the old id but sits at position 2, and the
      row at position 1 is the second option. */
  lemma ExplicitPositionsPickOtherOption(question: Id, ids: seq<Id>, first: string, second: string, oldId: Id)
    requires |ids| == 2 && oldId != "" && ids[0] != oldId && ids[1] != oldId
    ensures var opts := [OptionIn(first, Some(2), Some(oldId)), OptionIn(second, Some(1), None)];
            && CorrectSlot(ids, Rows(question, opts), opts, Some(oldId)) == Some(1)
            && FirstWithOldId(opts, oldId) == Some(0)
  {
    var opts := [OptionIn(first, Some(2), Some(oldId)), OptionIn(second, Some(1), None)];
    assert FirstWithOldId(opts, oldId) == Some(0);
    SlotViaOldId(ids, Rows(question, opts), opts, oldId);
    SecondAtOne(Rows(question, opts));
  }

  lemma SecondAtOne(rows: seq<Choice>)
    requires |rows| == 2 && rows[0].position == 2 && rows[1].position == 1
    ensures FirstAt(rows, 1) == Some(1)
  {
  }

  /** The option rows and the answer key after the deletes succeeded. `ids`
      are the ids the store gives the inserted rows. */
  predicate Refilled(opts0: map<Id, Choice>, opts1: map<Id, Choice>,
                     keys0: map<Id, AnswerKey>, keys1: map<Id, AnswerKey>,
                     question: Id, body: Payload, fails: Failures, reply: Reply, ids: seq<Id>)
  {
    if OptionsInsert in fails then
      reply == TextReply(400, fails[OptionsInsert]) && opts1 == opts0 && keys1 == keys0
    else
      && FreshIds(opts0, ids, |body.options|)
      && opts1 == InsertAll(opts0, ids, Rows(question, body.options))
      && var slot := CorrectSlot(ids, Rows(question, body.options), body.options, body.correctOptionId);
         if slot.None? then reply == TextReply(400, "Correct option not found") && keys1 == keys0
         else if KeyInsert in fails then reply == TextReply(400, fails[KeyInsert]) && keys1 == keys0
         else reply == Reply(200, JsonOk) && AddsOne(keys0, keys1, AnswerKey(question, ids[slot.value]))
  }

  /** The outcomes once the question update succeeded: the keys of the
      question go, then its options, then the new options and key come in. */
  predicate Replaced(opts0: map<Id, Choice>, opts1: map<Id, Choice>,
                     keys0: map<Id, AnswerKey>, keys1: map<Id, AnswerKey>,
                     question: Id, body: Payload, fails: Failures, reply: Reply, ids: seq<Id>)
  {
    if KeysDelete in fails then
      reply == TextReply(400, fails[KeysDelete]) && opts1 == opts0 && keys1 == keys0
    else if OptionsDelete in fails then
      reply == TextReply(400, fails[OptionsDelete]) && opts1 == opts0 && keys1 == DropKeys(keys0, question)
    else
      Refilled(DropOptions(opts0, question), opts1, DropKeys(keys0, question), keys1, question, body, fails, reply, ids)
  }

  /** The outcomes once the gates pass. */
  predicate Admitted(before: Tables, after: Tables, body: Payload, fails: Failures, reply: Reply, ids: seq<Id>)
    requires body.assessmentId.Some? && body.questionId.Some?
  {
    if QuestionUpdate in fails then
      reply == TextReply(400, fails[QuestionUpdate]) && after == before
    else
      && after.questions == EditQuestion(before.questions, body.assessmentId.value, body.questionId.value, EditedRow(body))
      && Replaced(before.options, after.options, before.answerKeys, after.answerKeys,
                  body.questionId.value, body, fails, reply, ids)
  }

  /** The route. `ids` (ghost) are the ids the store gives the new option
      rows. */
  method Post(db: Db, user: Option<AuthUser>, body: Payload, fails: Failures) returns (reply: Reply, ghost ids: seq<Id>)
    modifies db`questions, db`options, db`answerKeys
    ensures IdsGate(user, body.assessmentId, body.questionId).Some? ==>
              reply == IdsGate(user, body.assessmentId, body.questionId).value && db.State() == old(db.State())
    ensures IdsGate(user, body.assessmentId, body.questionId).None? && !Owns(old(db.State()), body.assessmentId.value, user.value.id, fails) ==>
              reply == TextReply(404, "Not found") && db.State() == old(db.State())
    ensures IdsGate(user, body.assessmentId, body.questionId).None? && Owns(old(db.State()), body.assessmentId.value, user.value.id, fails) ==>
              Admitted(old(db.State()), db.State(), body, fails, reply, ids)
  {
    ids := [];
    var gate := IdsGate(user, body.assessmentId, body.questionId);
    if gate.Some? {
      return gate.value, ids;
    }
    if !Owns(db.State(), body.assessmentId.value, user.value.id, fails) {
      return TextReply(404, "Not found"), ids;
    }
    reply, ids := Edit(db, body, fails);
  }

  /** The question update, then the replacement of its options and key. */
  method Edit(db: Db, body: Payload, fails: Failures) returns (reply: Reply, ghost ids: seq<Id>)
    requires body.assessmentId.Some? && body.questionId.Some?
    modifies db`questions, db`options, db`answerKeys
    ensures Admitted(old(db.State()), db.State(), body, fails, reply, ids)
  {
    ids := [];
    if QuestionUpdate in fails {
      return TextReply(400, fails[QuestionUpdate]), ids;
    }
    db.questions := EditQuestion(db.questions, body.assessmentId.value, body.questionId.value, EditedRow(body));
    reply, ids := Replace(db, body.questionId.value, body, fails);
  }

  /** The deletes, then the inserts. */
  method Replace(db: Db, question: Id, body: Payload, fails: Failures) returns (reply: Reply, ghost ids: seq<Id>)
    modifies db`options, db`answerKeys
    ensures Replaced(old(db.options), db.options, old(db.answerKeys), db.answerKeys, question, body, fails, reply, ids)
  {
    ids := [];
    if KeysDelete in fails {
      return TextReply(400, fails[KeysDelete]), ids;
    }
    db.answerKeys := DropKeys(db.answerKeys, question);
    if OptionsDelete in fails {
      return TextReply(400, fails[OptionsDelete]), ids;
    }
    db.options := DropOptions(db.options, question);
    reply, ids := Refill(db, question, body, fails);
  }

  /** The new option rows, then the answer key. */
  method Refill(db: Db, question: Id, body: Payload, fails: Failures) returns (reply: Reply, ghost ids: seq<Id>)
    modifies db`options, db`answerKeys
    ensures Refilled(old(db.options), db.options, old(db.answerKeys), db.answerKeys, question, body, fails, reply, ids)
  {
    ids := [];
    if OptionsInsert in fails {
      return TextReply(400, fails[OptionsInsert]), ids;
    }
    var rows := Rows(question, body.options);
    var newIds, withRows := InsertRows(db.options, rows);
    ids := newIds;
    db.options := withRows;
    var slot := CorrectSlot(newIds, rows, body.options, body.correctOptionId);
    if slot.None? {
      return TextReply(400, "Correct option not found"), ids;
    }
    if KeyInsert in fails {
      return TextReply(400, fails[KeyInsert]), ids;
    }
    AddKey(db, question, newIds[slot.value]);
    return Reply(200, JsonOk), ids;
  }

  /** A question id of another assessment passes the gate when the
      assessment is the user's own: its row stays as it was, yet its old
      options are deleted, and the only option rows it has afterwards are
      the newly inserted ones. */
  lemma ForeignQuestionLosesOptions(before: Tables, after: Tables, body: Payload, fails: Failures, reply: Reply, ids: seq<Id>)
    requires body.assessmentId.Some? && body.questionId.Some?
    requires Admitted(before, after, body, fails, reply, ids)
    requires QuestionUpdate !in fails && KeysDelete !in fails && OptionsDelete !in fails
    requires body.questionId.value in before.questions
    requires before.questions[body.questionId.value].assessment != body.assessmentId.value
    ensures after.questions == before.questions
    ensures forall k :: k in after.options && after.options[k].question == body.questionId.value ==> k in ids
  {
    var q := body.questionId.value;
    EditMissesForeignQuestion(before.questions, body.assessmentId.value, q, EditedRow(body));
    var opts := DropOptions(before.options, q);
    assert Refilled(opts, after.options, DropKeys(before.answerKeys, q), after.answerKeys, q, body, fails, reply, ids);
    if OptionsInsert !in fails {
      OnlyNewRowsOf(opts, after.options, ids, Rows(q, body.options), q);
    }
  }

  /** After the delete and the insert, every row of the question is new. */
  lemma OnlyNewRowsOf(kept: map<Id, Choice>, after: map<Id, Choice>, ids: seq<Id>, rows: seq<Choice>, q: Id)
    requires FreshIds(kept, ids, |rows|) && after == InsertAll(kept, ids, rows)
    requires forall k :: k in kept ==> kept[k].question != q
    ensures forall k :: k in after && after[k].question == q ==> k in ids
  {
    forall k | k in after && after[k].question == q
      ensures k in ids
    {
      if k !in kept {
        var i :| 0 <= i < |ids| && ids[i] == k;
      }
    }
  }
}
