/** The option rows the question routes insert, and the lookups on the
    inserted rows that pick the correct option. */
module QuestionOptions {
  import opened Common
  import opened Text
  import opened Store

  /** The requirements the question update and delete routes check before
      any store access, in this order. */
  function IdsGate(user: Option<AuthUser>, assessment: Option<Id>, question: Option<Id>): (r: Option<Reply>)
    ensures r.None? <==> user.Some? && Truthy(assessment) && Truthy(question)
    ensures user.None? ==> r == Some(TextReply(401, "Unauthorized"))
    ensures user.Some? && r.Some? ==> r == Some(TextReply(400, "Missing ids"))
  {
    if user.None? then Some(TextReply(401, "Unauthorized"))
    else if !Truthy(assessment) || !Truthy(question) then Some(TextReply(400, "Missing ids"))
    else None
  }

  /** One option of a request body; `oldId` is the `id` an editing client
      may send along. */
  datatype OptionIn = OptionIn(text: string, position: Option<int>, oldId: Option<Id>)

  /** `options.map((o, idx) => ({ question_id, text: o.text.trim(),
      position: o.position ?? idx + 1 }))` */
  function Rows(question: Id, opts: seq<OptionIn>): (r: seq<Choice>)
    ensures |r| == |opts|
    ensures forall i :: 0 <= i < |r| ==> r[i].question == question && r[i].text == Trim(opts[i].text)
    ensures forall i :: 0 <= i < |r| ==> r[i].position == opts[i].position.OrElse(i + 1)
  {
    seq(|opts|, i requires 0 <= i < |opts| => Choice(question, Trim(opts[i].text), opts[i].position.OrElse(i + 1)))
  }

  /** A body without explicit positions numbers its options 1, 2, …. */
  lemma DefaultPositions(question: Id, opts: seq<OptionIn>)
    requires forall i :: 0 <= i < |opts| ==> opts[i].position.None?
    ensures forall i :: 0 <= i < |opts| ==> Rows(question, opts)[i].position == i + 1
  {
  }

  /** `inserted.find(o => o.position === p)`: the first inserted row at
      position `p`. */
  function FirstAt(rows: seq<Choice>, p: int): (r: Option<nat>)
    ensures r.Some? ==> r.value < |rows| && rows[r.value].position == p
    ensures r.Some? ==> forall j :: 0 <= j < r.value ==> rows[j].position != p
    ensures r.None? ==> forall j :: 0 <= j < |rows| ==> rows[j].position != p
  {
    if rows == [] then None
    else if rows[0].position == p then Some(0)
    else
      var rest := FirstAt(rows[1..], p);
      if rest.Some? then Some(rest.value + 1) else None
  }

  /** `body.options.findIndex(o => o.id === id)` */
  function FirstWithOldId(opts: seq<OptionIn>, id: Id): (r: Option<nat>)
    ensures r.Some? ==> r.value < |opts| && opts[r.value].oldId == Some(id)
    ensures r.Some? ==> forall j :: 0 <= j < r.value ==> opts[j].oldId != Some(id)
    ensures r.None? ==> forall j :: 0 <= j < |opts| ==> opts[j].oldId != Some(id)
  {
    if opts == [] then None
    else if opts[0].oldId == Some(id) then Some(0)
    else
      var rest := FirstWithOldId(opts[1..], id);
      if rest.Some? then Some(rest.value + 1) else None
  }

  /** `inserted.find(o => o.id === id)` over the new ids. */
  function IndexOfId(ids: seq<Id>, id: Option<Id>): (r: Option<nat>)
    ensures r.Some? ==> r.value < |ids| && Some(ids[r.value]) == id
    ensures r.None? ==> forall j :: 0 <= j < |ids| ==> Some(ids[j]) != id
  {
    if ids == [] then None
    else if Some(ids[0]) == id then Some(0)
    else
      var rest := IndexOfId(ids[1..], id);
      if rest.Some? then Some(rest.value + 1) else None
  }

  /** Exactly one answer key was added; it names `question` and a new option
      row equal to `correct`. */
  predicate KeyAdded(keys0: map<Id, AnswerKey>, keys1: map<Id, AnswerKey>,
                     opts0: map<Id, Choice>, opts1: map<Id, Choice>, question: Id, correct: Choice) {
    && Grows(keys0, keys1)
    && |keys1.Keys - keys0.Keys| == 1
    && forall k :: k in keys1 && k !in keys0 ==>
         && keys1[k].question == question
         && keys1[k].correctOption in opts1 && keys1[k].correctOption !in opts0
         && opts1[keys1[k].correctOption] == correct
  }

  /** `insert({ question_id, correct_option_id })` */
  method AddKey(db: Db, question: Id, option: Id)
    modifies db`answerKeys
    ensures AddsOne(old(db.answerKeys), db.answerKeys, AnswerKey(question, option))
  {
    var k := NewId(db.answerKeys.Keys);
    AddsOneByUpdate(db.answerKeys, k, AnswerKey(question, option));
    db.answerKeys := db.answerKeys[k := AnswerKey(question, option)];
  }

  /** `answer_keys.delete().eq("question_id", question)` */
  function DropKeys(keys: map<Id, AnswerKey>, question: Id): map<Id, AnswerKey> {
    RemoveWhere(keys, (k: AnswerKey) => k.question == question)
  }

  /** `options.delete().eq("question_id", question)` */
  function DropOptions(opts: map<Id, Choice>, question: Id): map<Id, Choice> {
    RemoveWhere(opts, (o: Choice) => o.question == question)
  }
}
