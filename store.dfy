/** The database the routes work on, as in-memory tables keyed by row id.
    Each store call a route makes is one step; which steps fail, and with
    what message, is an input of the route (`Failures`). */
module Store {
  import opened Common

  datatype Assessment = Assessment(
    owner: Id, title: string, description: Option<string>, subject: Option<Id>,
    startAt: Option<int>, endAt: Option<int>, duration: Option<int>,
    passwordHash: Option<string>, published: bool)

  datatype Subject = Subject(name: string)

  datatype Question = Question(assessment: Id, prompt: string, points: int, position: int)

  /** A row of the `options` table. */
  datatype Choice = Choice(question: Id, text: string, position: int)

  datatype AnswerKey = AnswerKey(question: Id, correctOption: Id)

  datatype Attempt = Attempt(assessment: Id, student: Id, status: string)

  datatype Response = Response(attempt: Id, question: Id, option: Option<Id>)

  /** A row of `profiles`, keyed by the user id. */
  datatype Profile = Profile(role: string, active: bool, name: Option<string>)

  /** The contents of every table at one moment. */
  datatype Tables = Tables(
    assessments: map<Id, Assessment>, subjects: map<Id, Subject>,
    questions: map<Id, Question>, options: map<Id, Choice>,
    answerKeys: map<Id, AnswerKey>, attempts: map<Id, Attempt>,
    responses: map<Id, Response>, profiles: map<Id, Profile>)

  /** The store calls the routes make. */
  datatype Step =
    | OwnerRead | SubjectRead | SubjectInsert
    | AssessmentInsert | AssessmentUpdate | AssessmentDelete
    | PositionRead | QuestionInsert | QuestionUpdate | QuestionDelete | QuestionsRead
    | OptionsInsert | OptionsDelete | KeyInsert | KeysDelete
    | AttemptsRead | AttemptsDelete | ResponsesDelete
    | ProfileRead | ProfileInsert | ProfileReread

  /** The steps that fail in one request, with the error message of each. */
  type Failures = map<Step, string>

  class Db {
    var assessments: map<Id, Assessment>
    var subjects: map<Id, Subject>
    var questions: map<Id, Question>
    var options: map<Id, Choice>
    var answerKeys: map<Id, AnswerKey>
    var attempts: map<Id, Attempt>
    var responses: map<Id, Response>
    var profiles: map<Id, Profile>

    constructor ()
      ensures State() == Tables(map[], map[], map[], map[], map[], map[], map[], map[])
    {
      assessments, subjects, questions, options := map[], map[], map[], map[];
      answerKeys, attempts, responses, profiles := map[], map[], map[], map[];
    }

    function State(): Tables
      reads this
    {
      Tables(assessments, subjects, questions, options, answerKeys, attempts, responses, profiles)
    }

    /** The subject id for a non-blank name (a `maybeSingle` lookup,
        then an insert): the id of the one subject of that name, or a new
        subject when there is none, several (the lookup then errs) or the
        lookup fails. */
    method FindOrCreateSubject(name: string, fails: Failures) returns (r: Outcome<Id>)
      modifies this`subjects
      ensures ReusesSubject(old(subjects), name, fails) ==>
                subjects == old(subjects) && r.Done? && r.value in Named(old(subjects), name)
      ensures !ReusesSubject(old(subjects), name, fails) && SubjectInsert in fails ==>
                subjects == old(subjects) && r == Failed(fails[SubjectInsert])
      ensures !ReusesSubject(old(subjects), name, fails) && SubjectInsert !in fails ==>
                r.Done? && r.value !in old(subjects) && r.value != "" &&
                subjects == old(subjects)[r.value := Subject(name)]
    {
      var named := Named(subjects, name);
      if ReusesSubject(subjects, name, fails) {
        var k :| k in named;
        return Done(k);
      }
      if SubjectInsert in fails {
        return Failed(fails[SubjectInsert]);
      }
      var id := NewId(subjects.Keys);
      subjects := subjects[id := Subject(name)];
      return Done(id);
    }
  }

  /** What a store call sequence produced: a value or the first error. */
  datatype Outcome<T> = Done(value: T) | Failed(message: string)

  function Named(subjects: map<Id, Subject>, name: string): set<Id> {
    set k | k in subjects && subjects[k].name == name
  }

  /** `found?.id` is truthy: the read succeeded and exactly one subject,
      with a non-empty id, has the name. */
  predicate ReusesSubject(subjects: map<Id, Subject>, name: string, fails: Failures) {
    SubjectRead !in fails && |Named(subjects, name)| == 1 && "" !in Named(subjects, name)
  }

  /** The ownership gate shared by the routes: the
      `select id where id = … and owner_id = user.id` read finds the row. */
  predicate Owns(t: Tables, id: Id, user: Id, fails: Failures) {
    OwnerRead !in fails && id in t.assessments && t.assessments[id].owner == user
  }

  /** The rows of `m` not matching `p` (`delete … where p`). */
  function RemoveWhere<V>(m: map<Id, V>, p: V -> bool): (r: map<Id, V>)
    ensures forall k :: k in r <==> k in m && !p(m[k])
    ensures forall k :: k in r ==> r[k] == m[k]
  {
    map k | k in m && !p(m[k]) :: m[k]
  }

  // Fresh ids

  /** A length no key reaches. */
  ghost function LongerThanAll(keys: set<Id>): (n: nat)
    ensures forall k :: k in keys ==> |k| < n
    decreases keys
  {
    if keys == {} then 0
    else
      var k :| k in keys;
      var m := LongerThanAll(keys - {k});
      if |k| < m then m else |k| + 1
  }

  lemma FreshExists(keys: set<Id>)
    ensures exists id: Id :: id !in keys && id != ""
  {
    var id := seq(LongerThanAll(keys) + 1, i => 'x');
    assert id !in keys && id != "";
  }

  /** The id the database assigns to a new row: any unused one. */
  method NewId(keys: set<Id>) returns (id: Id)
    ensures id !in keys && id != ""
  {
    FreshExists(keys);
    id :| id !in keys && id != "";
  }

  predicate Distinct(ids: seq<Id>) {
    forall i, j :: 0 <= i < j < |ids| ==> ids[i] != ids[j]
  }

  /** The ids of `n` rows inserted together. */
  method NewIds(keys: set<Id>, n: nat) returns (ids: seq<Id>)
    ensures |ids| == n && Distinct(ids)
    ensures forall i :: 0 <= i < n ==> ids[i] !in keys && ids[i] != ""
  {
    ids := [];
    while |ids| < n
      invariant |ids| <= n && Distinct(ids)
      invariant forall i :: 0 <= i < |ids| ==> ids[i] !in keys && ids[i] != ""
    {
      var id := NewId(keys + set i | 0 <= i < |ids| :: ids[i]);
      ids := ids + [id];
    }
  }

  // Inserted rows

  /** `after` keeps every row of `before`. */
  predicate Grows<V(==)>(before: map<Id, V>, after: map<Id, V>) {
    before.Keys <= after.Keys && forall k :: k in before ==> after[k] == before[k]
  }

  /** Every row of `after` is a row of `before`: nothing was added or
      changed, at most removed. */
  predicate Shrinks<V(==)>(before: map<Id, V>, after: map<Id, V>) {
    forall k :: k in after ==> k in before && after[k] == before[k]
  }

  /** `after` is `before` plus exactly one new row, holding `v`. */
  predicate AddsOne<V(==)>(before: map<Id, V>, after: map<Id, V>, v: V) {
    && Grows(before, after)
    && |after.Keys - before.Keys| == 1
    && (forall k :: k in after && k !in before ==> after[k] == v)
  }

  lemma AddsOneByUpdate<V>(before: map<Id, V>, id: Id, v: V)
    requires id !in before
    ensures AddsOne(before, before[id := v], v)
  {
    assert before[id := v].Keys - before.Keys == {id};
  }

  /** A bulk insert: the rows under their new ids. */
  function InsertAll<V>(m: map<Id, V>, ids: seq<Id>, rows: seq<V>): (r: map<Id, V>)
    requires |ids| == |rows| && Distinct(ids)
    requires forall i :: 0 <= i < |ids| ==> ids[i] !in m
    ensures r.Keys == m.Keys + set i | 0 <= i < |ids| :: ids[i]
    ensures forall k :: k in m ==> r[k] == m[k]
    ensures forall i :: 0 <= i < |ids| ==> r[ids[i]] == rows[i]
  {
    m + Placed(ids, rows)
  }

  /** The inserted rows alone, each under its id. */
  function Placed<V>(ids: seq<Id>, rows: seq<V>): (r: map<Id, V>)
    requires |ids| == |rows| && Distinct(ids)
    ensures r.Keys == set i | 0 <= i < |ids| :: ids[i]
    ensures forall i :: 0 <= i < |ids| ==> r[ids[i]] == rows[i]
  {
    map i | 0 <= i < |ids| :: ids[i] := rows[i]
  }

  lemma {:induction false} DistinctCard(ids: seq<Id>)
    requires Distinct(ids)
    ensures |set i | 0 <= i < |ids| :: ids[i]| == |ids|
  {
    if ids != [] {
      var init := ids[..|ids| - 1];
      assert Distinct(init);
      DistinctCard(init);
      var s := set i | 0 <= i < |init| :: init[i];
      assert (set i | 0 <= i < |ids| :: ids[i]) == s + {ids[|ids| - 1]};
      assert ids[|ids| - 1] !in s;
    }
  }

  /** Ids a bulk insert of `n` rows may receive: distinct, non-empty and
      unused. */
  predicate FreshIds<V>(m: map<Id, V>, ids: seq<Id>, n: nat) {
    |ids| == n && Distinct(ids) && forall i :: 0 <= i < |ids| ==> ids[i] !in m && ids[i] != ""
  }

  /** `after` is `before` plus the rows `rows`, under new ids. */
  ghost predicate AddsRows<V>(before: map<Id, V>, after: map<Id, V>, rows: seq<V>) {
    exists ids :: FreshIds(before, ids, |rows|) && after == InsertAll(before, ids, rows)
  }

  /** What a bulk insert leaves: the old rows, and one new row per element,
      each element at its own new id. */
  lemma AddsRowsFacts<V>(before: map<Id, V>, after: map<Id, V>, rows: seq<V>) returns (ids: seq<Id>)
    requires AddsRows(before, after, rows)
    ensures FreshIds(before, ids, |rows|)
    ensures Grows(before, after)
    ensures after.Keys - before.Keys == set i | 0 <= i < |ids| :: ids[i]
    ensures |after.Keys - before.Keys| == |rows|
    ensures forall i :: 0 <= i < |rows| ==> after[ids[i]] == rows[i]
  {
    ids :| FreshIds(before, ids, |rows|) && after == InsertAll(before, ids, rows);
    InsertAllCount(before, ids, rows);
  }

  lemma InsertAllCount<V>(m: map<Id, V>, ids: seq<Id>, rows: seq<V>)
    requires |ids| == |rows| && Distinct(ids)
    requires forall i :: 0 <= i < |ids| ==> ids[i] !in m
    ensures InsertAll(m, ids, rows).Keys - m.Keys == set i | 0 <= i < |ids| :: ids[i]
    ensures |InsertAll(m, ids, rows).Keys - m.Keys| == |rows|
  {
    var s := set i | 0 <= i < |ids| :: ids[i];
    assert InsertAll(m, ids, rows).Keys - m.Keys == s;
    DistinctCard(ids);
  }

  /** The ids of a bulk insert, and the table with the rows added. */
  method InsertRows<V>(m: map<Id, V>, rows: seq<V>) returns (ids: seq<Id>, r: map<Id, V>)
    ensures |ids| == |rows| && Distinct(ids)
    ensures forall i :: 0 <= i < |ids| ==> ids[i] !in m && ids[i] != ""
    ensures r == InsertAll(m, ids, rows)
    ensures AddsRows(m, r, rows)
  {
    ids := NewIds(m.Keys, |rows|);
    r := InsertAll(m, ids, rows);
  }
}
