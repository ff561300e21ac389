/** The teacher's assessment list page: loading the list (closing the
    published assessments whose end has passed), deleting one, and the
    badge and schedule of each card. */
module TeacherAssessments {
  import opened Common
  import opened Seqs
  import opened Store
  import StudentAssessments

  /** A row of the list query. */
  datatype Row = Row(id: Id, title: string, description: Option<string>,
                     startAt: Option<int>, endAt: Option<int>, published: bool)

  /** The answer of the list query: rows, or an error whose `message` may be
      missing. */
  datatype Fetched = Rows(rows: seq<Row>) | QueryError(message: Option<string>)

  /** Auto-close selects a row that is published and whose end, when set, is
      at or before `now`. */
  predicate Expired(now: int, r: Row) {
    r.published && r.endAt.Some? && r.endAt.value <= now
  }

  /** The row as the list shows it after auto-close. */
  function Closed(now: int, r: Row): Row {
    if Expired(now, r) then r.(published := false) else r
  }

  /** The ids sent to the `update({ is_published: false }).in("id", ids)`
      call. */
  function ExpiredIds(rows: seq<Row>, now: int): set<Id> {
    set i | 0 <= i < |rows| && Expired(now, rows[i]) :: rows[i].id
  }

  /** The assessments table after the update on `ids`. */
  function Unpublish(m: map<Id, Assessment>, ids: set<Id>): (r: map<Id, Assessment>)
    ensures r.Keys == m.Keys
    ensures forall k :: k in m && k !in ids ==> r[k] == m[k]
    ensures forall k :: k in m && k in ids ==> !r[k].published && r[k] == m[k].(published := false)
  {
    map k | k in m :: if k in ids then m[k].(published := false) else m[k]
  }

  /** A closed row is not selected again, and a row that was not selected is
      shown as fetched. */
  lemma ClosedIsFinal(now: int, r: Row)
    ensures !Expired(now, Closed(now, r))
    ensures !Expired(now, r) ==> Closed(now, r) == r
    ensures Expired(now, r) ==> Closed(now, r) == r.(published := false)
  {
  }

  /** The end instant itself already closes on this page, while the student
      side still reports it as open. */
  lemma EndInstantDiffers(now: int, r: Row)
    requires r.published && r.endAt == Some(now) && now != 0
    requires r.startAt.None?
    ensures Expired(now, r)
    ensures StudentAssessments.ComputeStatus(now, r.startAt, r.endAt) == StudentAssessments.Ongoing
  {
  }

  /** `a.is_published ? "ACTIVE" : "CLOSED"` */
  function Badge(r: Row): (b: string)
    ensures b == "ACTIVE" <==> r.published
  {
    if r.published then "ACTIVE" else "CLOSED"
  }

  /** After auto-close every row whose end has passed reads CLOSED. */
  lemma ExpiredReadsClosed(now: int, r: Row)
    requires r.endAt.Some? && r.endAt.value <= now
    ensures Badge(Closed(now, r)) == "CLOSED"
  {
  }

  /** `formatSchedule` of this page, with `formatTimeHM` of a present time
      given as `timeHM`. */
  function Schedule(start: Option<int>, end: Option<int>, timeHM: int -> string): (r: string)
    ensures start.None? && end.None? ==> r == "Tidak dijadwalkan"
    ensures (forall t :: timeHM(t) != "-") ==> (r == "Tidak dijadwalkan" <==> start.None? && end.None?)
  {
    var s := if start.Some? then var t := start.value; timeHM(t) else "-";
    var e := if end.Some? then var t := end.value; timeHM(t) else "-";
    if s == "-" && e == "-" then "Tidak dijadwalkan"
    else
      var r := s + " - " + e;
      assert r[|s| + 1] == '-' && '-' !in "Tidak dijadwalkan";
      r
  }

  /** `expired.forEach(x => x.is_published = false)` over the fetched rows. */
  method CloseExpired(rows: seq<Row>, now: int) returns (out: seq<Row>)
    ensures |out| == |rows|
    ensures forall i :: 0 <= i < |rows| ==> out[i] == Closed(now, rows[i])
  {
    out := rows;
    var i := 0;
    while i < |out|
      invariant i <= |out| == |rows|
      invariant forall j :: 0 <= j < i ==> out[j] == Closed(now, rows[j])
      invariant forall j :: i <= j < |rows| ==> out[j] == rows[j]
    {
      if Expired(now, out[i]) {
        out := out[i := out[i].(published := false)];
      }
      i := i + 1;
    }
  }

  class TeacherAssessmentsPage {
    var list: seq<Row>
    var error: Option<string>

    constructor ()
      ensures list == [] && error.None?
    {
      list, error := [], None;
    }

    /** `fetchList`. `fetched` is the answer of the list query and `fails`
        says whether the auto-close update fails; its error is not read. */
    method FetchList(db: Db, user: Option<AuthUser>, fetched: Fetched, now: int, fails: Failures)
      modifies this, db`assessments
      ensures user.None? ==> error == Some("Unauthorized") && list == old(list) && unchanged(db)
      ensures user.Some? && fetched.QueryError? ==>
                error == Some(fetched.message.OrElse("Gagal memuat data")) && list == old(list) && unchanged(db)
      ensures user.Some? && fetched.Rows? ==>
                && error.None?
                && |list| == |fetched.rows|
                && (forall i :: 0 <= i < |list| ==> list[i] == Closed(now, fetched.rows[i]))
                && db.assessments == (if ExpiredIds(fetched.rows, now) == {} || AssessmentUpdate in fails
                                      then old(db.assessments)
                                      else Unpublish(old(db.assessments), ExpiredIds(fetched.rows, now)))
    {
      error := None;
      if user.None? {
        error := Some("Unauthorized");
        return;
      }
      if fetched.QueryError? {
        error := Some(fetched.message.OrElse("Gagal memuat data"));
        return;
      }
      var rows := fetched.rows;
      var ids := ExpiredIds(rows, now);
      if ids != {} && AssessmentUpdate !in fails {
        db.assessments := Unpublish(db.assessments, ids);
      }
      list := CloseExpired(rows, now);
    }

    /** `deleteAssessment(id)`: `confirmed` is the answer to the dialog,
        `ok` and `text` the delete route's reply. */
    method DeleteAssessment(id: Id, confirmed: bool, ok: bool, text: string)
      modifies this
      ensures !confirmed ==> list == old(list) && error == old(error)
      ensures confirmed && ok ==> list == Filter(old(list), (x: Row) => x.id != id) && error.None?
      ensures confirmed && !ok ==> list == old(list) && error == Some(text)
    {
      if !confirmed {
        return;
      }
      error := None;
      if !ok {
        error := Some(text);
        return;
      }
      list := Filter(list, (x: Row) => x.id != id);
    }
  }

  /** The filter of a successful delete removes exactly the rows with that
      id: every other row stays, in order, with its multiplicity. */
  lemma DeleteRemovesOnlyId(rows: seq<Row>, id: Id, x: Row)
    ensures x in Filter(rows, (r: Row) => r.id != id) <==> x in rows && x.id != id
    ensures x.id != id ==> multiset(Filter(rows, (r: Row) => r.id != id))[x] == multiset(rows)[x]
  {
    FilterMember(rows, (r: Row) => r.id != id, x);
    FilterMultiset(rows, (r: Row) => r.id != id, x);
  }

  /** The update reaches exactly the selected rows that exist in the table:
      each becomes unpublished, every other row stays. */
  lemma UnpublishTargetsSelected(m: map<Id, Assessment>, rows: seq<Row>, now: int, i: nat)
    requires i < |rows| && Expired(now, rows[i]) && rows[i].id in m
    ensures !Unpublish(m, ExpiredIds(rows, now))[rows[i].id].published
  {
    assert rows[i].id in ExpiredIds(rows, now);
  }
}
