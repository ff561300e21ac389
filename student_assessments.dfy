/** The student's assessment list (`src/app/student/assessments/page.tsx`):
    the schedule status of an assessment, the four sections the list is
    bucketed into, the latest completed attempt per assessment and the
    teacher feedback shown for it, and the label on each card. */
module StudentAssessments {
  import opened Common
  import opened Seqs

  /** The published assessment rows the page lists. Times are milliseconds. */
  datatype Row = Row(id: Id, owner: Id, title: string, startAt: Option<int>, endAt: Option<int>)

  datatype Phase = Upcoming | Ongoing | Ended

  /** `start` and `end` are numbers (`getTime()`) when they are tested, so a
      bound at time 0 is as good as no bound. */
  predicate Bound(t: Option<int>) {
    t.Some? && t.value != 0
  }

  /** `computeStatus` at time `now`, branch by branch. */
  function ComputeStatus(now: int, start: Option<int>, end: Option<int>): (p: Phase)
    ensures p == Upcoming <==> Bound(start) && now < start.value
    ensures p == Ended <==> !(Bound(start) && now < start.value) && Bound(end) && now > end.value
  {
    if Bound(start) && now < start.value then Upcoming
    else if Bound(end) && now > end.value then Ended
    else if Bound(start) && Bound(end) && now >= start.value && now <= end.value then Ongoing
    else if Bound(start) && !Bound(end) && now >= start.value then Ongoing
    else if !Bound(start) && Bound(end) && now <= end.value then Ongoing
    else Ongoing
  }

  /** A bound whose timestamp is 0 is ignored. */
  lemma ZeroBoundIgnored(now: int, start: Option<int>, end: Option<int>)
    ensures ComputeStatus(now, Some(0), end) == ComputeStatus(now, None, end)
    ensures ComputeStatus(now, start, Some(0)) == ComputeStatus(now, start, None)
  {
  }

  /** The end instant itself still counts as open, and no bounds at all is
      always open. */
  lemma OngoingCases(now: int, start: Option<int>, end: Option<int>)
    ensures end == Some(now) && now != 0 && !(Bound(start) && now < start.value) ==>
              ComputeStatus(now, start, end) == Ongoing
    ensures ComputeStatus(now, None, None) == Ongoing
  {
  }

  function Status(now: int, r: Row): Phase {
    ComputeStatus(now, r.startAt, r.endAt)
  }

  // Sections of the list

  datatype Bucket = InUpcoming | InOngoing | InEnded | InDone

  /** The section `grouped` puts a row in: DONE first, then by status. */
  function BucketOf(completed: set<Id>, now: int, r: Row): Bucket {
    if r.id in completed then InDone
    else match Status(now, r)
      case Upcoming => InUpcoming
      case Ended => InEnded
      case Ongoing => InOngoing
  }

  datatype Buckets = Buckets(upcoming: seq<Row>, ongoing: seq<Row>, ended: seq<Row>, done: seq<Row>)

  /** The rows of one section, in list order. */
  function Section(rows: seq<Row>, completed: set<Id>, now: int, b: Bucket): seq<Row> {
    Filter(rows, (r: Row) => BucketOf(completed, now, r) == b)
  }

  /** `grouped`: one pass over the list pushing each row onto its section. */
  method Group(list: seq<Row>, completed: set<Id>, now: int) returns (g: Buckets)
    ensures g.upcoming == Section(list, completed, now, InUpcoming)
    ensures g.ongoing == Section(list, completed, now, InOngoing)
    ensures g.ended == Section(list, completed, now, InEnded)
    ensures g.done == Section(list, completed, now, InDone)
  {
    g := Buckets([], [], [], []);
    var i := 0;
    while i < |list|
      invariant 0 <= i <= |list|
      invariant g.upcoming == Section(list[..i], completed, now, InUpcoming)
      invariant g.ongoing == Section(list[..i], completed, now, InOngoing)
      invariant g.ended == Section(list[..i], completed, now, InEnded)
      invariant g.done == Section(list[..i], completed, now, InDone)
    {
      var row := list[i];
      assert list[..i + 1][..i] == list[..i];
      if row.id in completed {
        g := g.(done := g.done + [row]);
      } else {
        var status := ComputeStatus(now, row.startAt, row.endAt);
        if status == Upcoming {
          g := g.(upcoming := g.upcoming + [row]);
        } else if status == Ended {
          g := g.(ended := g.ended + [row]);
        } else {
          g := g.(ongoing := g.ongoing + [row]);
        }
      }
      i := i + 1;
    }
    assert list[..i] == list;
  }

  /** Every row lands in exactly one section: the four sections together
      hold each row as often as the list does. */
  lemma {:induction false} SectionsPartition(rows: seq<Row>, completed: set<Id>, now: int)
    ensures multiset(Section(rows, completed, now, InUpcoming)) + multiset(Section(rows, completed, now, InOngoing))
          + multiset(Section(rows, completed, now, InEnded)) + multiset(Section(rows, completed, now, InDone))
         == multiset(rows)
  {
    if rows != [] {
      var init := rows[..|rows| - 1];
      var last := rows[|rows| - 1];
      SectionsPartition(init, completed, now);
      assert rows == init + [last];
      SectionSnoc(rows, completed, now, InUpcoming);
      SectionSnoc(rows, completed, now, InOngoing);
      SectionSnoc(rows, completed, now, InEnded);
      SectionSnoc(rows, completed, now, InDone);
      var b := BucketOf(completed, now, last);
      assert multiset(rows) == multiset(init) + multiset{last};
      AddOneBucket(
        multiset(Section(init, completed, now, InUpcoming)), multiset(Section(init, completed, now, InOngoing)),
        multiset(Section(init, completed, now, InEnded)), multiset(Section(init, completed, now, InDone)),
        multiset(Section(rows, completed, now, InUpcoming)), multiset(Section(rows, completed, now, InOngoing)),
        multiset(Section(rows, completed, now, InEnded)), multiset(Section(rows, completed, now, InDone)),
        last, b);
    }
  }

  /** Adding one row to the bucket `b` adds it once to the four sections
      together. */
  lemma AddOneBucket(u0: multiset<Row>, o0: multiset<Row>, e0: multiset<Row>, d0: multiset<Row>,
                     u1: multiset<Row>, o1: multiset<Row>, e1: multiset<Row>, d1: multiset<Row>, x: Row, b: Bucket)
    requires u1 == u0 + (if b == InUpcoming then multiset{x} else multiset{})
    requires o1 == o0 + (if b == InOngoing then multiset{x} else multiset{})
    requires e1 == e0 + (if b == InEnded then multiset{x} else multiset{})
    requires d1 == d0 + (if b == InDone then multiset{x} else multiset{})
    ensures u1 + o1 + e1 + d1 == u0 + o0 + e0 + d0 + multiset{x}
  {
  }

  /** The section of a non-empty list: that of all but the last row, then
      the last row when it belongs. */
  lemma SectionSnoc(rows: seq<Row>, completed: set<Id>, now: int, k: Bucket)
    requires rows != []
    ensures var last := rows[|rows| - 1];
            multiset(Section(rows, completed, now, k)) ==
            multiset(Section(rows[..|rows| - 1], completed, now, k)) +
            (if BucketOf(completed, now, last) == k then multiset{last} else multiset{})
  {
  }

  /** A completed row is in DONE and in no other section, whatever its
      schedule. */
  lemma CompletedIsDone(rows: seq<Row>, completed: set<Id>, now: int, r: Row)
    requires r in rows && r.id in completed
    ensures r in Section(rows, completed, now, InDone)
    ensures r !in Section(rows, completed, now, InUpcoming)
    ensures r !in Section(rows, completed, now, InOngoing)
    ensures r !in Section(rows, completed, now, InEnded)
  {
    FilterMember(rows, (x: Row) => BucketOf(completed, now, x) == InDone, r);
    FilterMember(rows, (x: Row) => BucketOf(completed, now, x) == InUpcoming, r);
    FilterMember(rows, (x: Row) => BucketOf(completed, now, x) == InOngoing, r);
    FilterMember(rows, (x: Row) => BucketOf(completed, now, x) == InEnded, r);
  }

  /** Sections keep list order: the section of a concatenation is the
      concatenation of the sections. */
  lemma SectionOrder(a: seq<Row>, b: seq<Row>, completed: set<Id>, now: int, k: Bucket)
    ensures Section(a + b, completed, now, k) == Section(a, completed, now, k) + Section(b, completed, now, k)
  {
    FilterAppend(a, b, (r: Row) => BucketOf(completed, now, r) == k);
  }

  // Latest completed attempt and its feedback

  /** An attempt row returned by the completed-attempts query. */
  datatype CompletedRow = CompletedRow(id: Id, assessment: Id, updatedAt: Option<int>)

  datatype Latest = Latest(attempt: Id, updatedAt: int)

  /** A missing `updated_at` counts as 0. */
  function Stamp(r: CompletedRow): int {
    if r.updatedAt.Some? then r.updatedAt.value else 0
  }

  /** One step of the reduction: replace only on a strictly later stamp. */
  function LatestStep(m: map<Id, Latest>, r: CompletedRow): map<Id, Latest> {
    if r.assessment !in m || Stamp(r) > m[r.assessment].updatedAt
    then m[r.assessment := Latest(r.id, Stamp(r))]
    else m
  }

  function LatestByAssessment(rows: seq<CompletedRow>): map<Id, Latest> {
    if rows == [] then map[] else LatestStep(LatestByAssessment(rows[..|rows| - 1]), rows[|rows| - 1])
  }

  /** `latestAttemptByAssessment`, filled by a `forEach` over the rows. */
  method LatestAttempts(rows: seq<CompletedRow>) returns (latest: map<Id, Latest>)
    ensures latest == LatestByAssessment(rows)
  {
    latest := map[];
    var i := 0;
    while i < |rows|
      invariant 0 <= i <= |rows|
      invariant latest == LatestByAssessment(rows[..i])
    {
      var row := rows[i];
      assert rows[..i + 1][..i] == rows[..i];
      var updatedAt := if row.updatedAt.Some? then row.updatedAt.value else 0;
      if row.assessment !in latest || updatedAt > latest[row.assessment].updatedAt {
        latest := latest[row.assessment := Latest(row.id, updatedAt)];
      }
      i := i + 1;
    }
    assert rows[..i] == rows;
  }

  /** Row `i` is the one to keep for assessment `a`: it has the greatest
      stamp of the rows for `a`, and every earlier row for `a` has a strictly
      smaller one (ties keep the first row seen). */
  predicate KeptRow(rows: seq<CompletedRow>, a: Id, i: int) {
    && 0 <= i < |rows| && rows[i].assessment == a
    && (forall j :: 0 <= j < |rows| && rows[j].assessment == a ==> Stamp(rows[j]) <= Stamp(rows[i]))
    && (forall j :: 0 <= j < i && rows[j].assessment == a ==> Stamp(rows[j]) < Stamp(rows[i]))
  }

  predicate HasRowFor(rows: seq<CompletedRow>, a: Id) {
    exists i :: 0 <= i < |rows| && rows[i].assessment == a
  }

  /** The reduction has an entry exactly for the assessments that have a
      row. */
  lemma {:induction false} LatestKeys(rows: seq<CompletedRow>, a: Id)
    ensures a in LatestByAssessment(rows) <==> HasRowFor(rows, a)
  {
    if rows != [] {
      var n := |rows| - 1;
      var init := rows[..n];
      LatestKeys(init, a);
      if HasRowFor(init, a) {
        var j :| 0 <= j < |init| && init[j].assessment == a;
        assert rows[j].assessment == a;
      }
      if HasRowFor(rows, a) && rows[n].assessment != a {
        var j :| 0 <= j < |rows| && rows[j].assessment == a;
        assert init[j].assessment == a;
      }
    }
  }

  /** The entry for an assessment is the kept row's id and stamp. */
  lemma {:induction false} LatestIsKeptRow(rows: seq<CompletedRow>, a: Id)
    requires a in LatestByAssessment(rows)
    ensures exists i :: KeptRow(rows, a, i) &&
              LatestByAssessment(rows)[a] == Latest(rows[i].id, Stamp(rows[i]))
  {
    var n := |rows| - 1;
    var init := rows[..n];
    var last := rows[n];
    var m := LatestByAssessment(init);
    assert LatestByAssessment(rows) == LatestStep(m, last);
    if a in m {
      LatestIsKeptRow(init, a);
      var i :| KeptRow(init, a, i) && m[a] == Latest(init[i].id, Stamp(init[i]));
      if last.assessment == a && Stamp(last) > m[a].updatedAt {
        KeptRowLast(rows, a, m[a].updatedAt);
      } else {
        KeptRowExtend(rows, a, i);
      }
    } else {
      LatestKeys(init, a);
      KeptRowLast(rows, a, Stamp(last) - 1);
    }
  }

  /** A kept row stays kept when a row that does not beat it is appended. */
  lemma KeptRowExtend(rows: seq<CompletedRow>, a: Id, i: int)
    requires rows != [] && KeptRow(rows[..|rows| - 1], a, i)
    requires rows[|rows| - 1].assessment == a ==> Stamp(rows[|rows| - 1]) <= Stamp(rows[i])
    ensures KeptRow(rows, a, i)
  {
    var init := rows[..|rows| - 1];
    assert forall j :: 0 <= j < |init| ==> rows[j] == init[j];
  }

  /** The appended row is kept when it beats every earlier row for `a`. */
  lemma KeptRowLast(rows: seq<CompletedRow>, a: Id, bound: int)
    requires rows != [] && rows[|rows| - 1].assessment == a
    requires bound < Stamp(rows[|rows| - 1])
    requires forall j :: 0 <= j < |rows| - 1 && rows[j].assessment == a ==> Stamp(rows[j]) <= bound
    ensures KeptRow(rows, a, |rows| - 1)
  {
  }

  /** A row of the teacher-feedback query. */
  datatype FeedbackRow = FeedbackRow(attempt: Id, message: Option<string>)

  function FeedbackByAttemptOf(rows: seq<FeedbackRow>): map<Id, Option<string>> {
    if rows == [] then map[]
    else FeedbackByAttemptOf(rows[..|rows| - 1])[rows[|rows| - 1].attempt := rows[|rows| - 1].message]
  }

  /** `feedbackByAttempt`, filled by a `forEach`; later rows overwrite. */
  method FeedbackByAttempt(rows: seq<FeedbackRow>) returns (m: map<Id, Option<string>>)
    ensures m == FeedbackByAttemptOf(rows)
  {
    m := map[];
    var i := 0;
    while i < |rows|
      invariant 0 <= i <= |rows|
      invariant m == FeedbackByAttemptOf(rows[..i])
    {
      assert rows[..i + 1][..i] == rows[..i];
      m := m[rows[i].attempt := rows[i].message];
      i := i + 1;
    }
    assert rows[..i] == rows;
  }

  /** Each attempt with a feedback row maps to the message of its last row. */
  lemma {:induction false} FeedbackIsLastRow(rows: seq<FeedbackRow>, k: Id)
    ensures k in FeedbackByAttemptOf(rows) <==> exists i :: 0 <= i < |rows| && rows[i].attempt == k
    ensures k in FeedbackByAttemptOf(rows) ==> exists i :: LastFor(rows, k, i, FeedbackByAttemptOf(rows)[k])
  {
    if rows != [] {
      var n := |rows| - 1;
      var init := rows[..n];
      FeedbackIsLastRow(init, k);
      var m, m0 := FeedbackByAttemptOf(rows), FeedbackByAttemptOf(init);
      assert m == m0[rows[n].attempt := rows[n].message];
      if rows[n].attempt == k {
        assert LastFor(rows, k, n, m[k]);
      } else {
        assert k in m <==> k in m0;
        if exists i :: 0 <= i < |rows| && rows[i].attempt == k {
          var i :| 0 <= i < |rows| && rows[i].attempt == k;
          assert init[i] == rows[i];
        }
        if k in m0 {
          var i :| LastFor(init, k, i, m0[k]);
          forall j | i < j < |rows|
            ensures rows[j].attempt != k
          {
            if j < n {
              assert rows[j] == init[j];
            }
          }
          assert rows[i] == init[i];
          assert LastFor(rows, k, i, m[k]);
        }
      }
    }
  }

  /** Row `i` is the last row of attempt `k`, and holds `message`. */
  predicate LastFor(rows: seq<FeedbackRow>, k: Id, i: int, message: Option<string>) {
    && 0 <= i < |rows| && rows[i].attempt == k && rows[i].message == message
    && forall j :: i < j < |rows| ==> rows[j].attempt != k
  }

  /** The feedback shown per assessment: the message for the latest
      completed attempt, or null. Built by a loop over the entries. */
  method FeedbackByAssessment(latest: map<Id, Latest>, byAttempt: map<Id, Option<string>>)
    returns (m: map<Id, Option<string>>)
    ensures m.Keys == latest.Keys
    ensures forall a :: a in m ==>
              m[a] == if latest[a].attempt in byAttempt then byAttempt[latest[a].attempt] else None
  {
    m := map[];
    var todo := latest.Keys;
    while todo != {}
      invariant todo <= latest.Keys
      invariant m.Keys == latest.Keys - todo
      invariant forall a :: a in m ==>
                  m[a] == if latest[a].attempt in byAttempt then byAttempt[latest[a].attempt] else None
      decreases todo
    {
      var a :| a in todo;
      var attempt := latest[a].attempt;
      m := m[a := if attempt in byAttempt then byAttempt[attempt] else None];
      todo := todo - {a};
    }
  }

  /** `doneIds.filter(Boolean)` as a set. */
  function CompletedIds(rows: seq<CompletedRow>): (done: set<Id>)
    ensures forall a :: a in done <==> a != "" && HasRowFor(rows, a)
  {
    set i | 0 <= i < |rows| && rows[i].assessment != "" :: rows[i].assessment
  }

  /** The state `fetchList` leaves: the completed set and the feedback per
      assessment. With no user or no rows both are empty. */
  method DeriveCompletion(signedIn: bool, list: seq<Row>, completed: seq<CompletedRow>, feedback: seq<FeedbackRow>)
    returns (done: set<Id>, feedbackByAssessment: map<Id, Option<string>>)
    ensures !signedIn || list == [] ==> done == {} && feedbackByAssessment == map[]
    ensures signedIn && list != [] ==> done == CompletedIds(completed)
    ensures signedIn && list != [] ==> feedbackByAssessment.Keys == set a | a in LatestByAssessment(completed)
    ensures forall a :: a in feedbackByAssessment ==>
              var id := LatestByAssessment(completed)[a].attempt;
              feedbackByAssessment[a] == if id in FeedbackByAttemptOf(feedback) then FeedbackByAttemptOf(feedback)[id] else None
  {
    if !signedIn || |list| == 0 {
      return {}, map[];
    }
    done := CompletedIds(completed);
    var latest := LatestAttempts(completed);
    if |latest| == 0 {
      feedbackByAssessment := map[];
    } else {
      var byAttempt := FeedbackByAttempt(feedback);
      feedbackByAssessment := FeedbackByAssessment(latest, byAttempt);
    }
  }

  // Cards

  datatype Label = Selesai | BelumDibuka | Tutup | Dibuka

  function LabelText(l: Label): string {
    match l
    case Selesai => "SELESAI"
    case BelumDibuka => "BELUM DIBUKA"
    case Tutup => "TUTUP"
    case Dibuka => "DIBUKA"
  }

  /** The card's status label. */
  function CardLabel(isCompleted: bool, base: Phase): (l: Label)
    ensures isCompleted <==> l == Selesai
    ensures !isCompleted ==> (l == BelumDibuka <==> base == Upcoming) && (l == Tutup <==> base == Ended)
  {
    if isCompleted then Selesai
    else if base == Upcoming then BelumDibuka
    else if base == Ended then Tutup
    else Dibuka
  }

  /** The "Mulai" link appears only on an open, not completed card. */
  function ShowsStart(completed: set<Id>, now: int, r: Row): (b: bool)
    ensures b <==> r.id !in completed && Status(now, r) == Ongoing
  {
    CardLabel(r.id in completed, Status(now, r)) == Dibuka
  }

  /** A card's label names the section it is listed in. */
  lemma LabelMatchesSection(completed: set<Id>, now: int, r: Row)
    ensures var l := CardLabel(r.id in completed, Status(now, r));
            match BucketOf(completed, now, r)
            case InDone => l == Selesai
            case InUpcoming => l == BelumDibuka
            case InEnded => l == Tutup
            case InOngoing => l == Dibuka
  {
  }

  /** `formatSchedule` with `formatTimeHM` given as `clock` (the locale time
      of a timestamp). */
  function FormatSchedule(start: Option<int>, end: Option<int>, clock: int -> string): (r: string)
    ensures start.None? && end.None? ==> r == "Tidak dijadwalkan"
  {
    var s := if start.Some? then clock(start.value) else "-";
    var e := if end.Some? then clock(end.value) else "-";
    if s == "-" && e == "-" then "Tidak dijadwalkan" else s + " - " + e
  }

  /** With a clock that never prints a bare "-", the "not scheduled" text
      appears exactly when both bounds are absent. */
  lemma UnscheduledExactly(start: Option<int>, end: Option<int>, clock: int -> string)
    requires forall t :: clock(t) != "-"
    ensures FormatSchedule(start, end, clock) == "Tidak dijadwalkan" <==> start.None? && end.None?
  {
    var s := if start.Some? then clock(start.value) else "-";
    var e := if end.Some? then clock(end.value) else "-";
    if !(start.None? && end.None?) {
      if start.Some? {
        var t := start.value;
        assert s == clock(t) && clock(t) != "-";
      } else {
        var t := end.value;
        assert e == clock(t) && clock(t) != "-";
      }
      var r := s + " - " + e;
      assert FormatSchedule(start, end, clock) == r;
      assert r[|s| + 1] == '-';
      assert '-' !in "Tidak dijadwalkan";
    }
  }
}
