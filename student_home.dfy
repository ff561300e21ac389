/** The student home page (`src/app/student/page.tsx`): the countdown of the
    active attempt, the schedule text, the "available now" list, the greeting
    name and the completed badge. */
module StudentHome {
  import opened Common
  import opened Text
  import opened Seqs

  // Countdown

  datatype Hms = Hms(h: nat, m: nat, s: nat)

  /** Hours, minutes and seconds of a positive number of milliseconds. */
  function Countdown(ms: int): (c: Hms)
    requires ms > 0
    ensures c.h * 3600 + c.m * 60 + c.s == ms / 1000
    ensures c.m < 60 && c.s < 60
  {
    var total := ms / 1000;
    Hms(total / 3600, (total % 3600) / 60, total % 60)
  }

  /** One field: the decimal digits, padded to two. */
  function Field(n: nat): string {
    Pad2(NatToString(n))
  }

  function Render(c: Hms): string {
    Field(c.h) + ":" + Field(c.m) + ":" + Field(c.s)
  }

  /** `formatRemaining(expiresAt)` at time `now`. */
  function FormatRemaining(expiresAt: Option<int>, now: int): (r: Option<string>)
    ensures r.None? <==> expiresAt.None?
    ensures expiresAt.Some? && expiresAt.value <= now ==> r == Some("00:00:00")
  {
    if expiresAt.None? then None
    else
      var ms := expiresAt.value - now;
      if ms <= 0 then Some("00:00:00") else Some(Render(Countdown(ms)))
  }

  /** Seconds left, never negative. */
  function SecondsLeft(expiresAt: int, now: int): nat {
    if expiresAt - now <= 0 then 0 else (expiresAt - now) / 1000
  }

  /** Reading the countdown text back: three `:`-separated fields of at
      least two digits, minutes and seconds below 60, whose value in seconds
      is the whole seconds left (0 once expired). Hours are not capped. */
  lemma CountdownText(expiresAt: int, now: int)
    ensures var parts := Split(FormatRemaining(Some(expiresAt), now).value, ':');
            && |parts| == 3
            && (forall i :: 0 <= i < 3 ==> AllDigits(parts[i]) && |parts[i]| >= 2)
            && DecValue(parts[0]) * 3600 + DecValue(parts[1]) * 60 + DecValue(parts[2])
               == SecondsLeft(expiresAt, now)
            && DecValue(parts[1]) < 60 && DecValue(parts[2]) < 60
  {
    var c := Remaining(expiresAt, now);
    RenderSplit(c);
    ThreeFields(Split(Render(c), ':'), c);
  }

  /** What the three fields of `c` read back as. */
  lemma ThreeFields(parts: seq<string>, c: Hms)
    requires parts == [Field(c.h), Field(c.m), Field(c.s)]
    ensures forall i :: 0 <= i < 3 ==> AllDigits(parts[i]) && |parts[i]| >= 2
    ensures DecValue(parts[0]) == c.h && DecValue(parts[1]) == c.m && DecValue(parts[2]) == c.s
  {
    FieldText(c.h);
    FieldText(c.m);
    FieldText(c.s);
    var a, b, d := Field(c.h), Field(c.m), Field(c.s);
    assert parts[0] == a && parts[1] == b && parts[2] == d;
    forall i | 0 <= i < 3
      ensures AllDigits(parts[i]) && |parts[i]| >= 2
    {
      if i == 0 {
        assert parts[i] == a;
      } else if i == 1 {
        assert parts[i] == b;
      } else {
        assert parts[i] == d;
      }
    }
  }

  /** The fields the countdown text shows at `now`. */
  lemma Remaining(expiresAt: int, now: int) returns (c: Hms)
    ensures FormatRemaining(Some(expiresAt), now) == Some(Render(c))
    ensures c.h * 3600 + c.m * 60 + c.s == SecondsLeft(expiresAt, now)
    ensures c.m < 60 && c.s < 60
  {
    if expiresAt - now <= 0 {
      c := Hms(0, 0, 0);
      ZeroRender();
    } else {
      var ms := expiresAt - now;
      c := Countdown(ms);
      assert SecondsLeft(expiresAt, now) == ms / 1000;
    }
  }

  /** An expired countdown shows all zeros. */
  lemma ZeroRender()
    ensures Render(Hms(0, 0, 0)) == "00:00:00"
  {
    assert NatToString(0) == "0";
    assert Field(0) == "00";
    assert Render(Hms(0, 0, 0)) == "00" + ":" + "00" + ":" + "00";
  }

  /** The countdown text splits at its colons into its three fields. */
  lemma RenderSplit(c: Hms)
    ensures Split(Render(c), ':') == [Field(c.h), Field(c.m), Field(c.s)]
  {
    FieldText(c.h);
    FieldText(c.m);
    FieldText(c.s);
    SplitThree(Field(c.h), Field(c.m), Field(c.s));
  }

  /** One field of the countdown text. */
  lemma FieldText(n: nat)
    ensures AllDigits(Field(n)) && |Field(n)| >= 2 && DecValue(Field(n)) == n && ':' !in Field(n)
  {
    Pad2Value(n);
    DigitsHaveNoColon(Field(n));
  }

  lemma SplitThree(a: string, b: string, c: string)
    requires ':' !in a && ':' !in b && ':' !in c
    ensures Split(a + ":" + b + ":" + c, ':') == [a, b, c]
  {
    assert a + ":" + b + ":" + c == a + [':'] + (b + [':'] + c);
    SplitCons(a, ':', b + [':'] + c);
    SplitCons(b, ':', c);
    SplitNone(c, ':');
  }

  lemma DigitsHaveNoColon(s: string)
    requires AllDigits(s)
    ensures ':' !in s
  {
  }

  // Schedule text

  /** `formatSchedule(startAt, endAt)` with `formatDateTime` given as
      `dateTime`; a missing side prints as "-". */
  function FormatSchedule(start: Option<int>, end: Option<int>, dateTime: int -> string): (r: string)
    ensures r == "Fleksibel" <==> start.None? && end.None?
    ensures start.None? && end.Some? ==> r == "- - " + dateTime(end.value)
    ensures start.Some? && end.None? ==> r == dateTime(start.value) + " - -"
  {
    if start.None? && end.None? then "Fleksibel"
    else
      var s := if start.Some? then dateTime(start.value) else "-";
      var e := if end.Some? then dateTime(end.value) else "-";
      var r := s + " - " + e;
      assert r[|s| + 1] == '-' && '-' !in "Fleksibel";
      r
  }

  // Available assessments

  /** A published assessment row of the "available" query. */
  datatype Listed = Listed(id: Id, title: string, duration: Option<int>, startAt: Option<int>, endAt: Option<int>)

  /** Open at `now`: the bounds are ISO strings when tested, so any present
      bound counts, and both ends are inclusive. */
  predicate OpenNow(now: int, a: Listed) {
    (a.startAt.None? || a.startAt.value <= now) && (a.endAt.None? || a.endAt.value >= now)
  }

  /** `availableList`: of the (at most 10) fetched rows, the first five that
      are open now, in fetched order. */
  function AvailableList(fetched: seq<Listed>, now: int): (r: seq<Listed>)
    ensures |r| <= 5
    ensures forall i :: 0 <= i < |r| ==> OpenNow(now, r[i]) && r[i] in Take(fetched, 10)
    ensures |r| < 5 ==> forall a :: a in Take(fetched, 10) && OpenNow(now, a) ==> a in r
    ensures r == FirstMatching(Take(fetched, 10), (a: Listed) => OpenNow(now, a), 5)
  {
    var open := Filter(Take(fetched, 10), (a: Listed) => OpenNow(now, a));
    var r := Take(open, 5);
    forall a | a in Take(fetched, 10) && OpenNow(now, a) && |r| < 5
      ensures a in r
    {
      FilterMember(Take(fetched, 10), (x: Listed) => OpenNow(now, x), a);
    }
    FirstMatchingIsFilterSlice(Take(fetched, 10), (x: Listed) => OpenNow(now, x), 5);
    r
  }

  // Greeting

  /** The greeting name: `display_name ?? name ?? emailLocalPart ?? "Student"`.
      `??` keeps empty strings; the email part is used only for a non-empty
      email. */
  function DisplayName(user: Option<AuthUser>): (r: string)
    ensures user.None? ==> r == "Student"
    ensures user.Some? && user.value.displayName.Some? ==> r == user.value.displayName.value
    ensures user.Some? && user.value.displayName.None? && user.value.name.Some? ==> r == user.value.name.value
    ensures user.Some? && user.value.displayName.None? && user.value.name.None? ==>
              r == if Truthy(user.value.email) then Before(user.value.email.value, '@') else "Student"
  {
    if user.None? then "Student"
    else
      var u := user.value;
      var fromEmail := if Truthy(u.email) then Some(Before(u.email.value, '@')) else None;
      u.displayName.OrElse(u.name.OrElse(fromEmail.OrElse("Student")))
  }

  // Completed badge

  /** An attempt row as the home page queries it. */
  datatype AttemptRow = AttemptRow(id: Id, assessment: Option<Id>, student: Id, status: string)

  predicate Finished(status: string) {
    status == "SUBMITTED" || status == "TIMED_OUT"
  }

  /** The student id the queries filter on: `user?.id ?? ""`. */
  function StudentKey(user: Option<AuthUser>): Id {
    if user.Some? then user.value.id else ""
  }

  /** The completed-attempts query: this student's SUBMITTED or TIMED_OUT
      attempts at the listed assessments. */
  function CompletedQuery(attempts: seq<AttemptRow>, student: Id, ids: seq<Id>): seq<AttemptRow> {
    Filter(attempts, (t: AttemptRow) => t.student == student && t.assessment.Some? && t.assessment.value in ids && Finished(t.status))
  }

  /** `completedSet`: the assessment ids of the rows, dropping falsy ids. */
  function CompletedSet(rows: seq<AttemptRow>): set<Id> {
    set i | 0 <= i < |rows| && Truthy(rows[i].assessment) :: rows[i].assessment.value
  }

  function Ids(list: seq<Listed>): (r: seq<Id>)
    ensures |r| == |list| && forall i :: 0 <= i < |list| ==> r[i] == list[i].id
  {
    seq(|list|, i requires 0 <= i < |list| => list[i].id)
  }

  datatype Badge = Selesai | Aktif

  /** The badge on an available card and whether it links to the join page. */
  function CardBadge(completed: set<Id>, id: Id): (r: (Badge, bool))
    ensures r.0 == Selesai <==> id in completed
    ensures r.1 <==> r.0 == Aktif
  {
    if id in completed then (Selesai, false) else (Aktif, true)
  }

  /** A listed card shows SELESAI, without join link, exactly when this
      student has a SUBMITTED or TIMED_OUT attempt at it. */
  lemma BadgeMeansFinished(attempts: seq<AttemptRow>, user: Option<AuthUser>, list: seq<Listed>, a: Listed)
    requires a in list && a.id != ""
    ensures CardBadge(CompletedSet(CompletedQuery(attempts, StudentKey(user), Ids(list))), a.id).0 == Selesai
        <==> exists t :: t in attempts && t.student == StudentKey(user) && t.assessment == Some(a.id) && Finished(t.status)
  {
    var f := (t: AttemptRow) => t.student == StudentKey(user) && t.assessment.Some? && t.assessment.value in Ids(list) && Finished(t.status);
    var rows := CompletedQuery(attempts, StudentKey(user), Ids(list));
    var k :| 0 <= k < |list| && list[k] == a;
    assert a.id in Ids(list) by { assert Ids(list)[k] == a.id; }
    if a.id in CompletedSet(rows) {
      var i :| 0 <= i < |rows| && Truthy(rows[i].assessment) && rows[i].assessment.value == a.id;
      FilterMember(attempts, f, rows[i]);
    }
    if exists t :: t in attempts && t.student == StudentKey(user) && t.assessment == Some(a.id) && Finished(t.status) {
      var t :| t in attempts && t.student == StudentKey(user) && t.assessment == Some(a.id) && Finished(t.status);
      FilterMember(attempts, f, t);
      var i :| 0 <= i < |rows| && rows[i] == t;
    }
  }
}
