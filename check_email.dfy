/** `POST /auth/api/check-email`: whether an account with the given email
    exists, by paging through the admin user listing. */
module CheckEmail {
  import opened Common
  import opened Text

  /** The JSON body of a listing page: `{ users: [...] }`, a bare array, or
      anything else. Each user is its `email` field. */
  datatype Listing = UsersField(users: seq<Option<string>>) | Bare(users: seq<Option<string>>) | Other

  /** The answer of the listing endpoint for one page. */
  datatype PageReply = NotOk(text: string) | Listed(body: Listing)

  /** The last page requested. */
  const MaxPage := 50

  /** `body.email?.trim().toLowerCase()`; a body that is not JSON reads as
      `{}`, so as no email. */
  function Query(email: Option<string>): (r: Option<string>)
    ensures r.Some? <==> email.Some?
    ensures r.Some? ==> r.value == ToLower(Trim(email.value))
  {
    if email.Some? then Some(ToLower(Trim(email.value))) else None
  }

  /** The users a page lists; a body of another shape lists none. */
  function UsersOf(b: Listing): (r: seq<Option<string>>)
    ensures b.Other? ==> r == []
    ensures !b.Other? ==> r == b.users
  {
    if b.Other? then [] else b.users
  }

  /** `(u.email ?? "").toLowerCase() === email`: the stored email is
      lowercased but not trimmed. */
  predicate Matches(users: seq<Option<string>>, email: string) {
    exists i :: 0 <= i < |users| && ToLower(users[i].OrElse("")) == email
  }

  /** The scan reaches past page `p`: it was listed, non-empty and without a
      match. */
  predicate Continues(r: PageReply, email: string) {
    r.Listed? && UsersOf(r.body) != [] && !Matches(UsersOf(r.body), email)
  }

  /** The reply of the scan from page `page` on. */
  function Scan(fetch: int -> PageReply, email: string, page: int): (r: Reply)
    requires 1 <= page <= MaxPage + 1
    decreases MaxPage + 1 - page
  {
    if page > MaxPage then Reply(200, JsonExists(false))
    else match fetch(page)
      case NotOk(text) => TextReply(400, text)
      case Listed(body) =>
        if Matches(UsersOf(body), email) then Reply(200, JsonExists(true))
        else if UsersOf(body) == [] then Reply(200, JsonExists(false))
        else Scan(fetch, email, page + 1)
  }

  /** Every page from `from` up to, not including, `p` lets the scan go on. */
  predicate Reaches(fetch: int -> PageReply, email: string, from: int, p: int) {
    forall q :: from <= q < p ==> Continues(fetch(q), email)
  }

  /** The scan finds the email exactly when some page up to the 50th lists
      it and every page before it lets the scan go on. */
  lemma {:induction false} ScanFinds(fetch: int -> PageReply, email: string, from: int)
    requires 1 <= from <= MaxPage + 1
    ensures Scan(fetch, email, from) == Reply(200, JsonExists(true)) <==>
              exists p :: from <= p <= MaxPage && Reaches(fetch, email, from, p) &&
                          fetch(p).Listed? && Matches(UsersOf(fetch(p).body), email)
    decreases MaxPage + 1 - from
  {
    if from <= MaxPage {
      ScanFinds(fetch, email, from + 1);
      if Continues(fetch(from), email) {
        if exists p :: from + 1 <= p <= MaxPage && Reaches(fetch, email, from + 1, p) &&
                       fetch(p).Listed? && Matches(UsersOf(fetch(p).body), email) {
          var p :| from + 1 <= p <= MaxPage && Reaches(fetch, email, from + 1, p) &&
                   fetch(p).Listed? && Matches(UsersOf(fetch(p).body), email);
          assert Reaches(fetch, email, from, p);
        }
        if exists p :: from <= p <= MaxPage && Reaches(fetch, email, from, p) &&
                       fetch(p).Listed? && Matches(UsersOf(fetch(p).body), email) {
          var p :| from <= p <= MaxPage && Reaches(fetch, email, from, p) &&
                   fetch(p).Listed? && Matches(UsersOf(fetch(p).body), email);
          assert p != from;
          assert Reaches(fetch, email, from + 1, p);
        }
      }
    }
  }

  /** The scan fails with a page's text exactly when it reaches a page the
      endpoint refuses, however many pages succeeded before it. */
  lemma {:induction false} ScanRefused(fetch: int -> PageReply, email: string, from: int)
    requires 1 <= from <= MaxPage + 1
    ensures Scan(fetch, email, from).status == 400 <==>
              exists p :: from <= p <= MaxPage && Reaches(fetch, email, from, p) && fetch(p).NotOk?
    ensures Scan(fetch, email, from).status in {200, 400}
    decreases MaxPage + 1 - from
  {
    if from <= MaxPage {
      ScanRefused(fetch, email, from + 1);
      if Continues(fetch(from), email) {
        if exists p :: from + 1 <= p <= MaxPage && Reaches(fetch, email, from + 1, p) && fetch(p).NotOk? {
          var p :| from + 1 <= p <= MaxPage && Reaches(fetch, email, from + 1, p) && fetch(p).NotOk?;
          assert Reaches(fetch, email, from, p);
        }
        if exists p :: from <= p <= MaxPage && Reaches(fetch, email, from, p) && fetch(p).NotOk? {
          var p :| from <= p <= MaxPage && Reaches(fetch, email, from, p) && fetch(p).NotOk?;
          assert p != from;
          assert Reaches(fetch, email, from + 1, p);
        }
      }
    }
  }

  /** Users past page 50 are never examined: two listings that agree on the
      first 50 pages give the same reply. */
  lemma {:induction false} OnlyFirstPages(f: int -> PageReply, g: int -> PageReply, email: string, from: int)
    requires 1 <= from <= MaxPage + 1
    requires forall p :: from <= p <= MaxPage ==> f(p) == g(p)
    ensures Scan(f, email, from) == Scan(g, email, from)
    decreases MaxPage + 1 - from
  {
    if from <= MaxPage {
      OnlyFirstPages(f, g, email, from + 1);
    }
  }

  /** A stored email with a leading or a trailing blank never matches,
      whatever else it holds, and neither does a missing one. */
  lemma PaddedNeverMatches(query: string, stored: string)
    requires Query(Some(query)).Some? && Truthy(Query(Some(query)))
    ensures ToLower(" " + stored) != Query(Some(query)).value
    ensures ToLower(stored + " ") != Query(Some(query)).value
    ensures ToLower(None.OrElse("")) != Query(Some(query)).value
  {
    var q := Query(Some(query)).value;
    var t := Trim(query);
    assert q[0] == LowerChar(t[0]);
    assert ToLower(" " + stored)[0] == ' ';
    assert q[|q| - 1] == LowerChar(t[|t| - 1]);
    var padded := ToLower(stored + " ");
    assert padded[|padded| - 1] == ' ';
  }

  /** The pages `1, 2, …, n`. */
  function Upto(n: nat): (r: seq<int>)
    ensures |r| == n && forall i :: 0 <= i < n ==> r[i] == i + 1
  {
    seq(n, i => i + 1)
  }

  /** One page of the scan. */
  lemma ScanAt(fetch: int -> PageReply, email: string, page: int)
    requires 1 <= page <= MaxPage
    ensures fetch(page).NotOk? ==> Scan(fetch, email, page) == TextReply(400, fetch(page).text)
    ensures fetch(page).Listed? && Matches(UsersOf(fetch(page).body), email) ==>
              Scan(fetch, email, page) == Reply(200, JsonExists(true))
    ensures fetch(page).Listed? && !Matches(UsersOf(fetch(page).body), email) && UsersOf(fetch(page).body) == [] ==>
              Scan(fetch, email, page) == Reply(200, JsonExists(false))
    ensures Continues(fetch(page), email) ==> Scan(fetch, email, page) == Scan(fetch, email, page + 1)
  {
  }

  lemma UptoSnoc(n: nat)
    ensures Upto(n) + [n + 1] == Upto(n + 1)
  {
    var s := Upto(n) + [n + 1];
    assert |s| == n + 1;
    assert forall i :: 0 <= i < n + 1 ==> s[i] == i + 1;
  }

  /** The route. `fetch` is the listing endpoint's answer per page; the
      pages requested are returned in the order they were requested. */
  method Post(email: Option<string>, fetch: int -> PageReply) returns (reply: Reply, requested: seq<int>)
    ensures !Truthy(Query(email)) ==> reply == TextReply(400, "Email wajib diisi") && requested == []
    ensures Truthy(Query(email)) ==> reply == Scan(fetch, Query(email).value, 1)
    ensures requested == Upto(|requested|) && |requested| <= MaxPage
  {
    requested := [];
    var q := Query(email);
    if !Truthy(q) {
      return TextReply(400, "Email wajib diisi"), requested;
    }
    var target := q.value;
    var page := 1;
    while page <= MaxPage
      invariant 1 <= page <= MaxPage + 1
      invariant requested == Upto(page - 1)
      invariant Scan(fetch, target, page) == Scan(fetch, target, 1)
    {
      UptoSnoc(page - 1);
      requested := requested + [page];
      assert requested == Upto(page);
      var resp := fetch(page);
      ScanAt(fetch, target, page);
      if resp.NotOk? {
        return TextReply(400, resp.text), requested;
      }
      var users := UsersOf(resp.body);
      if Matches(users, target) {
        return Reply(200, JsonExists(true)), requested;
      }
      if |users| == 0 {
        return Reply(200, JsonExists(false)), requested;
      }
      page := page + 1;
    }
    reply := Reply(200, JsonExists(false));
  }
}
