/** The read-only half of the data layer: `login_user` and the four `get_*` SELECTs, each a
    function of the table contents it reads. `ORDER BY date` is specified by `DateSorted` and
    multiset equality, which leaves the order among equal dates open, as SQL does. */
module Queries {
  import opened Dates
  import opened Schema

  // ---------------------------------------------------------------------------------------
  // ORDER BY date ASC

  predicate DateSorted(s: seq<Event>) {
    forall i, j :: 0 <= i < j < |s| ==> TextLe(s[i].date, s[j].date)
  }

  /** Every date in `s` is at or after `d`. */
  predicate DatesFrom(d: string, s: seq<Event>) {
    forall k :: 0 <= k < |s| ==> TextLe(d, s[k].date)
  }

  lemma PrependSorted(e: Event, s: seq<Event>)
    requires DateSorted(s) && DatesFrom(e.date, s)
    ensures DateSorted([e] + s)
  {
    var r := [e] + s;
    forall i, j | 0 <= i < j < |r| ensures TextLe(r[i].date, r[j].date) {
      assert r[j] == s[j - 1];
      if 0 < i {
        assert r[i] == s[i - 1];
      }
    }
  }

  lemma SortedHeadFirst(e: Event, s: seq<Event>)
    requires DateSorted(s) && s != [] && TextLe(e.date, s[0].date)
    ensures DatesFrom(e.date, s)
  {
    forall k | 0 <= k < |s| ensures TextLe(e.date, s[k].date) {
      if 0 < k {
        TextLeTransitive(e.date, s[0].date, s[k].date);
      }
    }
  }

  lemma DatesFromPermutation(d: string, s: seq<Event>, e: Event, t: seq<Event>)
    requires DatesFrom(d, s) && TextLe(d, e.date) && multiset(t) == multiset(s) + multiset{e}
    ensures DatesFrom(d, t)
  {
    forall k | 0 <= k < |t| ensures TextLe(d, t[k].date) {
      assert t[k] in multiset(t);
      if t[k] != e {
        assert t[k] in multiset(s);
        var n :| 0 <= n < |s| && s[n] == t[k];
      }
    }
  }

  lemma SortedTail(s: seq<Event>)
    requires DateSorted(s) && s != []
    ensures DateSorted(s[1..]) && DatesFrom(s[0].date, s[1..])
  {
    forall k | 0 <= k < |s| - 1 ensures TextLe(s[0].date, s[1..][k].date) {
      assert s[1..][k] == s[k + 1];
    }
  }

  /** Inserts `e` in front of the first row dated at or after it. */
  function InsertByDate(e: Event, s: seq<Event>): (r: seq<Event>)
    requires DateSorted(s)
    ensures DateSorted(r) && multiset(r) == multiset(s) + multiset{e}
    decreases |s|
  {
    if s == [] then [e]
    else if TextLe(e.date, s[0].date) then
      SortedHeadFirst(e, s);
      PrependSorted(e, s);
      [e] + s
    else
      SortedTail(s);
      var t := InsertByDate(e, s[1..]);
      TextLeTotal(e.date, s[0].date);
      DatesFromPermutation(s[0].date, s[1..], e, t);
      PrependSorted(s[0], t);
      assert s == [s[0]] + s[1..];
      [s[0]] + t
  }

  function SortByDate(s: seq<Event>): (r: seq<Event>)
    ensures DateSorted(r) && multiset(r) == multiset(s)
  {
    if s == [] then []
    else
      assert s == [s[0]] + s[1..];
      InsertByDate(s[0], SortByDate(s[1..]))
  }

  // ---------------------------------------------------------------------------------------
  // get_all_events: SELECT * FROM events ORDER BY date ASC

  function AllEvents(events: seq<Event>): (r: seq<Event>)
    ensures DateSorted(r)
    ensures multiset(r) == multiset(events)
  {
    SortByDate(events)
  }

  // ---------------------------------------------------------------------------------------
  // get_events_by_creator: SELECT * FROM events WHERE created_by=? ORDER BY date ASC

  function CreatedBy(events: seq<Event>, email: string): (r: seq<Event>)
    ensures forall e :: multiset(r)[e] == if e.createdBy == email then multiset(events)[e] else 0
  {
    if events == [] then []
    else
      assert events == [events[0]] + events[1..];
      (if events[0].createdBy == email then [events[0]] else []) + CreatedBy(events[1..], email)
  }

  function EventsByCreator(events: seq<Event>, email: string): (r: seq<Event>)
    ensures DateSorted(r)
    ensures forall e :: multiset(r)[e] == if e.createdBy == email then multiset(events)[e] else 0
  {
    SortByDate(CreatedBy(events, email))
  }

  // ---------------------------------------------------------------------------------------
  // get_registrations_for_event: SELECT volunteer_email FROM registrations WHERE event_id=?

  function RegistrationsForEvent(regs: seq<Registration>, eventId: nat): (r: seq<string>)
    ensures forall v :: v in r <==> Registered(regs, eventId, v)
  {
    if regs == [] then []
    else
      var rest := RegistrationsForEvent(regs[1..], eventId);
      assert forall v :: Registered(regs, eventId, v) <==>
        (regs[0].eventId == eventId && regs[0].volunteerEmail == v) || Registered(regs[1..], eventId, v) by {
        forall v ensures Registered(regs, eventId, v) ==>
          (regs[0].eventId == eventId && regs[0].volunteerEmail == v) || Registered(regs[1..], eventId, v) {
          if Registered(regs, eventId, v) {
            var i :| 0 <= i < |regs| && regs[i].eventId == eventId && regs[i].volunteerEmail == v;
            if 0 < i {
              assert regs[1..][i - 1] == regs[i];
            }
          }
        }
        forall v | Registered(regs[1..], eventId, v) ensures Registered(regs, eventId, v) {
          var i :| 0 <= i < |regs[1..]| && regs[1..][i].eventId == eventId && regs[1..][i].volunteerEmail == v;
          assert regs[i + 1] == regs[1..][i];
        }
      }
      (if regs[0].eventId == eventId then [regs[0].volunteerEmail] else []) + rest
  }

  predicate Distinct(s: seq<string>) {
    forall i, j :: 0 <= i < j < |s| ==> s[i] != s[j]
  }

  /** Under UNIQUE(event_id, volunteer_email) every volunteer is listed once. */
  lemma {:induction false} RegistrationsForEventDistinct(regs: seq<Registration>, last: nat, eventId: nat)
    requires RegistrationsTable(regs, last)
    ensures Distinct(RegistrationsForEvent(regs, eventId))
  {
    if regs != [] {
      RegistrationsTableTail(regs, last);
      RegistrationsForEventDistinct(regs[1..], last, eventId);
      var rest := RegistrationsForEvent(regs[1..], eventId);
      if regs[0].eventId == eventId {
        var v := regs[0].volunteerEmail;
        forall k | 0 <= k < |regs| - 1 ensures !SamePair(regs[0], regs[1..][k]) {
          assert regs[1..][k] == regs[k + 1];
        }
        assert v !in rest;
        var r := [v] + rest;
        assert RegistrationsForEvent(regs, eventId) == r;
        forall i, j | 0 <= i < j < |r| ensures r[i] != r[j] {
          assert r[j] == rest[j - 1];
          if 0 < i {
            assert r[i] == rest[i - 1];
          } else {
            assert rest[j - 1] in rest;
          }
        }
      } else {
        assert RegistrationsForEvent(regs, eventId) == rest;
      }
    }
  }

  // ---------------------------------------------------------------------------------------
  // get_joined_events:
  //   SELECT e.* FROM events e JOIN registrations r ON e.id = r.event_id
  //   WHERE r.volunteer_email = ? ORDER BY e.date

  /** How many registrations hold the pair (eventId, email). */
  function PairCount(regs: seq<Registration>, eventId: nat, email: string): (n: nat)
    ensures n == 0 <==> !Registered(regs, eventId, email)
  {
    if regs == [] then 0
    else
      var here := if regs[0].eventId == eventId && regs[0].volunteerEmail == email then 1 else 0;
      assert Registered(regs, eventId, email) <==> here == 1 || Registered(regs[1..], eventId, email) by {
        if Registered(regs, eventId, email) {
          var i :| 0 <= i < |regs| && regs[i].eventId == eventId && regs[i].volunteerEmail == email;
          if 0 < i {
            assert regs[1..][i - 1] == regs[i];
          }
        }
        if Registered(regs[1..], eventId, email) {
          var i :| 0 <= i < |regs[1..]| && regs[1..][i].eventId == eventId && regs[1..][i].volunteerEmail == email;
          assert regs[i + 1] == regs[1..][i];
        }
      }
      here + PairCount(regs[1..], eventId, email)
  }

  function Repeat(e: Event, n: nat): (r: seq<Event>)
    ensures forall x :: multiset(r)[x] == if x == e then n else 0
  {
    if n == 0 then [] else [e] + Repeat(e, n - 1)
  }

  /** The joined rows before sorting: each event once per registration of `email` for it. */
  function JoinRows(events: seq<Event>, regs: seq<Registration>, email: string): (r: seq<Event>)
    ensures forall e :: multiset(r)[e] == multiset(events)[e] * PairCount(regs, e.id, email)
  {
    if events == [] then []
    else
      var rest := JoinRows(events[1..], regs, email);
      JoinRowsCons(events, regs, email, rest);
      Repeat(events[0], PairCount(regs, events[0].id, email)) + rest
  }

  lemma JoinRowsCons(events: seq<Event>, regs: seq<Registration>, email: string, rest: seq<Event>)
    requires events != []
    requires forall e :: multiset(rest)[e] == multiset(events[1..])[e] * PairCount(regs, e.id, email)
    ensures var r := Repeat(events[0], PairCount(regs, events[0].id, email)) + rest;
      forall e :: multiset(r)[e] == multiset(events)[e] * PairCount(regs, e.id, email)
  {
    assert events == [events[0]] + events[1..];
    var head := Repeat(events[0], PairCount(regs, events[0].id, email));
    forall e ensures multiset(head + rest)[e] == multiset(events)[e] * PairCount(regs, e.id, email) {
      var m, c := multiset(events[1..])[e], PairCount(regs, e.id, email);
      assert multiset(head + rest)[e] == multiset(head)[e] + m * c;
      if e == events[0] {
        assert multiset(events)[e] == m + 1;
        MulSucc(m, c);
      } else {
        assert multiset(events)[e] == m;
      }
    }
  }

  lemma MulSucc(m: nat, c: nat)
    ensures (m + 1) * c == c + m * c
  {
  }

  function JoinedEvents(events: seq<Event>, regs: seq<Registration>, email: string): (r: seq<Event>)
    ensures DateSorted(r)
    ensures forall e :: multiset(r)[e] == multiset(events)[e] * PairCount(regs, e.id, email)
  {
    SortByDate(JoinRows(events, regs, email))
  }

  /** A UNIQUE pair is held by at most one registration. */
  lemma {:induction false} PairCountAtMostOne(regs: seq<Registration>, last: nat, eventId: nat, email: string)
    requires RegistrationsTable(regs, last)
    ensures PairCount(regs, eventId, email) <= 1
  {
    if regs != [] {
      RegistrationsTableTail(regs, last);
      PairCountAtMostOne(regs[1..], last, eventId, email);
      forall k | 0 <= k < |regs| - 1 ensures !SamePair(regs[0], regs[1..][k]) {
        assert regs[1..][k] == regs[k + 1];
      }
    }
  }

  /** Distinct ids: no row of a table occurs twice. */
  lemma {:induction false} EventOccursOnce(events: seq<Event>, last: nat, e: Event)
    requires EventsTable(events, last)
    ensures multiset(events)[e] <= 1
  {
    if events != [] {
      EventsTableTail(events, last);
      EventOccursOnce(events[1..], last, e);
      assert events == [events[0]] + events[1..];
      forall k | 0 <= k < |events| - 1 ensures events[1..][k] != events[0] {
        assert events[1..][k] == events[k + 1];
      }
    }
  }

  /** On tables that satisfy the schema, a volunteer's joined events are exactly the events
      they hold a registration for, each once. */
  lemma JoinedEventsExactly(events: seq<Event>, eventsLast: nat, regs: seq<Registration>, regsLast: nat, email: string)
    requires EventsTable(events, eventsLast) && RegistrationsTable(regs, regsLast)
    ensures var r := JoinedEvents(events, regs, email);
      forall e :: multiset(r)[e] == if e in events && Registered(regs, e.id, email) then 1 else 0
  {
    var r := JoinedEvents(events, regs, email);
    forall e ensures multiset(r)[e] == if e in events && Registered(regs, e.id, email) then 1 else 0 {
      EventOccursOnce(events, eventsLast, e);
      PairCountAtMostOne(regs, regsLast, e.id, email);
    }
  }

  /** Once no registration refers to an event id (as after delete_event), no volunteer's
      joined events include an event with that id. */
  lemma JoinedEventsWithout(events: seq<Event>, regs: seq<Registration>, email: string, id: nat)
    requires forall i :: 0 <= i < |regs| ==> regs[i].eventId != id
    ensures forall k :: 0 <= k < |JoinedEvents(events, regs, email)| ==> JoinedEvents(events, regs, email)[k].id != id
  {
    var r := JoinedEvents(events, regs, email);
    forall k | 0 <= k < |r| ensures r[k].id != id {
      assert r[k] in multiset(r);
      var i :| 0 <= i < |regs| && regs[i].eventId == r[k].id && regs[i].volunteerEmail == email;
    }
  }

  // ---------------------------------------------------------------------------------------
  // login_user

  /** SELECT * FROM users WHERE email=?, then fetchone: the matching row. Under UNIQUE(email) there is at most one. */
  function FindUserByEmail(users: seq<User>, email: string): (r: Option<User>)
    ensures r.Some? <==> EmailTaken(users, email)
    ensures r.Some? ==> r.value in users && r.value.email == email
  {
    if users == [] then None
    else if users[0].email == email then Some(users[0])
    else
      var rest := FindUserByEmail(users[1..], email);
      assert EmailTaken(users, email) <==> EmailTaken(users[1..], email) by {
        if EmailTaken(users, email) {
          var i :| 0 <= i < |users| && users[i].email == email;
          assert users[1..][i - 1] == users[i];
        }
        if EmailTaken(users[1..], email) {
          var i :| 0 <= i < |users[1..]| && users[1..][i].email == email;
          assert users[i + 1] == users[1..][i];
        }
      }
      rest
  }

  /** `checkPw` stands for bcrypt.checkpw(plain, stored). */
  function LoginUser(users: seq<User>, email: string, password: string, checkPw: (string, seq<bv8>) -> bool): (r: Option<User>)
    ensures r.Some? ==> r.value in users && r.value.email == email && checkPw(password, r.value.password)
    ensures !EmailTaken(users, email) ==> r == None
  {
    match FindUserByEmail(users, email)
    case None => None
    case Some(u) => if checkPw(password, u.password) then Some(u) else None
  }

  /** With unique emails a login finds the one user with that email, and succeeds exactly when
      the password check does; a wrong password gives the same None as an unknown email. */
  lemma LoginExactly(users: seq<User>, last: nat, u: User, password: string, checkPw: (string, seq<bv8>) -> bool)
    requires UsersTable(users, last) && u in users
    ensures LoginUser(users, u.email, password, checkPw) == if checkPw(password, u.password) then Some(u) else None
  {
    var w := FindUserByEmail(users, u.email).value;
    var i :| 0 <= i < |users| && users[i] == u;
    var j :| 0 <= j < |users| && users[j] == w;
    assert i == j;
  }

  /** We can log in with the email just registered, exactly when the password check passes. */
  lemma LoginAfterRegister(users: seq<User>, u: User, password: string, checkPw: (string, seq<bv8>) -> bool)
    requires !EmailTaken(users, u.email)
    ensures LoginUser(users + [u], u.email, password, checkPw) == if checkPw(password, u.password) then Some(u) else None
  {
    var all := users + [u];
    assert all[|users|] == u;
    forall j | 0 <= j < |users| ensures all[j].email != u.email {
      assert all[j] == users[j];
    }
    var w := FindUserByEmail(all, u.email).value;
    var j :| 0 <= j < |all| && all[j] == w;
  }

  // ---------------------------------------------------------------------------------------

  /** Rows sorted by ORDER BY date are in calendar order when every date is an ISO date. */
  lemma DateSortedIsCalendarOrder(s: seq<Event>)
    requires DateSorted(s) && forall k :: 0 <= k < |s| ==> IsIsoDate(s[k].date)
    ensures forall i, j :: 0 <= i < j < |s| ==> CalendarLe(s[i].date, s[j].date)
  {
    forall i, j | 0 <= i < j < |s| ensures CalendarLe(s[i].date, s[j].date) {
      IsoDateOrder(s[i].date, s[j].date);
    }
  }
}
