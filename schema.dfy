/** Rows of the three tables `create_tables` declares, the constraints the schema puts on them,
    and the row-level effect of the UPDATE and DELETE statements the data layer issues.
    A table is a sequence of rows in rowid order, which for an AUTOINCREMENT key is the
    order of insertion. */
module Schema {

  datatype Option<T> = None | Some(value: T)

  /** A row of `users`. The password column holds the bcrypt hash the caller hands over. */
  datatype User = User(id: nat, name: string, email: string, password: seq<bv8>, role: string)

  /** A row of `events`; `date` is the TEXT the caller stores, `createdBy` an email. */
  datatype Event = Event(id: nat, title: string, description: string, location: string, date: string, createdBy: string)

  /** A row of `registrations`. */
  datatype Registration = Registration(id: nat, eventId: nat, volunteerEmail: string)

  // ---------------------------------------------------------------------------------------
  // Table invariants. `last` is the table's entry in sqlite_sequence: the largest id that
  // AUTOINCREMENT has handed out, so that every id in the table is at most `last`.

  predicate UsersTable(users: seq<User>, last: nat) {
    (forall i, j :: 0 <= i < j < |users| ==> users[i].id < users[j].id) &&
    (forall i :: 0 <= i < |users| ==> 0 < users[i].id <= last) &&
    // email TEXT UNIQUE
    (forall i, j :: 0 <= i < j < |users| ==> users[i].email != users[j].email)
  }

  predicate EventsTable(events: seq<Event>, last: nat) {
    (forall i, j :: 0 <= i < j < |events| ==> events[i].id < events[j].id) &&
    (forall i :: 0 <= i < |events| ==> 0 < events[i].id <= last)
  }

  predicate SamePair(g: Registration, h: Registration) {
    g.eventId == h.eventId && g.volunteerEmail == h.volunteerEmail
  }

  predicate RegistrationsTable(regs: seq<Registration>, last: nat) {
    (forall i, j :: 0 <= i < j < |regs| ==> regs[i].id < regs[j].id) &&
    (forall i :: 0 <= i < |regs| ==> 0 < regs[i].id <= last) &&
    // UNIQUE(event_id, volunteer_email)
    (forall i, j :: 0 <= i < j < |regs| ==> !SamePair(regs[i], regs[j]))
  }

  /** An INSERT of this email into `users` would violate the UNIQUE constraint. */
  predicate EmailTaken(users: seq<User>, email: string) {
    exists i :: 0 <= i < |users| && users[i].email == email
  }

  /** An INSERT of this pair into `registrations` would violate the UNIQUE constraint. */
  predicate Registered(regs: seq<Registration>, eventId: nat, email: string) {
    exists i :: 0 <= i < |regs| && regs[i].eventId == eventId && regs[i].volunteerEmail == email
  }

  // ---------------------------------------------------------------------------------------
  // Appending a row with a fresh id keeps each table invariant.

  lemma AppendUser(users: seq<User>, last: nat, u: User)
    requires UsersTable(users, last) && u.id == last + 1 && !EmailTaken(users, u.email)
    ensures UsersTable(users + [u], last + 1)
  {
    forall i, j | 0 <= i < j < |users| + 1
      ensures (users + [u])[i].email != (users + [u])[j].email
    {
      if j == |users| {
        assert users[i].email != u.email;
      }
    }
  }

  lemma AppendEvent(events: seq<Event>, last: nat, e: Event)
    requires EventsTable(events, last) && e.id == last + 1
    ensures EventsTable(events + [e], last + 1)
  {
  }

  lemma AppendRegistration(regs: seq<Registration>, last: nat, g: Registration)
    requires RegistrationsTable(regs, last) && g.id == last + 1 && !Registered(regs, g.eventId, g.volunteerEmail)
    ensures RegistrationsTable(regs + [g], last + 1)
  {
    forall i, j | 0 <= i < j < |regs| + 1
      ensures !SamePair((regs + [g])[i], (regs + [g])[j])
    {
      if j == |regs| {
        assert !(regs[i].eventId == g.eventId && regs[i].volunteerEmail == g.volunteerEmail);
      }
    }
  }

  // ---------------------------------------------------------------------------------------
  // UPDATE events SET title=?, description=?, location=?, date=? WHERE id=?

  function SetEventFields(events: seq<Event>, id: nat, title: string, description: string, location: string, date: string): (r: seq<Event>)
    ensures |r| == |events|
    ensures forall i :: 0 <= i < |r| ==> r[i].id == events[i].id && r[i].createdBy == events[i].createdBy
    ensures forall i :: 0 <= i < |r| && events[i].id != id ==> r[i] == events[i]
    ensures forall i :: 0 <= i < |r| && events[i].id == id ==>
      r[i].title == title && r[i].description == description && r[i].location == location && r[i].date == date
  {
    if events == [] then []
    else
      var e := events[0];
      var head := if e.id == id then e.(title := title, description := description, location := location, date := date) else e;
      [head] + SetEventFields(events[1..], id, title, description, location, date)
  }

  /** An UPDATE whose id matches no row changes nothing. */
  lemma {:induction false} SetEventFieldsAbsent(events: seq<Event>, id: nat, title: string, description: string, location: string, date: string)
    requires forall i :: 0 <= i < |events| ==> events[i].id != id
    ensures SetEventFields(events, id, title, description, location, date) == events
  {
    if events != [] {
      SetEventFieldsAbsent(events[1..], id, title, description, location, date);
      assert events == [events[0]] + events[1..];
    }
  }

  lemma SetEventFieldsKeepsTable(events: seq<Event>, last: nat, id: nat, title: string, description: string, location: string, date: string)
    requires EventsTable(events, last)
    ensures EventsTable(SetEventFields(events, id, title, description, location, date), last)
  {
  }

  // ---------------------------------------------------------------------------------------
  // DELETE FROM events WHERE id=?

  function DeleteEventRows(events: seq<Event>, id: nat): (r: seq<Event>)
    ensures forall e :: multiset(r)[e] == if e.id == id then 0 else multiset(events)[e]
    ensures forall e :: e in r <==> e in events && e.id != id
  {
    if events == [] then []
    else
      assert events == [events[0]] + events[1..];
      if events[0].id == id then DeleteEventRows(events[1..], id)
      else [events[0]] + DeleteEventRows(events[1..], id)
  }

  /** No row with the deleted id is left. */
  lemma DeleteEventRowsNoId(events: seq<Event>, id: nat)
    ensures forall i :: 0 <= i < |DeleteEventRows(events, id)| ==> DeleteEventRows(events, id)[i].id != id
  {
    var r := DeleteEventRows(events, id);
    forall i | 0 <= i < |r| ensures r[i].id != id {
      assert r[i] in r;
    }
  }

  lemma {:induction false} DeleteEventRowsKeepsTable(events: seq<Event>, last: nat, id: nat)
    requires EventsTable(events, last)
    ensures EventsTable(DeleteEventRows(events, id), last)
  {
    if events != [] {
      var tail := events[1..];
      var rest := DeleteEventRows(tail, id);
      EventsTableTail(events, last);
      DeleteEventRowsKeepsTable(tail, last, id);
      if events[0].id != id {
        forall k | 0 <= k < |rest| ensures events[0].id < rest[k].id {
          var n :| 0 <= n < |tail| && tail[n] == rest[k];
          assert tail[n] == events[n + 1];
        }
        EventsTableCons(events[0], rest, last);
      }
    }
  }

  lemma EventsTableTail(events: seq<Event>, last: nat)
    requires EventsTable(events, last) && events != []
    ensures EventsTable(events[1..], last)
  {
    var tail := events[1..];
    forall i, j | 0 <= i < j < |tail| ensures tail[i].id < tail[j].id {
      assert tail[i] == events[i + 1] && tail[j] == events[j + 1];
    }
  }

  lemma EventsTableCons(e: Event, rest: seq<Event>, last: nat)
    requires EventsTable(rest, last) && 0 < e.id <= last
    requires forall k :: 0 <= k < |rest| ==> e.id < rest[k].id
    ensures EventsTable([e] + rest, last)
  {
    var r := [e] + rest;
    forall i, j | 0 <= i < j < |r| ensures r[i].id < r[j].id {
      assert r[j] == rest[j - 1];
      if 0 < i {
        assert r[i] == rest[i - 1];
      }
    }
  }

  // ---------------------------------------------------------------------------------------
  // DELETE FROM registrations WHERE <drop>, for the two conditions the data layer uses.

  /** `WHERE event_id=?`, the registrations delete_event removes with its event. */
  function OfEvent(id: nat): Registration -> bool {
    (g: Registration) => g.eventId == id
  }

  /** `WHERE event_id=? AND volunteer_email=?`, the registration unjoin_event removes. */
  function OfPair(eventId: nat, email: string): Registration -> bool {
    (g: Registration) => g.eventId == eventId && g.volunteerEmail == email
  }

  function DeleteRegistrationRows(regs: seq<Registration>, drop: Registration -> bool): (r: seq<Registration>)
    ensures forall g :: multiset(r)[g] == if drop(g) then 0 else multiset(regs)[g]
    ensures forall g :: g in r <==> g in regs && !drop(g)
  {
    if regs == [] then []
    else
      assert regs == [regs[0]] + regs[1..];
      if drop(regs[0]) then DeleteRegistrationRows(regs[1..], drop)
      else [regs[0]] + DeleteRegistrationRows(regs[1..], drop)
  }

  lemma {:induction false} DeleteRegistrationRowsKeepsTable(regs: seq<Registration>, last: nat, drop: Registration -> bool)
    requires RegistrationsTable(regs, last)
    ensures RegistrationsTable(DeleteRegistrationRows(regs, drop), last)
  {
    if regs != [] {
      var tail := regs[1..];
      var rest := DeleteRegistrationRows(tail, drop);
      RegistrationsTableTail(regs, last);
      DeleteRegistrationRowsKeepsTable(tail, last, drop);
      if !drop(regs[0]) {
        forall k | 0 <= k < |rest| ensures regs[0].id < rest[k].id && !SamePair(regs[0], rest[k]) {
          assert rest[k] in tail;
          var n :| 0 <= n < |tail| && tail[n] == rest[k];
          assert tail[n] == regs[n + 1];
          assert regs[0].id < regs[n + 1].id && !SamePair(regs[0], regs[n + 1]);
        }
        RegistrationsTableCons(regs[0], rest, last);
        assert DeleteRegistrationRows(regs, drop) == [regs[0]] + rest;
      } else {
        assert DeleteRegistrationRows(regs, drop) == rest;
      }
    }
  }

  lemma RegistrationsTableTail(regs: seq<Registration>, last: nat)
    requires RegistrationsTable(regs, last) && regs != []
    ensures RegistrationsTable(regs[1..], last)
  {
    var tail := regs[1..];
    forall i, j | 0 <= i < j < |tail| ensures tail[i].id < tail[j].id && !SamePair(tail[i], tail[j]) {
      assert tail[i] == regs[i + 1] && tail[j] == regs[j + 1];
    }
  }

  lemma RegistrationsTableCons(g: Registration, rest: seq<Registration>, last: nat)
    requires RegistrationsTable(rest, last) && 0 < g.id <= last
    requires forall k :: 0 <= k < |rest| ==> g.id < rest[k].id && !SamePair(g, rest[k])
    ensures RegistrationsTable([g] + rest, last)
  {
    var r := [g] + rest;
    forall i, j | 0 <= i < j < |r| ensures r[i].id < r[j].id && !SamePair(r[i], r[j]) {
      assert r[j] == rest[j - 1];
      if 0 < i {
        assert r[i] == rest[i - 1];
      }
    }
  }

  /** delete_event's first DELETE, stated on the columns: no registration for the event is
      left, and every other one is kept as often as before. */
  lemma DeleteRegistrationsOfEvent(regs: seq<Registration>, id: nat)
    ensures var r := DeleteRegistrationRows(regs, OfEvent(id));
      (forall g :: multiset(r)[g] == if g.eventId == id then 0 else multiset(regs)[g]) &&
      (forall i :: 0 <= i < |r| ==> r[i].eventId != id)
  {
    var r := DeleteRegistrationRows(regs, OfEvent(id));
    forall i | 0 <= i < |r| ensures r[i].eventId != id {
      assert r[i] in r;
    }
  }

  /** Deleting the same rows twice is deleting them once. */
  lemma {:induction false} DeleteRegistrationRowsIdempotent(regs: seq<Registration>, drop: Registration -> bool)
    ensures DeleteRegistrationRows(DeleteRegistrationRows(regs, drop), drop) == DeleteRegistrationRows(regs, drop)
  {
    if regs != [] {
      DeleteRegistrationRowsIdempotent(regs[1..], drop);
    }
  }

  /** A DELETE whose condition matches no row changes nothing. */
  lemma {:induction false} DeleteRegistrationRowsNone(regs: seq<Registration>, drop: Registration -> bool)
    requires forall i :: 0 <= i < |regs| ==> !drop(regs[i])
    ensures DeleteRegistrationRows(regs, drop) == regs
  {
    if regs != [] {
      DeleteRegistrationRowsNone(regs[1..], drop);
      assert regs == [regs[0]] + regs[1..];
    }
  }
}
