/** The SQLite file `database.db`, as the three tables of `create_tables` and their AUTOINCREMENT
    counters, with the data-layer functions that write to it as methods. Every method is one
    atomic step: the statements it issues take effect together, or not at all when a
    constraint fails. The read-only functions are in module Queries and take the tables as
    arguments (`AllEvents(db.events)`). */
module Store {
  import opened Schema
  import opened Queries

  /** What an INSERT that can hit a UNIQUE constraint reports. */
  datatype Outcome = Committed | IntegrityError

  class Database {
    var users: seq<User>
    var events: seq<Event>
    var registrations: seq<Registration>
    // The sqlite_sequence entries: the largest id AUTOINCREMENT has used in each table.
    var lastUserId: nat
    var lastEventId: nat
    var lastRegistrationId: nat

    /** The constraints of the schema, and ids below the AUTOINCREMENT counters. */
    ghost predicate Valid()
      reads this
    {
      UsersTable(users, lastUserId) &&
      EventsTable(events, lastEventId) &&
      RegistrationsTable(registrations, lastRegistrationId)
    }

    /** create_tables on a database file that has no tables yet. */
    constructor ()
      ensures Valid()
      ensures users == [] && events == [] && registrations == []
      ensures lastUserId == 0 && lastEventId == 0 && lastRegistrationId == 0
    {
      users, events, registrations := [], [], [];
      lastUserId, lastEventId, lastRegistrationId := 0, 0, 0;
    }

    /** add_userdata: INSERT INTO users. A taken email violates UNIQUE and nothing changes. */
    method AddUser(name: string, email: string, password: seq<bv8>, role: string) returns (r: Outcome)
      requires Valid()
      modifies this`users, this`lastUserId
      ensures Valid()
      ensures r == IntegrityError <==> EmailTaken(old(users), email)
      ensures r == IntegrityError ==> users == old(users) && lastUserId == old(lastUserId)
      ensures r == Committed ==>
        lastUserId == old(lastUserId) + 1 &&
        users == old(users) + [User(lastUserId, name, email, password, role)]
    {
      if EmailTaken(users, email) {
        r := IntegrityError;
      } else {
        var u := User(lastUserId + 1, name, email, password, role);
        AppendUser(users, lastUserId, u);
        users, lastUserId := users + [u], lastUserId + 1;
        r := Committed;
      }
    }

    /** add_event: INSERT INTO events, with a fresh id above every id the table holds. */
    method AddEvent(title: string, description: string, location: string, date: string, createdBy: string)
      requires Valid()
      modifies this`events, this`lastEventId
      ensures Valid()
      ensures lastEventId == old(lastEventId) + 1
      ensures events == old(events) + [Event(lastEventId, title, description, location, date, createdBy)]
      ensures forall i :: 0 <= i < |old(events)| ==> old(events)[i].id < lastEventId
    {
      var e := Event(lastEventId + 1, title, description, location, date, createdBy);
      AppendEvent(events, lastEventId, e);
      events, lastEventId := events + [e], lastEventId + 1;
    }

    /** update_event: overwrite title, description, location and date of the event with this
        id; its id and creator stay, and no other row changes. No such id: nothing changes. */
    method UpdateEvent(id: nat, title: string, description: string, location: string, date: string)
      requires Valid()
      modifies this`events
      ensures Valid()
      ensures |events| == |old(events)|
      ensures forall i :: 0 <= i < |events| ==>
        events[i] == if old(events)[i].id == id
                     then old(events)[i].(title := title, description := description, location := location, date := date)
                     else old(events)[i]
      ensures (forall i :: 0 <= i < |old(events)| ==> old(events)[i].id != id) ==> events == old(events)
    {
      SetEventFieldsKeepsTable(events, lastEventId, id, title, description, location, date);
      if forall i :: 0 <= i < |events| ==> events[i].id != id {
        SetEventFieldsAbsent(events, id, title, description, location, date);
      }
      events := SetEventFields(events, id, title, description, location, date);
    }

    /** delete_event: first the event's registrations, then the event itself. */
    method DeleteEvent(id: nat)
      requires Valid()
      modifies this`events, this`registrations
      ensures Valid()
      ensures forall e :: multiset(events)[e] == if e.id == id then 0 else multiset(old(events))[e]
      ensures forall g :: multiset(registrations)[g] == if g.eventId == id then 0 else multiset(old(registrations))[g]
      ensures forall i :: 0 <= i < |events| ==> events[i].id != id
      ensures forall i :: 0 <= i < |registrations| ==> registrations[i].eventId != id
      ensures events == DeleteEventRows(old(events), id)
      ensures registrations == DeleteRegistrationRows(old(registrations), OfEvent(id))
    {
      DeleteRegistrationRowsKeepsTable(registrations, lastRegistrationId, OfEvent(id));
      DeleteRegistrationsOfEvent(registrations, id);
      DeleteEventRowsKeepsTable(events, lastEventId, id);
      DeleteEventRowsNoId(events, id);
      events, registrations := DeleteEventRows(events, id), DeleteRegistrationRows(registrations, OfEvent(id));
    }

    /** join_event: INSERT INTO registrations. True when the row went in; false when the pair
        was already there (the IntegrityError is caught) and then nothing changes. */
    method JoinEvent(eventId: nat, email: string) returns (joined: bool)
      requires Valid()
      modifies this`registrations, this`lastRegistrationId
      ensures Valid()
      ensures joined <==> !Registered(old(registrations), eventId, email)
      ensures joined ==>
        lastRegistrationId == old(lastRegistrationId) + 1 &&
        registrations == old(registrations) + [Registration(lastRegistrationId, eventId, email)]
      ensures !joined ==> registrations == old(registrations) && lastRegistrationId == old(lastRegistrationId)
      ensures Registered(registrations, eventId, email)
    {
      if Registered(registrations, eventId, email) {
        joined := false;
      } else {
        var g := Registration(lastRegistrationId + 1, eventId, email);
        AppendRegistration(registrations, lastRegistrationId, g);
        registrations, lastRegistrationId := registrations + [g], lastRegistrationId + 1;
        assert registrations[|registrations| - 1] == g;
        joined := true;
      }
    }

    /** unjoin_event: DELETE FROM registrations the rows holding this pair. Idempotent: a pair
        that is not registered leaves the table as it was. */
    method UnjoinEvent(eventId: nat, email: string)
      requires Valid()
      modifies this`registrations
      ensures Valid()
      ensures forall g :: multiset(registrations)[g] ==
                           if g.eventId == eventId && g.volunteerEmail == email then 0 else multiset(old(registrations))[g]
      ensures !Registered(registrations, eventId, email)
      ensures !Registered(old(registrations), eventId, email) ==> registrations == old(registrations)
      ensures registrations == DeleteRegistrationRows(old(registrations), OfPair(eventId, email))
    {
      var drop := OfPair(eventId, email);
      DeleteRegistrationRowsKeepsTable(registrations, lastRegistrationId, drop);
      if !Registered(registrations, eventId, email) {
        DeleteRegistrationRowsNone(registrations, drop);
      }
      var kept := DeleteRegistrationRows(registrations, drop);
      forall i | 0 <= i < |kept| ensures !drop(kept[i]) {
        assert kept[i] in kept;
      }
      registrations := kept;
    }
  }

  /** An NGO registers and publishes an event; every listing shows it. */
  method PublishEvent() {
    var db := new Database();
    var created := db.AddUser("Shore NGO", "ngo@x.org", [], "NGO");
    assert created == Committed;
    db.AddEvent("Beach Cleanup", "Collect litter", "North beach", "2025-06-01", "ngo@x.org");
    var event := db.events[0];
    assert event.createdBy == "ngo@x.org";
    assert event in AllEvents(db.events) by {
      assert event in multiset(AllEvents(db.events));
    }
    assert event in EventsByCreator(db.events, "ngo@x.org") by {
      assert event in multiset(EventsByCreator(db.events, "ngo@x.org"));
    }
  }

  /** The NGO sees exactly the volunteer who joined. */
  method ListRegistrants() {
    var db, event, row := OneVolunteerJoined();
    assert RegistrationsForEvent(db.registrations, event.id) == ["v@x.org"] by {
      assert RegistrationsForEvent(db.registrations[1..], event.id) == [];
    }
  }

  /** A new database holding one event and one volunteer's registration for it. */
  method OneVolunteerJoined() returns (db: Database, event: Event, row: Registration)
    ensures fresh(db) && db.Valid()
    ensures db.events == [event] && db.registrations == [row]
    ensures row.eventId == event.id && row.volunteerEmail == "v@x.org"
  {
    db := new Database();
    db.AddEvent("Beach Cleanup", "Collect litter", "North beach", "2025-06-01", "ngo@x.org");
    event := db.events[0];
    var joined := db.JoinEvent(event.id, "v@x.org");
    row := db.registrations[0];
  }

  /** Joining twice registers once; unjoining twice leaves no registration. */
  method JoinTwiceUnjoinTwice() {
    var db, event, row := OneVolunteerJoined();
    assert db.registrations[0] == row;
    assert Registered(db.registrations, event.id, "v@x.org");
    var again := db.JoinEvent(event.id, "v@x.org");
    assert !again && db.registrations == [row];
    db.UnjoinEvent(event.id, "v@x.org");
    assert [row][1..] == [];
    assert db.registrations == [];
    db.UnjoinEvent(event.id, "v@x.org");
    assert db.registrations == [];
  }

  /** Deleting an event removes its registrations with it. */
  method DeleteCascades() {
    var db, event, row := OneVolunteerJoined();
    db.DeleteEvent(event.id);
    assert [event][1..] == [] && [row][1..] == [];
    assert db.events == [] && db.registrations == [];
    assert JoinedEvents(db.events, db.registrations, "v@x.org") == [];
  }
}
