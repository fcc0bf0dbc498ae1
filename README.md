# Helping Hands: the data layer, in Dafny

Helping Hands matches volunteers with NGO-run community events. Its logic is the data layer
at the top of `main.py`: a SQLite database with three tables and one function per SQL
statement or pair of statements.

- **users** has an AUTOINCREMENT `id`, `name`, an `email` declared `UNIQUE`, `password` (a bcrypt hash) and `role`.
- **events** has an AUTOINCREMENT `id`, `title`, `description`, `location`, `date` (TEXT, written by Python's `str(date)` as `YYYY-MM-DD`) and `created_by` (an email).
- **registrations** has an AUTOINCREMENT `id`, `event_id` and `volunteer_email`, with `UNIQUE(event_id, volunteer_email)`.

The model has four modules:

- `Dates` (dates.dfy) gives the order SQLite's BINARY collation puts on TEXT, `TextLe`.
  It proves that this order is a total order.
  It also proves that on `YYYY-MM-DD` strings it is calendar order (year, then month, then day).
  That is why `ORDER BY date` sorts events by date.
- `Schema` (schema.dfy) has the row datatypes and the table invariants: ids grow
  strictly in rowid order and stay at or below the AUTOINCREMENT counter, and both
  UNIQUE constraints hold. It also has the row-level effect of the UPDATE and DELETE
  statements, with lemmas proving that each statement keeps the invariants.
- `Queries` (queries.dfy) has `login_user` and the four `get_*` SELECTs as functions of
  the tables they read.
  - The three event queries (`AllEvents`, `EventsByCreator`, `JoinedEvents`) state which rows
    come back, how often each is repeated, and that they are sorted by date.
  - `RegistrationsForEvent` states which emails appear. `RegistrationsForEventDistinct` adds
    that none repeats when the UNIQUE pair constraint holds.
  - `LoginUser` returns at most one user. Its contract and `LoginExactly` together fix which one.
- `Store` (database.dfy) has the class `Database`: the three tables and their three
  AUTOINCREMENT counters as fields. The six writing functions are methods on it, each one
  atomic step with `modifies` naming only the fields it writes. `Valid()` is the schema's
  constraints, and every method keeps it. The small client methods at the end
  (`OneVolunteerJoined`, `JoinTwiceUnjoinTwice`, `PublishEvent`, `ListRegistrants`, `DeleteCascades`) walk through
  the life of one event using only these contracts.

Modelling choices:

- A table is a sequence of rows in rowid order. With AUTOINCREMENT, that is insertion order.
- `lastUserId`, `lastEventId` and `lastRegistrationId` are the tables' `sqlite_sequence`
  entries. A new row gets the counter plus one. An INSERT that fails a UNIQUE constraint is
  rolled back with the counter.
- `ORDER BY date` is specified by `Queries.DateSorted` plus equality of multisets.
  The SQL fixes no order among events with equal dates, and neither do the contracts.
  The function that computes the result is an insertion sort.
- Emails compare as SQLite's `=` does under BINARY: exactly, case-sensitive.
- `bcrypt.checkpw` is the parameter `checkPw` for `LoginUser`. Password hashing happens in
  the UI before `add_userdata` is called, so the model stores the hash it is given.
- The inner join in `get_joined_events` yields an event once per matching registration
  (`JoinRows`). Under `UNIQUE(event_id, volunteer_email)` that is at most once
  (`JoinedEventsExactly`).

What the code does not check or promise, and the model does not either:

- Events with equal dates come back from `ORDER BY date` in no fixed order.
- `update_event` on a missing id does nothing and reports nothing.
- Nothing checks that the caller owns the event being updated or deleted.
- Nothing checks that the event `join_event` is given exists.
- Nothing checks that `created_by` names an NGO user.

## Model

| member | source | states |
|---|---|---|
| `Dates.TextLe` | main.py:82 | `ORDER BY date` on the `date TEXT` column (main.py:35) compares under BINARY collation: character by character, and a proper prefix comes first |
| `Schema.UsersTable` | main.py:22-27 | users ids increase in rowid order and never exceed the AUTOINCREMENT counter, and `email` is UNIQUE |
| `Schema.EventsTable` | main.py:30-36 | events ids increase in rowid order and never exceed the AUTOINCREMENT counter |
| `Schema.RegistrationsTable` | main.py:39-43 | registrations ids increase and stay within the counter, and no two rows share an (event_id, volunteer_email) pair |
| `Dates.TextLeReflexive` | main.py:82 | TEXT order puts every string at or before itself |
| `Dates.TextLeTotal` | main.py:82 | any two TEXT values are comparable, so `ORDER BY` is total |
| `Dates.TextLeTransitive` | main.py:82 | TEXT order is transitive |
| `Dates.TextLeAntisymmetric` | main.py:82 | two TEXT values ordered both ways are equal |
| `Dates.IsoDateOrder` | main.py:82 | on `YYYY-MM-DD` strings, TEXT order holds exactly when the first date is on or before the second by year, month, day |
| `Schema.AppendUser` | main.py:22-27 | adding a user with the next id and an unused email keeps ids increasing, bounded by the counter, and emails unique |
| `Schema.AppendEvent` | main.py:30-36 | adding an event with the next id keeps ids increasing and bounded by the counter |
| `Schema.AppendRegistration` | main.py:39-43 | adding a registration with the next id and a new (event, volunteer) pair keeps ids increasing and the pair UNIQUE |
| `Schema.SetEventFields` | main.py:96-97 | the UPDATE keeps length, every id and every creator; rows with another id are untouched; the row with the id gets the four new fields |
| `Schema.SetEventFieldsAbsent` | main.py:96-97 | an UPDATE whose id matches no row leaves the table equal to what it was |
| `Schema.SetEventFieldsKeepsTable` | main.py:96-97 | the UPDATE keeps the events table invariant |
| `Schema.DeleteEventRows` | main.py:105 | the DELETE keeps every event whose id differs, with its multiplicity, and no event with the id |
| `Schema.DeleteEventRowsKeepsTable` | main.py:105 | deleting events keeps their ids increasing and bounded |
| `Schema.DeleteEventRowsNoId` | main.py:105 | no row with the deleted id is left |
| `Schema.DeleteRegistrationRows` | main.py:104 | the DELETE keeps exactly the registrations its condition does not match, each as often as before |
| `Schema.DeleteRegistrationRowsKeepsTable` | main.py:104 | deleting registrations keeps ids increasing and the pair UNIQUE |
| `Schema.DeleteRegistrationsOfEvent` | main.py:104 | `DELETE ... WHERE event_id=?` leaves no registration for the event and keeps every other one as often as before |
| `Schema.DeleteRegistrationRowsIdempotent` | main.py:123 | running the same DELETE twice leaves what running it once leaves |
| `Schema.DeleteRegistrationRowsNone` | main.py:123 | a DELETE that matches no row changes nothing |
| `Queries.InsertByDate` | main.py:82 | inserting into a date-sorted list gives a date-sorted list with that one event more |
| `Queries.SortByDate` | main.py:82 | the result is sorted by date and is a permutation of the input |
| `Queries.AllEvents` | main.py:79-84 | `get_all_events` returns every event, each as often as stored, in ascending date order |
| `Queries.CreatedBy` | main.py:89 | `WHERE created_by=?` keeps exactly the events of that creator, with their multiplicities |
| `Queries.EventsByCreator` | main.py:86-91 | `get_events_by_creator` returns exactly that creator's events, in ascending date order |
| `Queries.RegistrationsForEvent` | main.py:127-132 | an email is listed exactly when a registration of it for the event exists |
| `Queries.RegistrationsForEventDistinct` | main.py:127-132 | under the UNIQUE pair constraint no email is listed twice |
| `Queries.PairCount` | main.py:138-139 | the count of registrations holding a pair is zero exactly when the pair is not registered |
| `Queries.JoinRows` | main.py:137-139 | the inner join yields each event as many times as it is stored, times its matching registrations |
| `Queries.JoinedEvents` | main.py:134-142 | `get_joined_events` returns the join rows in ascending date order |
| `Queries.PairCountAtMostOne` | main.py:43 | UNIQUE(event_id, volunteer_email) allows at most one registration per pair |
| `Queries.EventOccursOnce` | main.py:31 | an event row with its increasing id occurs at most once in the table |
| `Queries.JoinedEventsExactly` | main.py:137-140 | on valid tables a volunteer's joined events are exactly the stored events they registered for, each once |
| `Queries.JoinedEventsWithout` | main.py:100-106 | once no registration refers to an event id, no joined-events list contains that event |
| `Queries.FindUserByEmail` | main.py:59-60 | a user is found exactly when the email is taken, and the found row has that email |
| `Queries.LoginUser` | main.py:56-69 | a login returns only a stored user with that email whose password check passed; an unknown email gives None |
| `Queries.LoginExactly` | main.py:56-69 | with unique emails, logging in as a stored user gives that user when the check passes and None otherwise, the same None as an unknown email |
| `Queries.LoginAfterRegister` | main.py:49-69 | right after inserting a user with a new email, logging in with that email gives that user exactly when the password check passes |
| `Queries.DateSortedIsCalendarOrder` | main.py:82 | a date-sorted list of events with ISO dates is in calendar order |
| `Store.Database.constructor` | main.py:17-45 | `create_tables` on a new file gives three empty tables with counters at zero that satisfy the schema |
| `Store.Database.AddUser` | main.py:49-54 | a taken email gives IntegrityError and changes nothing; otherwise exactly one user with the next id and the given fields is appended |
| `Store.Database.AddEvent` | main.py:72-77 | exactly one event is appended, with the given fields and an id above every existing id; registrations and users unchanged |
| `Store.Database.UpdateEvent` | main.py:93-98 | only the event with the id changes and only in title, description, location and date; an absent id changes nothing |
| `Store.Database.DeleteEvent` | main.py:100-106 | the new tables are exactly the two DELETEs applied to the old ones: no event with the id and no registration for it remain, and every other event and registration is kept in order |
| `Store.Database.JoinEvent` | main.py:109-118 | returns true and appends one registration exactly when the pair was new; otherwise returns false and changes nothing |
| `Store.Database.UnjoinEvent` | main.py:120-125 | the new table is exactly the DELETE applied to the old one: the pair's registrations go, every other one stays in order, the pair is then absent, and a second call changes nothing |

## Left out

- Streamlit pages, widgets and styling (main.py:144-460), and the session state (main.py:9-14): presentation, not data logic.
- Connections, cursors and `commit`: each data function is one atomic step on in-memory tables. Errors other than a UNIQUE violation (database locked, disk full) are not modelled.
- `create_tables` on a database that already holds the tables (`IF NOT EXISTS` is then a no-op for a table): only the first run, on an empty file, is modelled, as the constructor.
- bcrypt: `hashpw` belongs to the UI, and `checkpw` is the abstract parameter `checkPw`. The `ValueError` checkpw raises on a malformed stored hash is not modelled.
- LoginUser: the conversion of a str password column to bytes (main.py:64-65) is left out, because the model's password column always holds bytes.
- `datetime.strptime` and `st.date_input` are library calls in the UI. Dates are the TEXT the caller stores. `IsoDateOrder` and `DateSortedIsCalendarOrder` take the `YYYY-MM-DD` shape as a precondition instead.
- `update_event` turns its date argument into TEXT with `str(date)` (main.py:97). `UpdateEvent` takes the TEXT, as `add_event` does.
- SQL NULLs and column type affinity: every value is a non-null string or a natural number id.
- AUTOINCREMENT's upper limit (2^63 - 1, after which SQLite reports the database is full): ids are unbounded naturals.
- The non-empty field checks (main.py:319 and main.py:400) live in the UI, not in the data functions.
- The order of rows from `get_registrations_for_event`: SQL promises none, so `RegistrationsForEvent`'s contract states only which emails appear. That none repeats is the separate lemma `RegistrationsForEventDistinct`, which holds under the UNIQUE pair constraint.
