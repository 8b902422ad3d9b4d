# Club sign-up core, modelled in Dafny

This project models the logic core of a small club-management web
application (a FastAPI handler file over a MySQL database). Members browse
upcoming class sessions, sign up for them, cancel, and book a taster gi
(a loaner garment) for a session. Committee pages are guarded by a role gate.

Three pieces of the handler file are modelled as pure functions over
immutable data:

- **Role gate** (`Auth`): `role_required(role)` builds a checker that turns
  the optional logged-in user into 401 (not logged in), 403 (wrong role) or
  a pass. The role `administrator` satisfies every gate.
- **Sign-up ledger** (`Ledger`): the `sign_up_log` table is a
  `seq<LedgerRow>` in insertion order. Each of the three SQL statements is a
  function from the old table to the new one:
  - sign-up is an INSERT (append);
  - cancel is a DELETE by (email, event id) (filter);
  - book-taster-gi is an UPDATE by (email, event id) (pointwise map).
- **Home-page view model** (`IndexView`): the `index` handler joins the
  upcoming events with the table. It runs one query for the viewer's own
  rows, builds a set of event ids and a last-wins dict of gi flags, runs two
  grouped count queries, and emits one record per event. Each step is
  modelled as the handler performs it. Lemmas then tie the result to
  independent reference definitions over the table: plain counts
  (`CountForEvent`, `GisForEvent`), existence of a row (`IsRegistered`) and
  the newest row's flag (`LastFlag`).

`Scenarios` holds concrete pages: an empty event, one registration seen by
two viewers, duplicate rows where the newer flag wins, and an overbooked
event whose displayed capacity goes negative.

Files: `wrappers.dfy` (Option, dict `get`), `auth.dfy`, `ledger.dfy`,
`index_view.dfy`, `scenarios.dfy`.

Two behaviours of the code worth knowing:

- The UPDATE behind book-taster-gi sets the flag on every row for the
  (email, event) pair, and `BookTasterGi` does the same.
- With duplicate rows the dict comprehension keeps the flag of the last
  row returned (`FlagsAreLastWins`). The `DuplicateRowsLastWins` scenario
  shows a gi that is counted for the event while the viewer's own record
  shows it as not booked.

## Model

| member | source | states |
|---|---|---|
| Auth.RoleChecker | app.py:61-70 | no user gives 401 with the login message; a present user passes exactly when their role is `administrator` or equals the required role, and is refused with 403 otherwise |
| Auth.AdministratorPassesEveryGate | app.py:65-66 | an administrator passes a gate whatever role string it requires |
| Auth.NonAdministratorPassesOnlyOwnRole | app.py:67-69 | a non-administrator passes iff the required role equals their role exactly; otherwise the status is 403 |
| Auth.CommitteeGate | app.py:61-70 | on the `committee` gate a member gets 403, a committee member and an administrator pass, and no user gets 401 |
| Ledger.SignUp | app.py:142-147 | sign-up keeps the old table as a prefix and adds exactly one row for (email, event) stamped with the current time, gi unset |
| Ledger.SignUpEffect | app.py:140-148 | after sign-up the user is registered; the event and the (email, event) pair gain exactly one row even if a row already existed or the event is full; other events' counts and all gi counts are unchanged |
| Ledger.Cancel | app.py:150-159 | cancel removes exactly the rows for (email, event): the length drops by their number, the user is no longer registered, and a row survives iff it was there and does not match |
| Ledger.CancelKeepsOtherRows | app.py:152-156 | every non-matching row survives cancel with its multiplicity; no matching row survives |
| Ledger.CancelDistributes | app.py:152-156 | cancel on a concatenation is the concatenation of the cancels, so surviving rows keep their order |
| Ledger.CancelNoMatchIsNoOp | app.py:152-158 | cancelling a registration that does not exist leaves the table unchanged |
| Ledger.CancelIdempotent | app.py:152-158 | cancelling twice equals cancelling once |
| Ledger.SignUpThenCancel | app.py:142-158 | sign-up followed by cancel of the same pair equals cancel alone, so the user ends up not registered |
| Ledger.CancelCountsForEvent | app.py:152-156 | cancel lowers the event's registration count by exactly the cancelled rows, and its gi count by exactly the cancelled rows that had a gi booked |
| Ledger.CancelKeepsOtherCounts | app.py:152-156 | cancel leaves other events' counts and gi counts, and every other (email, event) pair's rows, unchanged |
| Ledger.BookTasterGi | app.py:204-210 | the flag is set on exactly the matching rows; every other row is unchanged and the length is kept |
| Ledger.BookNoMatchIsNoOp | app.py:204-210 | booking with no matching row leaves the table unchanged |
| Ledger.BookIdempotent | app.py:204-210 | booking twice equals booking once |
| Ledger.BookCounts | app.py:204-210 | booking keeps every registration count; the event's gi count rises by the matching rows that were unflagged; other events' gi counts are unchanged; no matching row stays unflagged |
| Ledger.BookKeepsRegistrations | app.py:204-210 | booking changes nobody's registered state for any event |
| Ledger.GisAtMostRegistrations | app.py:96-99 | an event's gi count never exceeds its registration count |
| Ledger.RegisteredIffCounted | app.py:88-89 | a user is registered for an event iff the table has a positive number of rows for the pair |
| IndexView.SelectByEmail | app.py:88 | the viewer's query returns exactly the viewer's rows as (event, flag) pairs: each returned pair comes from one of the viewer's rows and each of the viewer's rows is returned |
| IndexView.SelectDistributes | app.py:88 | the query on a concatenated table is the concatenation of the queries, so the viewer's rows come back in table order |
| IndexView.RegisteredIds | app.py:89 | the registered set contains an event id iff some returned row carries it |
| IndexView.FoldFlags | app.py:90 | the dict has the accumulated keys plus every returned row's event, and an event no row mentions keeps its earlier entry |
| IndexView.RegisteredIdsAreRegistrations | app.py:88-89 | an event id is in the viewer's registered set iff the viewer has a row for that event |
| IndexView.FlagsAreLastWins | app.py:90 | the dict comprehension has an entry for an event iff the viewer has a row for it, and the entry is the flag of the viewer's newest such row |
| IndexView.LastFlagIffRegistered | app.py:88-90 | a newest row for (viewer, event) exists iff the viewer is registered for the event |
| IndexView.FoldFlagsSnoc | app.py:90 | a dict comprehension over one more row equals the previous dict overwritten at that row's event |
| IndexView.GroupCounts | app.py:96-99 | a grouped count dict only has keys among the listed events, and every entry is positive (GROUP BY emits no empty group) |
| IndexView.GroupCountsAgree | app.py:94-99 | a grouped count dict has an entry exactly for listed events with a qualifying row, holding that event's count of all rows or of gi rows |
| IndexView.GroupCountLookup | app.py:116-122 | for a listed event, `get(event_id, 0)` on a grouped dict is the event's count, zero included |
| Wrappers.GetOr | app.py:107 | `get(key, default)` is the entry when the key is present and the default otherwise |
| IndexView.EventIds | app.py:92 | the event-id set holds exactly the ids of the listed events |
| IndexView.AssembleRow | app.py:105-125 | one record: the event's own fields copied unchanged; registration and gi counts are the count dicts' entries for the id, zero when absent; capacity plus registration count is the stated capacity; registered iff logged in and the id is in the registered set; booked gi iff registered and the flag dict holds true for the id |
| IndexView.Index | app.py:83-127 | one record per event in order, copying the event's own fields; capacity = stated capacity - registration count; booked gi implies registered; an anonymous viewer is never registered; no events gives an empty result |
| IndexView.IndexAsWritten | app.py:74-78 | the page as the handler is written: the viewer lookup fails and is swallowed, so no record ever shows the viewer registered or with a gi booked, whoever is logged in |
| IndexView.IndexRowMeaning | app.py:104-122 | each record's registration count and gi count are the table's counts for the event, and gi count <= registration count; capacity = stated - count, negative when overbooked; registered iff logged in with a row for the event; booked gi iff logged in and the newest row's flag is set |
| IndexView.ViewAfterSignUp | app.py:140-148 | after the viewer signs up, their record shows them registered with no gi, one more registration and one seat fewer |
| IndexView.ViewAfterSignUpThenCancel | app.py:142-158 | after sign-up then cancel, the viewer's record shows them neither registered nor with a gi booked |
| IndexView.ViewAfterBooking | app.py:202-211 | after a registered viewer books, their record shows the gi booked, with registration count and capacity unchanged |
| IndexView.BookedLastFlag | app.py:204-210 | after booking a registered pair, the newest row for it carries the flag |
| Scenarios.AnonymousEmptyEvent | app.py:104-122 | an empty table shows an anonymous viewer two free seats of two, not registered, zero counts |
| Scenarios.OneRegistrationTwoViewers | app.py:104-122 | after one sign-up by A, A sees registered, no gi, one seat left; B sees not registered, one seat left |
| Scenarios.DuplicateRowsLastWins | app.py:90-122 | two rows by A (first flagged, second not): two registrations, one gi counted, A's gi shown as not booked, zero seats left |
| Scenarios.OverbookedCapacityGoesNegative | app.py:116 | three sign-ups for a two-seat event show capacity -1 |
| Scenarios.AsWrittenHidesRegistration | app.py:74-90 | after A signs up, the page as written shows A not registered, while the page with A resolved as the viewer shows A registered |

## Left out

- Database plumbing (`db.py`): connections, cursors, commits. Storage
  failures (a `None` result from a failed query, or an exception raised
  when the connection itself fails) are not modelled; every statement is
  assumed to succeed.
- E-mail comparison: `WHERE email = %s` compares under the column's
  collation (by default case-insensitive), while the model compares
  strings exactly. Every row is written with `user.id`, the e-mail as
  stored in the user table, so on tables the handlers produce the two
  comparisons agree; hand-edited rows differing only in case are not
  modelled.
- The order of rows from the viewer's query: the SQL has no ORDER BY. The
  model assumes table (insertion) order, which decides which duplicate
  row's flag wins.
- Password hashing and checking, token creation and cookies, login and
  logout: these are calls into external libraries.
- The login dependency on the sign-up, cancel and book handlers: the model
  takes the logged-in user's e-mail as given. The 401 raised when nobody is
  logged in comes from the login library, not from this code.
- Auth.RoleChecker: its no-user case models `if not user` (app.py:63-64) as
  written. The user comes from the login library's dependency, which
  usually raises its own 401 before the checker runs when there is no
  valid token. The library is not part of this model, so that earlier
  401 is not modelled.
- IndexView.Index: the viewer is a parameter standing in for the
  current-user lookup at app.py:74-78. `IndexAsWritten` models that lookup
  as written (see Findings).
- Template rendering, static files, the welcome e-mail, and date and time
  reformatting (`format_date`, `strptime`/`strftime`): `date`,
  `startTime` and `endTime` are passed through unformatted.
- The date filter `date >= today` on the event query: the model takes the
  already-filtered list of upcoming events. The clock that supplies the
  sign-up timestamp is a parameter (`now`).
- Event create and edit, user registration, the members list, the roster
  page, and password and role updates: they pass form fields straight to
  SQL and hold no logic to state.
- The table's auto-increment row id and the `int(...)` conversions of ids:
  ids are modelled as integers from the start.
- A NULL `booked_gi` or `user_role` column: flags are booleans (unset at
  sign-up) and roles are strings.
- Concurrent requests: each operation is one atomic step on the table.

## Findings

| source | as written | input that shows it | evidently intended | confidence | as-written member | corrected member |
|---|---|---|---|---|---|---|
| app.py:74-78 | `manager.get_current_user()` is called with no token and inside a bare `except: pass`, so the call fails (a missing argument), the error is swallowed and `user` stays `None` on every request | member A is logged in and signed up for event 1; the page shows A as not registered and offers sign-up again | resolve the viewer from the request's session cookie, so the logged-in branch (app.py:87-90, 106-107) runs | medium, not executed; it relies on the login library's `get_current_user` requiring a token argument, and that library is not part of this model | IndexView.IndexAsWritten, Scenarios.AsWrittenHidesRegistration | IndexView.Index, IndexView.IndexRowMeaning |
