/** The home page's view model: for every upcoming event, its remaining
    capacity, the aggregate sign-up and taster-gi counts, and whether the
    viewer is registered and has booked a gi. The computation follows the
    page handler step by step: one query for the viewer's own rows, two
    grouped count queries over the listed events, then one output record
    per event. */
module IndexView {
  import opened Wrappers
  import opened Ledger
  import Auth

  /** A row of the event table (already restricted to upcoming dates). */
  datatype Event = Event(
    eventId: EventId,
    name: string,
    date: string,
    startTime: string,
    endTime: string,
    category: string,
    capacity: int,
    location: string,
    locationLink: Option<string>,
    topic: Option<string>,
    coach: Option<string>)

  /** The record the page template receives for one event. */
  datatype ViewRow = ViewRow(
    eventId: EventId,
    eventName: string,
    date: string,
    startTime: string,
    endTime: string,
    category: string,
    capacity: int,
    location: string,
    locationLink: Option<string>,
    registered: bool,
    registrationCount: nat,
    bookedGi: bool,
    gisBooked: nat,
    eventTopic: Option<string>,
    eventCoach: Option<string>)

  // ---------------------------------------------------------------------
  // The viewer's own registrations
  // ---------------------------------------------------------------------

  /** `SELECT event_id, booked_gi FROM sign_up_log WHERE email = ?`, with
      the rows in table order: every returned pair comes from one of the
      viewer's rows, every one of the viewer's rows is returned, and the
      order of the table is kept (SelectDistributes). */
  function SelectByEmail(log: Log, email: Email): (r: seq<(EventId, bool)>)
    ensures |r| <= |log|
    ensures forall p :: p in r ==> exists i :: 0 <= i < |log| && log[i].email == email && (log[i].eventId, log[i].bookedGi) == p
    ensures forall i :: 0 <= i < |log| && log[i].email == email ==> (log[i].eventId, log[i].bookedGi) in r
    decreases |log|
  {
    if |log| == 0 then []
    else
      var rest := SelectByEmail(Init(log), email);
      var last := Last(log);
      assert forall i :: 0 <= i < |log| - 1 ==> Init(log)[i] == log[i];
      if last.email == email then rest + [(last.eventId, last.bookedGi)] else rest
  }

  /** The query on a table cut in two is the query on the first part
      followed by the query on the second: the viewer's rows come back in
      table order. */
  lemma {:induction false} SelectDistributes(a: Log, b: Log, email: Email)
    ensures SelectByEmail(a + b, email) == SelectByEmail(a, email) + SelectByEmail(b, email)
    decreases |b|
  {
    if |b| == 0 {
      assert a + b == a;
    } else {
      assert Init(a + b) == a + Init(b);
      assert Last(a + b) == Last(b);
      SelectDistributes(a, Init(b), email);
    }
  }

  /** The set comprehension of event ids over the viewer's rows: exactly the
      event ids that occur in them. */
  function RegisteredIds(regs: seq<(EventId, bool)>): (r: set<EventId>)
    ensures forall i :: 0 <= i < |regs| ==> regs[i].0 in r
    ensures forall e :: e in r ==> exists i :: 0 <= i < |regs| && regs[i].0 == e
  {
    set p | p in regs :: p.0
  }

  /** The dict comprehension `{event_id: booked_gi for ...}` on top of
      `acc`: each row in turn overwrites the entry for its event, so the
      keys are those of `acc` and the rows' events, and an event no row
      mentions keeps its entry from `acc`. That the entry of a mentioned
      event is the last such row's flag is FlagsAreLastWins. */
  function FoldFlags(regs: seq<(EventId, bool)>, acc: map<EventId, bool>): (r: map<EventId, bool>)
    ensures r.Keys == acc.Keys + RegisteredIds(regs)
    ensures forall e :: e in acc && e !in RegisteredIds(regs) ==> r[e] == acc[e]
    decreases |regs|
  {
    if |regs| == 0 then acc
    else
      var rest := FoldFlags(regs[1..], acc[regs[0].0 := regs[0].1]);
      assert RegisteredIds(regs) == {regs[0].0} + RegisteredIds(regs[1..]) by {
        assert regs == [regs[0]] + regs[1..];
      }
      rest
  }

  /** Reference meaning of the flag map: the booked_gi flag of the newest
      row for (email, eventId), or None when there is no such row. */
  function LastFlag(log: Log, email: Email, eventId: EventId): Option<bool>
    decreases |log|
  {
    if |log| == 0 then None
    else if Matches(Last(log), email, eventId) then Some(Last(log).bookedGi)
    else LastFlag(Init(log), email, eventId)
  }

  lemma {:induction false} FoldFlagsSnoc(regs: seq<(EventId, bool)>, x: (EventId, bool), acc: map<EventId, bool>)
    ensures FoldFlags(regs + [x], acc) == FoldFlags(regs, acc)[x.0 := x.1]
    decreases |regs|
  {
    if |regs| == 0 {
      assert (regs + [x])[1..] == [];
    } else {
      assert (regs + [x])[1..] == regs[1..] + [x];
      FoldFlagsSnoc(regs[1..], x, acc[regs[0].0 := regs[0].1]);
    }
  }

  /** The dict comprehension over the viewer's rows holds, for each event,
      exactly the flag of the viewer's newest row for it. */
  lemma {:induction false} FlagsAreLastWins(log: Log, email: Email, eventId: EventId)
    ensures eventId in FoldFlags(SelectByEmail(log, email), map[]) <==> LastFlag(log, email, eventId).Some?
    ensures eventId in FoldFlags(SelectByEmail(log, email), map[]) ==>
              FoldFlags(SelectByEmail(log, email), map[])[eventId] == LastFlag(log, email, eventId).value
    decreases |log|
  {
    if |log| > 0 {
      FlagsAreLastWins(Init(log), email, eventId);
      var last := Last(log);
      var rest := SelectByEmail(Init(log), email);
      if last.email == email {
        assert SelectByEmail(log, email) == rest + [(last.eventId, last.bookedGi)];
        FoldFlagsSnoc(rest, (last.eventId, last.bookedGi), map[]);
      } else {
        assert SelectByEmail(log, email) == rest;
      }
    }
  }

  /** The set of registered event ids holds exactly the events the viewer
      has a row for. */
  lemma {:induction false} RegisteredIdsAreRegistrations(log: Log, email: Email, eventId: EventId)
    ensures eventId in RegisteredIds(SelectByEmail(log, email)) <==> IsRegistered(log, email, eventId)
    decreases |log|
  {
    if |log| > 0 {
      RegisteredIdsAreRegistrations(Init(log), email, eventId);
      InitLast(log);
      var last := Last(log);
      var rest := SelectByEmail(Init(log), email);
      if last.email == email {
        assert RegisteredIds(rest + [(last.eventId, last.bookedGi)]) == RegisteredIds(rest) + {last.eventId};
      }
      if IsRegistered(log, email, eventId) && !Matches(last, email, eventId) {
        var i :| 0 <= i < |log| && Matches(log[i], email, eventId);
        assert Init(log)[i] == log[i];
      }
      if IsRegistered(Init(log), email, eventId) {
        var i :| 0 <= i < |Init(log)| && Matches(Init(log)[i], email, eventId);
        assert log[i] == Init(log)[i];
      }
    }
  }

  /** A newest row exists exactly when some row exists. */
  lemma {:induction false} LastFlagIffRegistered(log: Log, email: Email, eventId: EventId)
    ensures LastFlag(log, email, eventId).Some? <==> IsRegistered(log, email, eventId)
    decreases |log|
  {
    if |log| > 0 {
      LastFlagIffRegistered(Init(log), email, eventId);
      RegisteredIffCounted(log, email, eventId);
      RegisteredIffCounted(Init(log), email, eventId);
    }
  }

  // ---------------------------------------------------------------------
  // The grouped count queries
  // ---------------------------------------------------------------------

  /** Reference count for one event: all its rows, or only those with a
      taster gi booked. */
  function EventCount(log: Log, eventId: EventId, gisOnly: bool): nat {
    if gisOnly then GisForEvent(log, eventId) else CountForEvent(log, eventId)
  }

  /** `SELECT event_id, COUNT(*) FROM sign_up_log WHERE event_id IN ids
      [AND booked_gi = 1] GROUP BY event_id`, read into a dict: one pass
      over the table, bumping the counter of each qualifying row's event.
      Events without a qualifying row get no entry. */
  function GroupCounts(log: Log, ids: set<EventId>, gisOnly: bool): (r: map<EventId, nat>)
    ensures r.Keys <= ids
    ensures forall e :: e in r ==> r[e] > 0
    decreases |log|
  {
    if |log| == 0 then map[]
    else
      var m := GroupCounts(Init(log), ids, gisOnly);
      var row := Last(log);
      if row.eventId in ids && (!gisOnly || row.bookedGi) then m[row.eventId := GetOr(m, row.eventId, 0) + 1]
      else m
  }

  /** The grouped query has an entry exactly for the listed events that have
      a qualifying row, and the entry is that event's count. */
  lemma {:induction false} GroupCountsAgree(log: Log, ids: set<EventId>, gisOnly: bool, eventId: EventId)
    ensures eventId in GroupCounts(log, ids, gisOnly) <==> eventId in ids && EventCount(log, eventId, gisOnly) > 0
    ensures eventId in GroupCounts(log, ids, gisOnly) ==> GroupCounts(log, ids, gisOnly)[eventId] == EventCount(log, eventId, gisOnly)
    decreases |log|
  {
    if |log| > 0 {
      GroupCountsAgree(Init(log), ids, gisOnly, eventId);
    }
  }

  /** `dict.get(event_id, 0)` on a grouped query gives the event's count for
      every listed event, zero included. */
  lemma GroupCountLookup(log: Log, ids: set<EventId>, gisOnly: bool, eventId: EventId)
    requires eventId in ids
    ensures GetOr(GroupCounts(log, ids, gisOnly), eventId, 0) == EventCount(log, eventId, gisOnly)
  {
    GroupCountsAgree(log, ids, gisOnly, eventId);
  }

  // ---------------------------------------------------------------------
  // Assembling the page
  // ---------------------------------------------------------------------

  /** The ids of the listed events (`session_ids`). */
  function EventIds(events: seq<Event>): (r: set<EventId>)
    ensures forall i :: 0 <= i < |events| ==> events[i].eventId in r
    ensures forall e :: e in r ==> exists i :: 0 <= i < |events| && events[i].eventId == e
  {
    set e | e in events :: e.eventId
  }

  /** The record repeats the event's own fields unchanged (dates and times
      unformatted). */
  predicate CopiesEvent(ev: Event, r: ViewRow) {
    && r.eventId == ev.eventId && r.eventName == ev.name && r.date == ev.date
    && r.startTime == ev.startTime && r.endTime == ev.endTime && r.category == ev.category
    && r.location == ev.location && r.locationLink == ev.locationLink
    && r.eventTopic == ev.topic && r.eventCoach == ev.coach
  }

  /** The output record for one event, given what the handler computed
      before its loop. */
  function AssembleRow(
    ev: Event, loggedIn: bool, regIds: set<EventId>, flags: map<EventId, bool>,
    counts: map<EventId, nat>, gis: map<EventId, nat>): (r: ViewRow)
    ensures CopiesEvent(ev, r)
    ensures r.registrationCount == GetOr(counts, ev.eventId, 0) && r.gisBooked == GetOr(gis, ev.eventId, 0)
    ensures r.registered <==> loggedIn && ev.eventId in regIds
    ensures r.bookedGi <==> r.registered && ev.eventId in flags && flags[ev.eventId]
    ensures r.capacity + r.registrationCount == ev.capacity
    ensures ev.eventId !in counts ==> r.registrationCount == 0 && r.capacity == ev.capacity
    ensures ev.eventId !in gis ==> r.gisBooked == 0
  {
    var registered := if loggedIn then ev.eventId in regIds else false;
    var bookedGi := if registered then GetOr(flags, ev.eventId, false) else false;
    var count := GetOr(counts, ev.eventId, 0);
    ViewRow(
      ev.eventId, ev.name, ev.date, ev.startTime, ev.endTime, ev.category,
      ev.capacity - count, ev.location, ev.locationLink,
      registered, count, bookedGi, GetOr(gis, ev.eventId, 0),
      ev.topic, ev.coach)
  }

  /** The view model of the home page, one record per listed event in the
      same order. With no events the grouped queries are skipped and the
      result is empty. */
  function Index(events: seq<Event>, log: Log, viewer: Option<Auth.User>): (r: seq<ViewRow>)
    ensures |r| == |events|
    ensures forall i :: 0 <= i < |events| ==> CopiesEvent(events[i], r[i])
    ensures forall i :: 0 <= i < |events| ==> r[i].capacity == events[i].capacity - r[i].registrationCount
    ensures forall i :: 0 <= i < |events| ==> r[i].bookedGi ==> r[i].registered
    ensures forall i :: 0 <= i < |events| ==> viewer.None? ==> !r[i].registered
  {
    var regs := if viewer.Some? then SelectByEmail(log, viewer.value.id) else [];
    var regIds := RegisteredIds(regs);
    var flags := FoldFlags(regs, map[]);
    var ids := EventIds(events);
    var counts := if |events| > 0 then GroupCounts(log, ids, false) else map[];
    var gis := if |events| > 0 then GroupCounts(log, ids, true) else map[];
    seq(|events|, i requires 0 <= i < |events| => AssembleRow(events[i], viewer.Some?, regIds, flags, counts, gis))
  }

  /** The page as the handler is written: the current-user lookup is
      called without the request's token, so it fails, the failure is
      swallowed, and every request is rendered for an anonymous viewer,
      whoever is logged in (`session`). */
  function IndexAsWritten(events: seq<Event>, log: Log, session: Option<Auth.User>): (r: seq<ViewRow>)
    ensures |r| == |events|
    ensures forall i :: 0 <= i < |events| ==> !r[i].registered && !r[i].bookedGi
    ensures forall i :: 0 <= i < |events| ==> r[i].capacity == events[i].capacity - r[i].registrationCount
  {
    Index(events, log, None)
  }

  /** What each record of the page means in terms of the sign-up table:
      the registration count is every row for the event and the remaining
      capacity is the stated capacity minus it (negative when overbooked);
      the taster-gi count is the flagged rows and never exceeds the
      registration count; the viewer is registered exactly when logged in
      and holding a row for the event; and the gi shows as booked exactly
      when registered and the viewer's newest row for the event has the
      flag set. */
  lemma IndexRowMeaning(events: seq<Event>, log: Log, viewer: Option<Auth.User>, i: int)
    requires 0 <= i < |events|
    ensures Index(events, log, viewer)[i].registrationCount == CountForEvent(log, events[i].eventId)
    ensures Index(events, log, viewer)[i].capacity == events[i].capacity - CountForEvent(log, events[i].eventId)
    ensures Index(events, log, viewer)[i].gisBooked == GisForEvent(log, events[i].eventId)
    ensures Index(events, log, viewer)[i].gisBooked <= Index(events, log, viewer)[i].registrationCount
    ensures Index(events, log, viewer)[i].registered <==> viewer.Some? && IsRegistered(log, viewer.value.id, events[i].eventId)
    ensures Index(events, log, viewer)[i].bookedGi <==>
              viewer.Some? && LastFlag(log, viewer.value.id, events[i].eventId) == Some(true)
  {
    var e := events[i].eventId;
    assert e in EventIds(events);
    GroupCountLookup(log, EventIds(events), false, e);
    GroupCountLookup(log, EventIds(events), true, e);
    GisAtMostRegistrations(log, e);
    if viewer.Some? {
      var email := viewer.value.id;
      RegisteredIdsAreRegistrations(log, email, e);
      FlagsAreLastWins(log, email, e);
      LastFlagIffRegistered(log, email, e);
    }
  }

  // ---------------------------------------------------------------------
  // How the ledger operations show on the page
  // ---------------------------------------------------------------------

  /** After the viewer signs up for a listed event, the page shows them
      registered, with the gi not booked, one more registration and one
      seat fewer. */
  lemma ViewAfterSignUp(events: seq<Event>, log: Log, u: Auth.User, i: int, now: int)
    requires 0 <= i < |events|
    ensures Index(events, SignUp(log, u.id, events[i].eventId, now), Some(u))[i].registered
    ensures !Index(events, SignUp(log, u.id, events[i].eventId, now), Some(u))[i].bookedGi
    ensures Index(events, SignUp(log, u.id, events[i].eventId, now), Some(u))[i].registrationCount ==
              Index(events, log, Some(u))[i].registrationCount + 1
    ensures Index(events, SignUp(log, u.id, events[i].eventId, now), Some(u))[i].capacity ==
              Index(events, log, Some(u))[i].capacity - 1
  {
    var e := events[i].eventId;
    var log' := SignUp(log, u.id, e, now);
    SignUpEffect(log, u.id, e, now, e);
    IndexRowMeaning(events, log, Some(u), i);
    IndexRowMeaning(events, log', Some(u), i);
    assert Init(log') == log;
  }

  /** After the viewer signs up and then cancels, the page shows them not
      registered and no gi booked: no dangling booking survives. */
  lemma ViewAfterSignUpThenCancel(events: seq<Event>, log: Log, u: Auth.User, i: int, now: int)
    requires 0 <= i < |events|
    ensures !Index(events, Cancel(SignUp(log, u.id, events[i].eventId, now), u.id, events[i].eventId), Some(u))[i].registered
    ensures !Index(events, Cancel(SignUp(log, u.id, events[i].eventId, now), u.id, events[i].eventId), Some(u))[i].bookedGi
  {
    var e := events[i].eventId;
    IndexRowMeaning(events, Cancel(SignUp(log, u.id, e, now), u.id, e), Some(u), i);
  }

  /** After a registered viewer books a taster gi, the page shows the gi as
      booked, and the registration count and capacity are unchanged. */
  lemma ViewAfterBooking(events: seq<Event>, log: Log, u: Auth.User, i: int)
    requires 0 <= i < |events|
    requires IsRegistered(log, u.id, events[i].eventId)
    ensures Index(events, BookTasterGi(log, u.id, events[i].eventId), Some(u))[i].bookedGi
    ensures Index(events, BookTasterGi(log, u.id, events[i].eventId), Some(u))[i].registrationCount ==
              Index(events, log, Some(u))[i].registrationCount
    ensures Index(events, BookTasterGi(log, u.id, events[i].eventId), Some(u))[i].capacity ==
              Index(events, log, Some(u))[i].capacity
  {
    var e := events[i].eventId;
    var log' := BookTasterGi(log, u.id, e);
    BookKeepsRegistrations(log, u.id, e, u.id, e);
    BookCounts(log, u.id, e, u.id, e);
    LastFlagIffRegistered(log', u.id, e);
    BookedLastFlag(log, u.id, e);
    IndexRowMeaning(events, log, Some(u), i);
    IndexRowMeaning(events, log', Some(u), i);
  }

  /** After booking, every row for (email, eventId) carries the flag, so the
      newest one does. */
  lemma {:induction false} BookedLastFlag(log: Log, email: Email, eventId: EventId)
    requires IsRegistered(log, email, eventId)
    ensures LastFlag(BookTasterGi(log, email, eventId), email, eventId) == Some(true)
    decreases |log|
  {
    var r := BookTasterGi(log, email, eventId);
    assert Init(r) == BookTasterGi(Init(log), email, eventId);
    if !Matches(Last(log), email, eventId) {
      var i :| 0 <= i < |log| && Matches(log[i], email, eventId);
      assert Init(log)[i] == log[i];
      BookedLastFlag(Init(log), email, eventId);
    }
  }
}
