/** The `sign_up_log` table and the three statements that change it:
    sign-up (INSERT), cancel (DELETE ... WHERE email AND event_id) and
    book-taster-gi (UPDATE ... SET booked_gi = 1 WHERE email AND event_id).
    The table is an immutable sequence of rows in insertion order; each
    statement is a function from the old table to the new one. */
module Ledger {

  type Email = string
  type EventId = int

  /** One registration: who signed up for which event, when, and whether a
      taster gi was booked for it. */
  datatype LedgerRow = LedgerRow(email: Email, eventId: EventId, timestamp: int, bookedGi: bool)

  type Log = seq<LedgerRow>

  /** The WHERE clause shared by cancel and book-taster-gi. */
  predicate Matches(row: LedgerRow, email: Email, eventId: EventId) {
    row.email == email && row.eventId == eventId
  }

  /** The table without its newest row. */
  function Init(log: Log): Log
    requires |log| > 0
  {
    log[..|log| - 1]
  }

  /** The newest row. */
  function Last(log: Log): LedgerRow
    requires |log| > 0
  {
    log[|log| - 1]
  }

  lemma InitLast(log: Log)
    requires |log| > 0
    ensures log == Init(log) + [Last(log)]
  {
  }

  /** True when the table holds at least one row for (email, eventId). */
  predicate IsRegistered(log: Log, email: Email, eventId: EventId) {
    exists i :: 0 <= i < |log| && Matches(log[i], email, eventId)
  }

  /** Number of rows for (email, eventId). */
  function CountMatching(log: Log, email: Email, eventId: EventId): nat
    decreases |log|
  {
    if |log| == 0 then 0
    else CountMatching(Init(log), email, eventId) + (if Matches(Last(log), email, eventId) then 1 else 0)
  }

  /** `COUNT(*) ... WHERE event_id = eventId`: everybody's rows for an event. */
  function CountForEvent(log: Log, eventId: EventId): nat
    decreases |log|
  {
    if |log| == 0 then 0
    else CountForEvent(Init(log), eventId) + (if Last(log).eventId == eventId then 1 else 0)
  }

  /** `COUNT(*) ... WHERE event_id = eventId AND booked_gi = 1`. */
  function GisForEvent(log: Log, eventId: EventId): nat
    decreases |log|
  {
    if |log| == 0 then 0
    else GisForEvent(Init(log), eventId) + (if Last(log).eventId == eventId && Last(log).bookedGi then 1 else 0)
  }

  /** Rows for (email, eventId) whose flag is not yet set. */
  function CountUnbooked(log: Log, email: Email, eventId: EventId): nat
    decreases |log|
  {
    if |log| == 0 then 0
    else CountUnbooked(Init(log), email, eventId) + (if Matches(Last(log), email, eventId) && !Last(log).bookedGi then 1 else 0)
  }

  /** Rows for (email, eventId) whose flag is set. */
  function FlaggedMatching(log: Log, email: Email, eventId: EventId): nat
    decreases |log|
  {
    if |log| == 0 then 0
    else FlaggedMatching(Init(log), email, eventId) + (if Matches(Last(log), email, eventId) && Last(log).bookedGi then 1 else 0)
  }

  lemma {:induction false} RegisteredIffCounted(log: Log, email: Email, eventId: EventId)
    ensures IsRegistered(log, email, eventId) <==> CountMatching(log, email, eventId) > 0
    decreases |log|
  {
    if |log| > 0 {
      RegisteredIffCounted(Init(log), email, eventId);
      if IsRegistered(log, email, eventId) && !Matches(Last(log), email, eventId) {
        var i :| 0 <= i < |log| && Matches(log[i], email, eventId);
        assert Init(log)[i] == log[i];
      }
      if IsRegistered(Init(log), email, eventId) {
        var i :| 0 <= i < |Init(log)| && Matches(Init(log)[i], email, eventId);
        assert log[i] == Init(log)[i];
      }
    }
  }

  /** Every taster-gi booking for an event sits on a registration for it. */
  lemma {:induction false} GisAtMostRegistrations(log: Log, eventId: EventId)
    ensures GisForEvent(log, eventId) <= CountForEvent(log, eventId)
    decreases |log|
  {
    if |log| > 0 {
      GisAtMostRegistrations(Init(log), eventId);
    }
  }

  /** A viewer's own rows for an event are among the event's rows. */
  lemma {:induction false} MatchingAtMostForEvent(log: Log, email: Email, eventId: EventId)
    ensures CountUnbooked(log, email, eventId) <= CountMatching(log, email, eventId) <= CountForEvent(log, eventId)
    ensures FlaggedMatching(log, email, eventId) <= GisForEvent(log, eventId)
    decreases |log|
  {
    if |log| > 0 {
      MatchingAtMostForEvent(Init(log), email, eventId);
    }
  }

  // ---------------------------------------------------------------------
  // Sign-up: INSERT INTO sign_up_log (email, event_id, timestamp)
  // ---------------------------------------------------------------------

  /** Sign-up inserts one fresh row stamped `now`; `booked_gi` is left at
      its default, unset. Nothing is checked first: neither an existing
      registration nor the event's capacity. */
  function SignUp(log: Log, email: Email, eventId: EventId, now: int): (r: Log)
    ensures |r| == |log| + 1
    ensures r[..|log|] == log
    ensures Matches(r[|log|], email, eventId) && r[|log|].timestamp == now && !r[|log|].bookedGi
  {
    log + [LedgerRow(email, eventId, now, false)]
  }

  /** After a sign-up the user is registered, the event has exactly one more
      row, and no other event's count or taster-gi count moves. This holds
      whatever the table held before: a second sign-up for the same event,
      or one past capacity, is recorded all the same. */
  lemma SignUpEffect(log: Log, email: Email, eventId: EventId, now: int, other: EventId)
    ensures IsRegistered(SignUp(log, email, eventId, now), email, eventId)
    ensures CountMatching(SignUp(log, email, eventId, now), email, eventId) == CountMatching(log, email, eventId) + 1
    ensures CountForEvent(SignUp(log, email, eventId, now), eventId) == CountForEvent(log, eventId) + 1
    ensures other != eventId ==> CountForEvent(SignUp(log, email, eventId, now), other) == CountForEvent(log, other)
    ensures GisForEvent(SignUp(log, email, eventId, now), other) == GisForEvent(log, other)
  {
    var r := SignUp(log, email, eventId, now);
    assert Init(r) == log;
    assert Matches(r[|log|], email, eventId);
  }

  // ---------------------------------------------------------------------
  // Cancel: DELETE FROM sign_up_log WHERE email = ? AND event_id = ?
  // ---------------------------------------------------------------------

  /** Cancel deletes every row for (email, eventId) and keeps every other
      row. Cancelling a registration that does not exist changes nothing
      (CancelNoMatchIsNoOp); multiplicities and order are kept
      (CancelKeepsOtherRows, CancelDistributes). */
  function Cancel(log: Log, email: Email, eventId: EventId): (r: Log)
    ensures |r| == |log| - CountMatching(log, email, eventId)
    ensures !IsRegistered(r, email, eventId)
    ensures forall row :: row in r <==> row in log && !Matches(row, email, eventId)
    decreases |log|
  {
    if |log| == 0 then []
    else
      var rest := Cancel(Init(log), email, eventId);
      InitLast(log);
      if Matches(Last(log), email, eventId) then rest else rest + [Last(log)]
  }

  /** Every row that cancel keeps survives as often as it occurred, and no
      row for (email, eventId) survives at all. */
  lemma {:induction false} CancelKeepsOtherRows(log: Log, email: Email, eventId: EventId, row: LedgerRow)
    ensures Matches(row, email, eventId) ==> multiset(Cancel(log, email, eventId))[row] == 0
    ensures !Matches(row, email, eventId) ==> multiset(Cancel(log, email, eventId))[row] == multiset(log)[row]
    decreases |log|
  {
    if |log| > 0 {
      CancelKeepsOtherRows(Init(log), email, eventId, row);
      InitLast(log);
      assert multiset(log) == multiset(Init(log)) + multiset{Last(log)};
    }
  }

  /** Cancel on a table cut in two is cancel on each part: the surviving
      rows keep their relative order. */
  lemma {:induction false} CancelDistributes(a: Log, b: Log, email: Email, eventId: EventId)
    ensures Cancel(a + b, email, eventId) == Cancel(a, email, eventId) + Cancel(b, email, eventId)
    decreases |b|
  {
    if |b| == 0 {
      assert a + b == a;
    } else {
      assert Init(a + b) == a + Init(b);
      assert Last(a + b) == Last(b);
      CancelDistributes(a, Init(b), email, eventId);
    }
  }

  /** When nothing matches, cancel is a silent no-op. */
  lemma {:induction false} CancelNoMatchIsNoOp(log: Log, email: Email, eventId: EventId)
    requires !IsRegistered(log, email, eventId)
    ensures Cancel(log, email, eventId) == log
    decreases |log|
  {
    if |log| > 0 {
      assert !Matches(Last(log), email, eventId);
      CancelNoMatchIsNoOp(Init(log), email, eventId);
      InitLast(log);
    }
  }

  /** Cancelling twice is cancelling once. */
  lemma CancelIdempotent(log: Log, email: Email, eventId: EventId)
    ensures Cancel(Cancel(log, email, eventId), email, eventId) == Cancel(log, email, eventId)
  {
    CancelNoMatchIsNoOp(Cancel(log, email, eventId), email, eventId);
  }

  /** Signing up and then cancelling the same (email, eventId) leaves the
      table as cancel alone would: the user is not registered, and the new
      row is gone along with any older duplicates. */
  lemma SignUpThenCancel(log: Log, email: Email, eventId: EventId, now: int)
    ensures Cancel(SignUp(log, email, eventId, now), email, eventId) == Cancel(log, email, eventId)
    ensures !IsRegistered(Cancel(SignUp(log, email, eventId, now), email, eventId), email, eventId)
  {
    var r := SignUp(log, email, eventId, now);
    assert Init(r) == log;
  }

  /** Cancel takes from the event exactly the cancelled rows, and from its
      taster-gi count exactly the cancelled rows that had a gi booked. */
  lemma {:induction false} CancelCountsForEvent(log: Log, email: Email, eventId: EventId)
    ensures CountForEvent(Cancel(log, email, eventId), eventId) == CountForEvent(log, eventId) - CountMatching(log, email, eventId)
    ensures GisForEvent(Cancel(log, email, eventId), eventId) == GisForEvent(log, eventId) - FlaggedMatching(log, email, eventId)
    decreases |log|
  {
    if |log| > 0 {
      CancelCountsForEvent(Init(log), email, eventId);
      MatchingAtMostForEvent(Init(log), email, eventId);
      var rest := Cancel(Init(log), email, eventId);
      if !Matches(Last(log), email, eventId) {
        assert Init(rest + [Last(log)]) == rest;
      }
    }
  }

  /** Cancel leaves every other event's counts, and every other
      (email, event) pair's rows, as they were. */
  lemma {:induction false} CancelKeepsOtherCounts(log: Log, email: Email, eventId: EventId, otherEmail: Email, other: EventId)
    ensures other != eventId ==> CountForEvent(Cancel(log, email, eventId), other) == CountForEvent(log, other)
    ensures other != eventId ==> GisForEvent(Cancel(log, email, eventId), other) == GisForEvent(log, other)
    ensures (otherEmail, other) != (email, eventId) ==>
              CountMatching(Cancel(log, email, eventId), otherEmail, other) == CountMatching(log, otherEmail, other)
    decreases |log|
  {
    if |log| > 0 {
      CancelKeepsOtherCounts(Init(log), email, eventId, otherEmail, other);
      var rest := Cancel(Init(log), email, eventId);
      if !Matches(Last(log), email, eventId) {
        assert Init(rest + [Last(log)]) == rest;
      }
    }
  }

  // ---------------------------------------------------------------------
  // Book taster gi: UPDATE sign_up_log SET booked_gi = 1 WHERE email AND event_id
  // ---------------------------------------------------------------------

  /** Book-taster-gi sets the flag on exactly the rows for (email, eventId);
      every other row, and the length and order of the table, are kept. */
  function BookTasterGi(log: Log, email: Email, eventId: EventId): (r: Log)
    ensures |r| == |log|
    ensures forall i :: 0 <= i < |log| && Matches(log[i], email, eventId) ==> r[i] == log[i].(bookedGi := true)
    ensures forall i :: 0 <= i < |log| && !Matches(log[i], email, eventId) ==> r[i] == log[i]
    decreases |log|
  {
    if |log| == 0 then []
    else
      var last := Last(log);
      BookTasterGi(Init(log), email, eventId) + [if Matches(last, email, eventId) then last.(bookedGi := true) else last]
  }

  /** When nothing matches, book-taster-gi is a no-op. */
  lemma BookNoMatchIsNoOp(log: Log, email: Email, eventId: EventId)
    requires !IsRegistered(log, email, eventId)
    ensures BookTasterGi(log, email, eventId) == log
  {
  }

  /** Booking twice is booking once. */
  lemma BookIdempotent(log: Log, email: Email, eventId: EventId)
    ensures BookTasterGi(BookTasterGi(log, email, eventId), email, eventId) == BookTasterGi(log, email, eventId)
  {
  }

  /** Booking neither adds nor removes registrations: every user's rows and
      every event's count stay as they were. It raises the event's taster-gi
      count by the rows for (email, eventId) that were not yet flagged, and
      leaves other events' taster-gi counts alone. */
  lemma {:induction false} BookCounts(log: Log, email: Email, eventId: EventId, otherEmail: Email, other: EventId)
    ensures CountForEvent(BookTasterGi(log, email, eventId), other) == CountForEvent(log, other)
    ensures CountMatching(BookTasterGi(log, email, eventId), otherEmail, other) == CountMatching(log, otherEmail, other)
    ensures GisForEvent(BookTasterGi(log, email, eventId), eventId) == GisForEvent(log, eventId) + CountUnbooked(log, email, eventId)
    ensures other != eventId ==> GisForEvent(BookTasterGi(log, email, eventId), other) == GisForEvent(log, other)
    ensures CountUnbooked(BookTasterGi(log, email, eventId), email, eventId) == 0
    decreases |log|
  {
    if |log| > 0 {
      BookCounts(Init(log), email, eventId, otherEmail, other);
      var r := BookTasterGi(log, email, eventId);
      assert Init(r) == BookTasterGi(Init(log), email, eventId);
    }
  }

  /** Booking keeps who is registered for what. */
  lemma BookKeepsRegistrations(log: Log, email: Email, eventId: EventId, otherEmail: Email, other: EventId)
    ensures IsRegistered(BookTasterGi(log, email, eventId), otherEmail, other) <==> IsRegistered(log, otherEmail, other)
  {
    var r := BookTasterGi(log, email, eventId);
    if IsRegistered(r, otherEmail, other) {
      var i :| 0 <= i < |r| && Matches(r[i], otherEmail, other);
      assert Matches(log[i], otherEmail, other);
    }
    if IsRegistered(log, otherEmail, other) {
      var i :| 0 <= i < |log| && Matches(log[i], otherEmail, other);
      assert Matches(r[i], otherEmail, other);
    }
  }
}
