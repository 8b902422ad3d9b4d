/** Concrete pages: one upcoming event with two seats, seen by different
    viewers over small sign-up tables. */
module Scenarios {
  import opened Wrappers
  import opened Ledger
  import opened IndexView
  import Auth

  const Open: Event := Event(1, "Fundamentals", "2030-01-01", "18:00:00", "19:00:00", "Gi", 2, "Sports hall", None, None, None)

  function Member(email: string): Auth.User {
    Auth.User(email, "hash", "First", "Last", "", "member")
  }

  /** With nobody signed up, an anonymous viewer sees both seats free and is
      not registered. */
  lemma AnonymousEmptyEvent()
    ensures Index([Open], [], None)[0].capacity == 2
    ensures !Index([Open], [], None)[0].registered
    ensures Index([Open], [], None)[0].registrationCount == 0 && Index([Open], [], None)[0].gisBooked == 0
  {
    IndexRowMeaning([Open], [], None, 0);
  }

  /** One sign-up by A without a gi: A sees themself registered with no gi
      and one seat left; B sees one seat left and is not registered. */
  lemma OneRegistrationTwoViewers()
    ensures var log := [LedgerRow("a@x", 1, 100, false)];
            var a := Index([Open], log, Some(Member("a@x")))[0];
            var b := Index([Open], log, Some(Member("b@x")))[0];
            a.registered && !a.bookedGi && a.capacity == 1 && !b.registered && b.capacity == 1
  {
    var log := [LedgerRow("a@x", 1, 100, false)];
    IndexRowMeaning([Open], log, Some(Member("a@x")), 0);
    IndexRowMeaning([Open], log, Some(Member("b@x")), 0);
    assert Matches(log[0], "a@x", 1);
    assert Init(log) == [];
  }

  /** A signed up twice, booked a gi on the first row only: both rows count
      against capacity and one gi is counted, but the page shows A's gi as
      not booked because the newer row's flag wins. */
  lemma DuplicateRowsLastWins()
    ensures var log := [LedgerRow("a@x", 1, 100, true), LedgerRow("a@x", 1, 200, false)];
            var a := Index([Open], log, Some(Member("a@x")))[0];
            a.registered && !a.bookedGi && a.registrationCount == 2 && a.gisBooked == 1 && a.capacity == 0
  {
    var log := [LedgerRow("a@x", 1, 100, true), LedgerRow("a@x", 1, 200, false)];
    IndexRowMeaning([Open], log, Some(Member("a@x")), 0);
    assert Matches(log[0], "a@x", 1);
    assert Init(log) == [log[0]];
    assert Init(Init(log)) == [];
  }

  /** Overbooking is visible, not clamped: three sign-ups for two seats
      leave the page showing -1. */
  lemma OverbookedCapacityGoesNegative()
    ensures var log := SignUp(SignUp(SignUp([], "a@x", 1, 1), "b@x", 1, 2), "c@x", 1, 3);
            Index([Open], log, None)[0].capacity == -1
  {
    var log1 := SignUp([], "a@x", 1, 1);
    var log2 := SignUp(log1, "b@x", 1, 2);
    var log3 := SignUp(log2, "c@x", 1, 3);
    SignUpEffect([], "a@x", 1, 1, 1);
    SignUpEffect(log1, "b@x", 1, 2, 1);
    SignUpEffect(log2, "c@x", 1, 3, 1);
    IndexRowMeaning([Open], log3, None, 0);
  }

  /** As written, the page hides a logged-in member's own registration:
      after A signs up, the handler shows A as not registered, where the
      page with the viewer resolved shows A as registered. */
  lemma AsWrittenHidesRegistration()
    ensures var log := [LedgerRow("a@x", 1, 100, false)];
            !IndexAsWritten([Open], log, Some(Member("a@x")))[0].registered &&
            Index([Open], log, Some(Member("a@x")))[0].registered
  {
    OneRegistrationTwoViewers();
  }
}
