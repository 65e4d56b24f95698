/** Whole-ledger runs from the first-start state, proved from the operations' contracts alone. */
module Scenarios {
  import opened Wrappers
  import opened Text
  import opened Accounts
  import opened Catalog
  import opened Ledger
  import opened TicketSystem

  /** The built-in admin address passes the email check. */
  lemma AdminEmailIsValid()
    ensures IsValidEmail(AdminEmail)
  {
    EmailCheckComplete(AdminEmail, 5, 11);
  }

  lemma SmallTrainKeys()
    ensures TrainKey(1) == "Train-1" && TrainKey(2) == "Train-2" && TrainKey(3) == "Train-3"
    ensures TrainKey(5) == "Train-5"
  {
  }

  /** After a restart over a catalog holding `Train-5`, allocation resumes at 6. */
  lemma RestartAfterTrainFive()
    ensures ComputeNextTrainId(["Train-5"]) == Some(6)
  {
    SmallTrainKeys();
    TrainNumberOfTrainKey(5);
  }

  /** Three trains added by the admin on a fresh ledger get `Train-1`, `Train-2`, `Train-3`. */
  method FreshLedgerAllocatesConsecutiveIds() returns (ids: seq<string>)
    ensures ids == ["Train-1", "Train-2", "Train-3"]
  {
    var ledger := new TrainTicketSystem();
    AdminEmailIsValid();
    var login := ledger.LoginUser(AdminEmail, AdminPassword);
    assert ledger.currentUser == Some(AdminEmail);
    SmallTrainKeys();
    var a := ledger.AddTrain("Pune", "Mumbai", Some(10), "08:00", "250");
    assert a == Ok("Train-1") && ledger.nextTrainId == 2;
    var b := ledger.AddTrain("Pune", "Delhi", Some(20), "09:00", "900");
    assert b == Ok("Train-2") && ledger.nextTrainId == 3;
    var c := ledger.AddTrain("Delhi", "Pune", Some(30), "10:00", "900");
    assert c == Ok("Train-3");
    ids := [a.value, b.value, c.value];
  }

  /** A fresh ledger where the admin is logged in and has added one train with `seats` seats. */
  method AdminWithOneTrain(seats: int) returns (ledger: TrainTicketSystem, id: string)
    ensures fresh(ledger) && ledger.Valid()
    ensures ledger.currentUser == Some(AdminEmail)
    ensures ledger.trains == map[id := Train(("Pune", "Mumbai"), seats, "08:00", "250")]
    ensures ledger.bookings == []
  {
    ledger := new TrainTicketSystem();
    AdminEmailIsValid();
    var login := ledger.LoginUser(AdminEmail, AdminPassword);
    assert ledger.currentUser == Some(AdminEmail);
    var added := ledger.AddTrain("Pune", "Mumbai", Some(seats), "08:00", "250");
    id := added.value;
  }

  /** The list-level steps of the run below: each cancellation picks the single booking, and the
      second one empties it, so it leaves the list. */
  lemma CancelDownToZeroSteps(user: Option<string>, id: string)
    ensures FirstCancellable([Booking(user, id, 5)], user, id, 3) == Some(0)
    ensures ApplyCancel([Booking(user, id, 5)], 0, 3) == [Booking(user, id, 2)]
    ensures FirstCancellable([Booking(user, id, 2)], user, id, 2) == Some(0)
    ensures ApplyCancel([Booking(user, id, 2)], 0, 2) == []
    ensures FirstCancellable([], user, id, 2) == None
  {
    var emptied := Booking(user, id, 0);
    assert [Booking(user, id, 2)][0 := emptied] == [emptied];
    assert FirstIndex([emptied], emptied, 0) == 0;
  }

  /** Book 5 of 10 seats, cancel 3, cancel 2, cancel 2 again: availability goes 5, 8, 10, the
      booking shrinks to 2 and disappears, and the last cancellation finds nothing. */
  method BookAndCancelDownToZero() returns (availability: seq<int>, left: seq<Booking>, last: Status)
    ensures availability == [5, 8, 10]
    ensures left == []
    ensures last == Failure(BookingNotFound)
  {
    var admin := Some(AdminEmail);
    var ledger, id := AdminWithOneTrain(10);
    CancelDownToZeroSteps(admin, id);
    var booked := ledger.BookTicket(id, Some(5));
    assert ledger.bookings == [Booking(admin, id, 5)];
    var a1 := ledger.trains[id].availability;
    assert a1 == 5;
    var c1 := ledger.CancelTicket(id, Some(3));
    assert ledger.bookings == [Booking(admin, id, 2)];
    var a2 := ledger.trains[id].availability;
    assert a2 == 8;
    var c2 := ledger.CancelTicket(id, Some(2));
    assert ledger.bookings == [];
    var a3 := ledger.trains[id].availability;
    left := ledger.bookings;
    last := ledger.CancelTicket(id, Some(2));
    availability := [a1, a2, a3];
  }

  /** Seat counts are not checked for sign: a zero-seat booking followed by cancelling -1 seats
      drives availability to -1 and grows the booking to 1 seat. */
  method NegativeCancelDrivesAvailabilityBelowZero() returns (availability: int, booked: int)
    ensures availability == -1 && booked == 1
  {
    var admin := Some(AdminEmail);
    var ledger, id := AdminWithOneTrain(0);
    var b := ledger.BookTicket(id, Some(0));
    assert ledger.bookings == [Booking(admin, id, 0)];
    var c := ledger.CancelTicket(id, Some(-1));
    assert FirstCancellable([Booking(admin, id, 0)], admin, id, -1) == Some(0);
    availability := ledger.trains[id].availability;
    booked := ledger.bookings[0].seats;
  }

  /** A new user registers once, cannot register twice, is refused with a wrong password, logs
      in with the right one, and as a non-admin cannot add trains. */
  method RegisterThenLogIn(email: string, password: string, wrong: string)
    returns (first: Status, again: Status, refused: Status,
             accepted: Status, add: Result<string, Error>, session: Option<string>)
    requires IsValidEmail(email) && email != AdminEmail && wrong != password
    ensures first == Success && again == Failure(EmailAlreadyRegistered)
    ensures refused == Failure(IncorrectPassword) && accepted == Success
    ensures add == Err(OnlyAdminCanAddTrains) && session == Some(email)
  {
    var ledger := new TrainTicketSystem();
    first := ledger.RegisterUser(email, password);
    again := ledger.RegisterUser(email, password);
    refused := ledger.LoginUser(email, wrong);
    accepted := ledger.LoginUser(email, password);
    add := ledger.AddTrain("Pune", "Mumbai", Some(10), "08:00", "250");
    session := ledger.currentUser;
  }

  /** Booking seats on a train and then cancelling the same count leaves every train's record as
      it was and every train's booked seats as they were, whichever booking the cancellation
      acts on. */
  method BookThenCancelRestoresLedger(ledger: TrainTicketSystem, trainId: string, seats: int)
    returns (booked: Status, cancelled: Status)
    requires ledger.Valid() && trainId in ledger.trains && ledger.trains[trainId].availability >= seats
    modifies ledger
    ensures booked == Success && cancelled == Success
    ensures ledger.trains == old(ledger.trains)
    ensures forall k :: BookedSeats(ledger.bookings, k) == BookedSeats(old(ledger.bookings), k)
  {
    var user := ledger.currentUser;
    var trains0, bookings0 := ledger.trains, ledger.bookings;
    BookThenCancelGivesBackSeats(bookings0, user, trainId, seats);
    var t := trains0[trainId];
    booked := ledger.BookTicket(trainId, Some(seats));
    var trains1, bookings1 := ledger.trains, ledger.bookings;
    assert bookings1 == bookings0 + [Booking(user, trainId, seats)];
    assert trains1 == trains0[trainId := t.(availability := t.availability - seats)];
    var found := FirstCancellable(bookings1, user, trainId, seats);
    assert found.Some?;
    cancelled := ledger.CancelTicket(trainId, Some(seats));
    assert ledger.bookings == ApplyCancel(bookings1, found.value, seats);
    assert ledger.trains == trains1[trainId := t];
    assert ledger.trains == trains0;
  }
}
